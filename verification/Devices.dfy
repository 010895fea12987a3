/** Paired devices and their refresh tokens: rotation with one-step rollback, revocation of a
    device or of a token family (backend/open_webui/models/browser_extension.py,
    BrowserPairedDeviceTable), and the refresh endpoint built on them
    (backend/open_webui/routers/browser_extension.py). Hashes are opaque. */
module Devices {
  import opened Collections

  type Id = string
  type Hash = string

  datatype Device = Device(
    userId: Id,
    deviceLabel: string,
    hash: Hash,
    previousHash: Option<Hash>,
    rotatedAt: Option<int>,
    familyId: Id,
    revokedAt: Option<int>)

  type Devices = map<Id, Device>

  datatype Operation =
    | Insert(id: Id, userId: Id, deviceLabel: string, hash: Hash, familyId: Id)
    | Rotate(id: Id, familyId: Id, currentHash: Hash, newHash: Hash, now: int)
    | Restore(id: Id, familyId: Id, oldHash: Hash, notRotatedBefore: int)
    | Rename(id: Id, userId: Id, deviceLabel: string)
    | Revoke(id: Id, userId: Id, now: int)
    | RevokeFamily(familyId: Id, now: int)

  predicate HashTaken(devices: Devices, hash: Hash, except: Id) {
    exists d :: d in devices && d != except && devices[d].hash == hash
  }

  predicate LabelTaken(devices: Devices, userId: Id, deviceLabel: string, except: Id) {
    exists d :: d in devices && d != except && devices[d].userId == userId && devices[d].deviceLabel == deviceLabel
  }

  /** The row an operation selects. */
  predicate Guard(devices: Devices, op: Operation) {
    match op
    case Insert(id, _, _, _, _) => id !in devices
    case Rotate(id, familyId, currentHash, _, _) =>
      && id in devices && devices[id].familyId == familyId
      && devices[id].hash == currentHash && devices[id].revokedAt.None?
    case Restore(id, familyId, oldHash, notRotatedBefore) =>
      && id in devices && devices[id].familyId == familyId
      && devices[id].previousHash == Some(oldHash)
      && devices[id].rotatedAt.Some? && devices[id].rotatedAt.value >= notRotatedBefore
      && devices[id].revokedAt.None?
    case Rename(id, userId, _) => id in devices && devices[id].userId == userId && devices[id].revokedAt.None?
    case Revoke(id, userId, _) => id in devices && devices[id].userId == userId && devices[id].revokedAt.None?
    case RevokeFamily(_, _) => true
  }

  /** The unique columns: refresh hashes, and labels within a user. A clash raises. */
  predicate Clashes(devices: Devices, op: Operation) {
    match op
    case Insert(id, userId, deviceLabel, hash, _) =>
      HashTaken(devices, hash, id) || LabelTaken(devices, userId, deviceLabel, id)
    case Rotate(id, _, _, newHash, _) => HashTaken(devices, newHash, id)
    case Restore(id, _, oldHash, _) => HashTaken(devices, oldHash, id)
    case Rename(id, userId, deviceLabel) => LabelTaken(devices, userId, deviceLabel, id)
    case _ => false
  }

  predicate Succeeds(devices: Devices, op: Operation) {
    Guard(devices, op) && !Clashes(devices, op)
  }

  function Step(devices: Devices, op: Operation): Devices {
    if !Succeeds(devices, op) then devices
    else
      match op
      case Insert(id, userId, deviceLabel, hash, familyId) =>
        devices[id := Device(userId, deviceLabel, hash, None, None, familyId, None)]
      case Rotate(id, _, currentHash, newHash, now) =>
        devices[id := devices[id].(hash := newHash, previousHash := Some(currentHash), rotatedAt := Some(now))]
      case Restore(id, _, oldHash, _) =>
        devices[id := devices[id].(hash := oldHash, previousHash := None, rotatedAt := None)]
      case Rename(id, _, deviceLabel) => devices[id := devices[id].(deviceLabel := deviceLabel)]
      case Revoke(id, _, now) => devices[id := devices[id].(revokedAt := Some(now))]
      case RevokeFamily(familyId, now) =>
        map d | d in devices ::
          if devices[d].familyId == familyId && devices[d].revokedAt.None?
          then devices[d].(revokedAt := Some(now)) else devices[d]
  }

  /** The devices of the family not yet revoked. */
  function ActiveIn(devices: Devices, familyId: Id): set<Id> {
    set d | d in devices && devices[d].familyId == familyId && devices[d].revokedAt.None?
  }

  /** What an operation comes to: a row, no row selected, or a refused write. */
  datatype Outcome = Row(device: Device) | NoRow | Refused

  function OutcomeOf(devices: Devices, op: Operation): Outcome
    requires !op.RevokeFamily?
  {
    if !Guard(devices, op) then (if op.Insert? then Refused else NoRow)
    else if Clashes(devices, op) then Refused
    else Row(Step(devices, op)[op.id])
  }

  class BrowserPairedDeviceTable {
    var devices: Devices

    constructor ()
      ensures devices == map[]
    {
      devices := map[];
    }

    method Insert(id: Id, userId: Id, deviceLabel: string, hash: Hash, familyId: Id) returns (outcome: Outcome)
      modifies this
      ensures var op := Operation.Insert(id, userId, deviceLabel, hash, familyId);
        devices == Step(old(devices), op) && outcome == OutcomeOf(old(devices), op)
    {
      if id in devices || HashTaken(devices, hash, id) || LabelTaken(devices, userId, deviceLabel, id) {
        return Refused;
      }
      var row := Device(userId, deviceLabel, hash, None, None, familyId, None);
      devices := devices[id := row];
      return Row(row);
    }

    /** Replaces the current hash, keeping it as the previous one. */
    method RotateRefreshToken(id: Id, familyId: Id, currentHash: Hash, newHash: Hash, now: int)
      returns (outcome: Outcome)
      modifies this
      ensures var op := Operation.Rotate(id, familyId, currentHash, newHash, now);
        devices == Step(old(devices), op) && outcome == OutcomeOf(old(devices), op)
    {
      if id !in devices || devices[id].familyId != familyId || devices[id].hash != currentHash
        || devices[id].revokedAt.Some? {
        return NoRow;
      }
      if HashTaken(devices, newHash, id) {
        return Refused;
      }
      var row := devices[id].(hash := newHash, previousHash := Some(currentHash), rotatedAt := Some(now));
      devices := devices[id := row];
      return Row(row);
    }

    /** Takes back the last rotation, once and only when recent enough. */
    method RestoreRotatedRefreshToken(id: Id, familyId: Id, oldHash: Hash, notRotatedBefore: int)
      returns (outcome: Outcome)
      modifies this
      ensures var op := Operation.Restore(id, familyId, oldHash, notRotatedBefore);
        devices == Step(old(devices), op) && outcome == OutcomeOf(old(devices), op)
    {
      if id !in devices {
        return NoRow;
      }
      var device := devices[id];
      if device.familyId != familyId || device.previousHash != Some(oldHash) || device.revokedAt.Some? ||
         device.rotatedAt.None? || device.rotatedAt.value < notRotatedBefore {
        return NoRow;
      }
      if HashTaken(devices, oldHash, id) {
        return Refused;
      }
      var row := device.(hash := oldHash, previousHash := None, rotatedAt := None);
      devices := devices[id := row];
      return Row(row);
    }

    method Rename(id: Id, userId: Id, deviceLabel: string) returns (outcome: Outcome)
      modifies this
      ensures var op := Operation.Rename(id, userId, deviceLabel);
        devices == Step(old(devices), op) && outcome == OutcomeOf(old(devices), op)
    {
      if id !in devices || devices[id].userId != userId || devices[id].revokedAt.Some? {
        return NoRow;
      }
      if LabelTaken(devices, userId, deviceLabel, id) {
        return Refused;
      }
      var row := devices[id].(deviceLabel := deviceLabel);
      devices := devices[id := row];
      return Row(row);
    }

    method Revoke(id: Id, userId: Id, now: int) returns (outcome: Outcome)
      modifies this
      ensures var op := Operation.Revoke(id, userId, now);
        devices == Step(old(devices), op) && outcome == OutcomeOf(old(devices), op)
    {
      if id !in devices || devices[id].userId != userId || devices[id].revokedAt.Some? {
        return NoRow;
      }
      var row := devices[id].(revokedAt := Some(now));
      devices := devices[id := row];
      return Row(row);
    }

    method RevokeTokenFamily(familyId: Id, now: int) returns (count: nat)
      modifies this
      ensures devices == Step(old(devices), Operation.RevokeFamily(familyId, now))
      ensures count == |ActiveIn(old(devices), familyId)|
    {
      var matched := ActiveIn(devices, familyId);
      devices := map d | d in devices ::
        if d in matched then devices[d].(revokedAt := Some(now)) else devices[d];
      count := |matched|;
    }

    /** The refresh endpoint: revoke the family when its origin or user no longer qualifies; rotate
        the current credential, take back the last rotation within the grace period, or else
        revoke the family. */
    method RefreshDeviceToken(id: Id, familyId: Id, check: Check, presentedHash: Hash, newHash: Hash, grace: int,
        now: int)
      returns (accepted: bool)
      modifies this
      ensures (accepted, devices) == Refresh(old(devices), id, familyId, check, presentedHash, newHash, grace, now)
    {
      if id !in devices || devices[id].revokedAt.Some? || devices[id].familyId != familyId {
        return false;
      }
      if check.PolicyChanged? || check.NotPermitted? {
        var _ := RevokeTokenFamily(familyId, now);
        return false;
      }
      if check.OriginRefused? {
        return false;
      }
      var device := devices[id];
      var outcome := NoRow;
      if device.hash != presentedHash {
        if device.previousHash == Some(presentedHash) {
          outcome := RestoreRotatedRefreshToken(id, familyId, presentedHash, now - grace);
        }
      } else {
        outcome := RotateRefreshToken(id, familyId, presentedHash, newHash, now);
      }
      if outcome.NoRow? {
        var _ := RevokeTokenFamily(familyId, now);
      }
      return outcome.Row?;
    }
  }

  /** How the checks before a refresh end: the device's approved origin is no longer allowed, the
      request comes from another one, the user may not use the extension, or all is well. */
  datatype Check = PolicyChanged | OriginRefused | NotPermitted | Passed

  /** What a refresh does; a refused write raises and leaves the table as it was. */
  function Refresh(devices: Devices, id: Id, familyId: Id, check: Check, presentedHash: Hash, newHash: Hash, grace: int,
      now: int)
    : (bool, Devices)
  {
    if id !in devices || devices[id].revokedAt.Some? || devices[id].familyId != familyId then (false, devices)
    else if check.PolicyChanged? || check.NotPermitted? then
      (false, Step(devices, Operation.RevokeFamily(familyId, now)))
    else if check.OriginRefused? then (false, devices)
    else
      var op :=
        if devices[id].hash == presentedHash then Operation.Rotate(id, familyId, presentedHash, newHash, now)
        else Operation.Restore(id, familyId, presentedHash, now - grace);
      match OutcomeOf(devices, op)
      case Row(_) => (true, Step(devices, op))
      case Refused => (false, devices)
      case NoRow => (false, Step(devices, Operation.RevokeFamily(familyId, now)))
  }

  // ------------------------------------------------------------------ what each operation stores

  /** An insert succeeds exactly when the id is new, no device has the hash and none of the user's the
      label, and adds the row; else nothing changes. */
  lemma InsertStores(devices: Devices, id: Id, userId: Id, deviceLabel: string, hash: Hash, familyId: Id)
    ensures var op := Operation.Insert(id, userId, deviceLabel, hash, familyId);
      var (outcome, after) := (OutcomeOf(devices, op), Step(devices, op));
      if id !in devices && forall d :: d in devices ==>
        devices[d].hash != hash && !(devices[d].userId == userId && devices[d].deviceLabel == deviceLabel)
      then
        && outcome == Row(Device(userId, deviceLabel, hash, None, None, familyId, None))
        && after == devices[id := outcome.device]
      else outcome == Refused && after == devices
  {
  }

  /** A rotation selects an active device of the family by its current hash and is refused when another
      device has the new one; it moves the current hash to the previous slot, at the given time. */
  lemma RotationStores(devices: Devices, id: Id, familyId: Id, currentHash: Hash, newHash: Hash, now: int)
    ensures var op := Operation.Rotate(id, familyId, currentHash, newHash, now);
      var (outcome, after) := (OutcomeOf(devices, op), Step(devices, op));
      if id !in devices || devices[id].familyId != familyId || devices[id].hash != currentHash ||
         devices[id].revokedAt.Some?
      then outcome == NoRow && after == devices
      else if exists d :: d in devices && d != id && devices[d].hash == newHash
      then outcome == Refused && after == devices
      else
        && outcome == Row(Device(devices[id].userId, devices[id].deviceLabel, newHash, Some(currentHash), Some(now),
             familyId, None))
        && after == devices[id := outcome.device]
  {
  }

  /** A rollback selects an active device of the family by its previous hash, rotated away since the
      bound, and is refused when another device has that hash; it empties the previous slot. */
  lemma RollbackStores(devices: Devices, id: Id, familyId: Id, oldHash: Hash, notRotatedBefore: int)
    ensures var op := Operation.Restore(id, familyId, oldHash, notRotatedBefore);
      var (outcome, after) := (OutcomeOf(devices, op), Step(devices, op));
      if id !in devices || devices[id].familyId != familyId || devices[id].previousHash != Some(oldHash) ||
         devices[id].rotatedAt.None? || devices[id].rotatedAt.value < notRotatedBefore || devices[id].revokedAt.Some?
      then outcome == NoRow && after == devices
      else if exists d :: d in devices && d != id && devices[d].hash == oldHash
      then outcome == Refused && after == devices
      else
        && outcome == Row(Device(devices[id].userId, devices[id].deviceLabel, oldHash, None, None, familyId, None))
        && after == devices[id := outcome.device]
  {
  }

  /** A rename selects an active device of the user and is refused when another device of the user has
      the label; only the label changes. */
  lemma RenameStores(devices: Devices, id: Id, userId: Id, deviceLabel: string)
    ensures var op := Operation.Rename(id, userId, deviceLabel);
      var (outcome, after) := (OutcomeOf(devices, op), Step(devices, op));
      if id !in devices || devices[id].userId != userId || devices[id].revokedAt.Some?
      then outcome == NoRow && after == devices
      else if exists d ::
        d in devices && d != id && devices[d].userId == userId && devices[d].deviceLabel == deviceLabel
      then outcome == Refused && after == devices
      else
        && outcome == Row(Device(userId, deviceLabel, devices[id].hash, devices[id].previousHash, devices[id].rotatedAt,
             devices[id].familyId, None))
        && after == devices[id := outcome.device]
  {
  }

  /** A revocation succeeds exactly on an active device of the user; the row keeps everything and
      gets the time, and no other row changes. */
  lemma RevocationStores(devices: Devices, id: Id, userId: Id, now: int)
    ensures var op := Operation.Revoke(id, userId, now);
      var (outcome, after) := (OutcomeOf(devices, op), Step(devices, op));
      if id in devices && devices[id].userId == userId && devices[id].revokedAt.None?
      then
        && outcome == Row(Device(userId, devices[id].deviceLabel, devices[id].hash, devices[id].previousHash,
             devices[id].rotatedAt, devices[id].familyId, Some(now)))
        && after == devices[id := outcome.device]
      else outcome == NoRow && after == devices
  {
  }

  /** Revoking a family gives exactly its active devices the time; every other row stays as it is. */
  lemma FamilyRevocationStores(devices: Devices, familyId: Id, now: int)
    ensures var after := Step(devices, Operation.RevokeFamily(familyId, now));
      && after.Keys == devices.Keys
      && forall d :: d in devices ==>
        var old' := devices[d];
        if old'.familyId == familyId && old'.revokedAt.None?
        then after[d] == Device(old'.userId, old'.deviceLabel, old'.hash, old'.previousHash, old'.rotatedAt,
          old'.familyId, Some(now))
        else after[d] == old'
  {
  }

  // ------------------------------------------------------------------ whole runs

  /** The table after `ops`, starting from `start`. */
  function Run(start: Devices, ops: seq<Operation>): Devices {
    if ops == [] then start else Step(Run(start, ops[..|ops| - 1]), ops[|ops| - 1])
  }
}
