/** Revocation of devices and token families over whole runs, and what the refresh endpoint leaves
    (backend/open_webui/models/browser_extension.py, BrowserPairedDeviceTable, and
    backend/open_webui/routers/browser_extension.py). */
module DeviceRevocation {
  import opened Collections
  import opened D = Devices
  import opened DeviceTokens

  // ------------------------------------------------------------------ revocation

  /** A revoked device never changes again: no rotation, rollback, rename or revocation of it
      succeeds in any continuation. */
  lemma {:induction false} RevokedDeviceIsFrozen(start: Devices, ops: seq<Operation>, d: Id)
    requires d in start && start[d].revokedAt.Some?
    ensures d in Run(start, ops) && Run(start, ops)[d] == start[d]
    ensures forall op: Operation :: !op.RevokeFamily? && !op.Insert? && op.id == d ==> !Guard(Run(start, ops), op)
  {
    if ops != [] {
      RevokedDeviceIsFrozen(start, ops[..|ops| - 1], d);
    }
  }

  /** From any table and over every continuation, once a device has been revoked successfully its row
      stays as revoked, and no rotation, rollback, rename or revocation of it succeeds again. */
  lemma RevokedForGood(start: Devices, op: Operation, rest: seq<Operation>)
    requires op.Revoke? && Succeeds(start, op)
    ensures var devices := Run(Step(start, op), rest);
      && op.id in start && op.id in devices
      && devices[op.id] == start[op.id].(revokedAt := Some(op.now))
      && forall next: Operation :: !next.RevokeFamily? && !next.Insert? && next.id == op.id ==> !Succeeds(devices, next)
  {
    RevocationStores(start, op.id, op.userId, op.now);
    RevokedDeviceIsFrozen(Step(start, op), rest, op.id);
  }

  ghost predicate FamilyRevoked(devices: Devices, familyId: Id) {
    forall d :: d in devices && devices[d].familyId == familyId ==> devices[d].revokedAt.Some?
  }

  /** After a family is revoked it stays revoked, and no rotation or rollback in it succeeds, in
      every continuation that does not insert a new device into it. */
  lemma {:induction false} RevokedFamilyStaysRevoked(start: Devices, familyId: Id, ops: seq<Operation>)
    requires FamilyRevoked(start, familyId)
    requires forall i :: 0 <= i < |ops| ==> !(ops[i].Insert? && ops[i].familyId == familyId)
    ensures FamilyRevoked(Run(start, ops), familyId)
    ensures forall op: Operation :: (op.Rotate? || op.Restore?) && op.familyId == familyId ==>
      !Guard(Run(start, ops), op)
  {
    if ops != [] {
      RevokedFamilyStaysRevoked(start, familyId, ops[..|ops| - 1]);
    }
  }

  ghost predicate HasDevice(devices: Devices, familyId: Id) {
    exists d :: d in devices && devices[d].familyId == familyId
  }

  /** The table alone does not keep a revoked family revoked: an insert into it succeeds like any
      other, and that is the only way back. */
  lemma InsertReopensFamilyIff(devices: Devices, familyId: Id, op: Operation)
    requires HasDevice(devices, familyId) && FamilyRevoked(devices, familyId)
    ensures FamilyRevoked(Step(devices, op), familyId) <==>
      !(op.Insert? && op.familyId == familyId && Succeeds(devices, op))
  {
    var after := Step(devices, op);
    if op.Insert? && op.familyId == familyId && Succeeds(devices, op) {
      assert op.id in after && after[op.id].revokedAt.None?;
    }
  }

  /** A device paired into a family just revoked. */
  lemma RevokedFamilyReopened(d: Id, e: Id, user: Id, familyId: Id, h: Hash, g: Hash, now: int)
    requires d != e && h != g
    ensures var revoked := Run(map[],
        [Operation.Insert(d, user, "laptop", h, familyId), Operation.RevokeFamily(familyId, now)]);
      && HasDevice(revoked, familyId) && FamilyRevoked(revoked, familyId)
      && !FamilyRevoked(Step(revoked, Operation.Insert(e, user, "phone", g, familyId)), familyId)
  {
    var pair, revoke := Operation.Insert(d, user, "laptop", h, familyId), Operation.RevokeFamily(familyId, now);
    assert [pair, revoke][..1] == [pair] && [pair][..0] == [];
    var none: Devices := map[];
    assert Run(none, [pair]) == Step(Run(none, []), pair) == Step(none, pair);
    var paired := Run(none, [pair]);
    assert paired == map[d := Device(user, "laptop", h, None, None, familyId, None)];
    var revoked := Run(map[], [pair, revoke]);
    assert revoked == map[d := Device(user, "laptop", h, None, None, familyId, Some(now))];
    assert d in revoked && revoked[d].familyId == familyId;
    assert "laptop"[0] != "phone"[0];
    InsertReopensFamilyIff(revoked, familyId, Operation.Insert(e, user, "phone", g, familyId));
  }

  /** Every insert brings a family no stored device belongs to, as pairing does by drawing a new one
      for each device. */
  ghost predicate FreshFamilies(ops: seq<Operation>) {
    forall i :: 0 <= i < |ops| && ops[i].Insert? ==> !HasDevice(Run(map[], ops[..i]), ops[i].familyId)
  }

  lemma FamilyStaysKnown(devices: Devices, familyId: Id, op: Operation)
    requires HasDevice(devices, familyId)
    ensures HasDevice(Step(devices, op), familyId)
  {
    var d :| d in devices && devices[d].familyId == familyId;
    assert d in Step(devices, op) && Step(devices, op)[d].familyId == familyId;
  }

  lemma FreshFamiliesPrefix(ops: seq<Operation>, n: nat)
    requires FreshFamilies(ops) && n <= |ops|
    ensures FreshFamilies(ops[..n])
  {
    forall i | 0 <= i < n && ops[i].Insert?
      ensures !HasDevice(Run(map[], ops[..n][..i]), ops[..n][i].familyId)
    {
      assert ops[..n][..i] == ops[..i];
    }
  }

  lemma {:induction false} FamilyStaysRevoked(ops: seq<Operation>, n: nat, familyId: Id)
    requires FreshFamilies(ops) && n <= |ops|
    requires HasDevice(Run(map[], ops[..n]), familyId) && FamilyRevoked(Run(map[], ops[..n]), familyId)
    ensures HasDevice(Run(map[], ops), familyId) && FamilyRevoked(Run(map[], ops), familyId)
  {
    if n == |ops| {
      assert ops[..n] == ops;
    } else {
      var last := |ops| - 1;
      assert ops[..last][..n] == ops[..n];
      FreshFamiliesPrefix(ops, last);
      FamilyStaysRevoked(ops[..last], n, familyId);
      FamilyStep(Run(map[], ops[..last]), familyId, ops[last]);
    }
  }

  lemma FamilyStep(devices: Devices, familyId: Id, op: Operation)
    requires HasDevice(devices, familyId) && FamilyRevoked(devices, familyId)
    requires op.Insert? ==> !HasDevice(devices, op.familyId)
    ensures HasDevice(Step(devices, op), familyId) && FamilyRevoked(Step(devices, op), familyId)
  {
    InsertReopensFamilyIff(devices, familyId, op);
    FamilyStaysKnown(devices, familyId, op);
  }

  /** The operation would change a device of the family, or names it as the family to act in. */
  predicate ActsIn(devices: Devices, op: Operation, familyId: Id) {
    || ((op.Rotate? || op.Restore?) && op.familyId == familyId)
    || (!op.Insert? && !op.RevokeFamily? && op.id in devices && devices[op.id].familyId == familyId)
  }

  /** With fresh families a revoked family stays revoked over every run: no rotation or rollback in
      it, and no rotation, rollback, rename or revocation of a device of it, succeeds again. */
  lemma RevokedFamilyNeverReturns(ops: seq<Operation>, n: nat, familyId: Id)
    requires FreshFamilies(ops) && n <= |ops|
    requires HasDevice(Run(map[], ops[..n]), familyId) && FamilyRevoked(Run(map[], ops[..n]), familyId)
    ensures FamilyRevoked(Run(map[], ops), familyId)
    ensures forall op :: ActsIn(Run(map[], ops), op, familyId) ==> !Guard(Run(map[], ops), op)
  {
    FamilyStaysRevoked(ops, n, familyId);
  }

  // ------------------------------------------------------------------ the refresh endpoint

  /** A refresh for an active device of the family is accepted exactly when its checks pass and it
      presents the current hash, or the previous one within the grace period; otherwise the whole
      family is revoked, except that a request from another origin changes nothing. With a fresh
      new hash no write is refused. */
  lemma RefreshAcceptsOrRevokes(ops: seq<Operation>, id: Id, check: Check, presentedHash: Hash, newHash: Hash,
      grace: int, now: int)
    requires FreshHashes(ops) && newHash !in Seen(ops)
    requires id in Run(map[], ops) && Run(map[], ops)[id].revokedAt.None?
    ensures var devices := Run(map[], ops);
      var device := devices[id];
      var (accepted, after) := Refresh(devices, id, device.familyId, check, presentedHash, newHash, grace, now);
      && (accepted <==> check.Passed? && Presentable(device, presentedHash, now - grace))
      && (!accepted && !check.OriginRefused? ==> FamilyRevoked(after, device.familyId))
      && (check.OriginRefused? ==> after == devices)
      && (accepted ==> after[id].revokedAt.None? && InSlots(after, id, presentedHash))
  {
    var devices := Run(map[], ops);
    var familyId := devices[id].familyId;
    FreshHashesNeverClash(ops, Operation.Rotate(id, familyId, presentedHash, newHash, now));
    FreshHashesNeverClash(ops, Operation.Restore(id, familyId, presentedHash, now - grace));
    RefreshDecides(devices, id, check, presentedHash, newHash, grace, now);
  }

  /** The current hash, or the previous one rotated away recently enough. */
  predicate Presentable(device: Device, hash: Hash, notRotatedBefore: int) {
    || hash == device.hash
    || (device.previousHash == Some(hash) && device.rotatedAt.Some? && device.rotatedAt.value >= notRotatedBefore)
  }

  lemma RefreshDecides(devices: Devices, id: Id, check: Check, presentedHash: Hash, newHash: Hash, grace: int, now: int)
    requires id in devices && devices[id].revokedAt.None?
    requires var op := Operation.Rotate(id, devices[id].familyId, presentedHash, newHash, now);
      Succeeds(devices, op) == Guard(devices, op)
    requires var op := Operation.Restore(id, devices[id].familyId, presentedHash, now - grace);
      Succeeds(devices, op) == Guard(devices, op)
    ensures var device := devices[id];
      var (accepted, after) := Refresh(devices, id, device.familyId, check, presentedHash, newHash, grace, now);
      && (accepted <==> check.Passed? && Presentable(device, presentedHash, now - grace))
      && (!accepted && !check.OriginRefused? ==> FamilyRevoked(after, device.familyId))
      && (check.OriginRefused? ==> after == devices)
      && (accepted ==> id in after && after[id].revokedAt.None? && InSlots(after, id, presentedHash))
  {
    var familyId := devices[id].familyId;
    var (accepted, after) := Refresh(devices, id, familyId, check, presentedHash, newHash, grace, now);
    if !accepted && !check.OriginRefused? {
      assert after == Step(devices, Operation.RevokeFamily(familyId, now));
    }
  }

  /** What a refresh leaves, case by case: nothing changed for an unknown, revoked or foreign device, for
      another origin, or when another device has the hash to store; the family revoked when the
      checks fail or neither slot matches in time; the current hash rotated; or the previous one put
      back. */
  lemma RefreshLeaves(devices: Devices, id: Id, familyId: Id, check: Check, presentedHash: Hash, newHash: Hash,
      grace: int, now: int)
    ensures var (accepted, after) := Refresh(devices, id, familyId, check, presentedHash, newHash, grace, now);
      var revoked := Step(devices, Operation.RevokeFamily(familyId, now));
      if id !in devices || devices[id].revokedAt.Some? || devices[id].familyId != familyId || check.OriginRefused?
      then !accepted && after == devices
      else if !check.Passed? || !Presentable(devices[id], presentedHash, now - grace)
      then !accepted && after == revoked
      else
        var current := devices[id].hash == presentedHash;
        var stored := if current then newHash else presentedHash;
        if exists d :: d in devices && d != id && devices[d].hash == stored then !accepted && after == devices
        else accepted && after == devices[id := devices[id].(
          hash := stored,
          previousHash := if current then Some(presentedHash) else None,
          rotatedAt := if current then Some(now) else None)]
  {
  }

  /** Replaying a hash that has left the device's slots is rejected and revokes the family. */
  lemma ReplayRevokesFamily(ops: seq<Operation>, n: nat, id: Id, h: Hash, newHash: Hash, grace: int, now: int)
    requires FreshHashes(ops) && newHash !in Seen(ops) && n <= |ops|
    requires h in Seen(ops[..n]) && !InSlots(Run(map[], ops[..n]), id, h)
    requires id in Run(map[], ops) && Run(map[], ops)[id].revokedAt.None?
    ensures var familyId := Run(map[], ops)[id].familyId;
      var (accepted, after) := Refresh(Run(map[], ops), id, familyId, Passed, h, newHash, grace, now);
      !accepted && FamilyRevoked(after, familyId)
  {
    RetiredStaysOut(ops, n, id, h);
    RefreshAcceptsOrRevokes(ops, id, Passed, h, newHash, grace, now);
  }
}
