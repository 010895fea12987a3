/** Refresh tokens over whole runs: the two slots of each device, hashes retired from them, and
    rollbacks (backend/open_webui/models/browser_extension.py, BrowserPairedDeviceTable). */
module DeviceTokens {
  import opened Collections
  import opened D = Devices

  // ------------------------------------------------------------------ slots

  /** The hash an operation brings in. */
  function Brought(op: Operation): set<Hash> {
    match op
    case Insert(_, _, _, hash, _) => {hash}
    case Rotate(_, _, _, newHash, _) => {newHash}
    case _ => {}
  }

  /** The hash an operation stores: a refused one stores none. */
  function Stored(devices: Devices, op: Operation): set<Hash> {
    if Succeeds(devices, op) then Brought(op) else {}
  }

  /** All hashes stored by a run. */
  function Seen(ops: seq<Operation>): set<Hash> {
    if ops == [] then {}
    else
      var before, op := ops[..|ops| - 1], ops[|ops| - 1];
      Seen(before) + Stored(Run(map[], before), op)
  }

  /** Every insert and rotation brings a hash never stored before. Pairing may retry a refused insert
      with the same hash under another label. */
  ghost predicate FreshHashes(ops: seq<Operation>) {
    forall i :: 0 <= i < |ops| ==> Brought(ops[i]) !! Seen(ops[..i])
  }

  lemma FreshPrefix(ops: seq<Operation>, n: nat)
    requires FreshHashes(ops) && n <= |ops|
    ensures FreshHashes(ops[..n])
  {
    forall i | 0 <= i < n
      ensures Brought(ops[..n][i]) !! Seen(ops[..n][..i])
    {
      assert ops[..n][..i] == ops[..i];
    }
  }

  predicate InSlots(devices: Devices, d: Id, h: Hash) {
    d in devices && (devices[d].hash == h || devices[d].previousHash == Some(h))
  }

  /** Current and previous hashes are all different, across devices and within one, and all were
      stored. */
  ghost predicate SlotsApart(devices: Devices, seen: set<Hash>) {
    && (forall d, h :: InSlots(devices, d, h) ==> h in seen)
    && (forall d, e, h :: InSlots(devices, d, h) && InSlots(devices, e, h) ==> d == e)
    && (forall d :: d in devices ==> devices[d].previousHash != Some(devices[d].hash))
  }

  lemma StepSlots(devices: Devices, seen: set<Hash>, op: Operation)
    requires SlotsApart(devices, seen) && Brought(op) !! seen
    ensures SlotsApart(Step(devices, op), seen + Stored(devices, op))
    ensures forall d, h :: InSlots(Step(devices, op), d, h) ==> InSlots(devices, d, h) || h in Stored(devices, op)
  {
    var after := Step(devices, op);
    if op.Rotate? && Succeeds(devices, op) {
      assert InSlots(devices, op.id, op.currentHash);
    }
    forall d, h | InSlots(after, d, h)
      ensures InSlots(devices, d, h) || (h in Stored(devices, op) && !op.RevokeFamily? && d == op.id)
    {
    }
  }

  lemma {:induction false} RunsKeepSlotsApart(ops: seq<Operation>)
    requires FreshHashes(ops)
    ensures SlotsApart(Run(map[], ops), Seen(ops))
  {
    if ops != [] {
      var last := |ops| - 1;
      FreshPrefix(ops, last);
      RunsKeepSlotsApart(ops[..last]);
      StepSlots(Run(map[], ops[..last]), Seen(ops[..last]), ops[last]);
    }
  }

  /** With fresh hashes the unique hash column never refuses a write: an insert, a rotation or a
      rollback whose guard holds clashes with nothing but a label. */
  lemma FreshHashesNeverClash(ops: seq<Operation>, op: Operation)
    requires FreshHashes(ops) && Brought(op) !! Seen(ops)
    ensures var devices := Run(map[], ops);
      && (op.Rotate? || op.Restore? ==> Succeeds(devices, op) == Guard(devices, op))
      && (op.Insert? ==> !HashTaken(devices, op.hash, op.id))
  {
    RunsKeepSlotsApart(ops);
    var devices := Run(map[], ops);
    forall d | d in devices
      ensures InSlots(devices, d, devices[d].hash)
    {
    }
    if op.Restore? && Guard(devices, op) {
      assert InSlots(devices, op.id, op.oldHash);
    }
  }

  // ------------------------------------------------------------------ retired hashes

  /** The operation presents `h` as a credential of `d`. */
  predicate Presents(op: Operation, d: Id, h: Hash) {
    (op.Rotate? && op.id == d && op.currentHash == h) || (op.Restore? && op.id == d && op.oldHash == h)
  }

  lemma {:induction false} RetiredStaysOut(ops: seq<Operation>, n: nat, d: Id, h: Hash)
    requires FreshHashes(ops) && n <= |ops|
    requires h in Seen(ops[..n]) && !InSlots(Run(map[], ops[..n]), d, h)
    ensures h in Seen(ops) && !InSlots(Run(map[], ops), d, h)
    decreases |ops| - n
  {
    if n == |ops| {
      assert ops[..n] == ops;
    } else {
      assert ops[..n + 1][..n] == ops[..n];
      FreshPrefix(ops, n);
      RunsKeepSlotsApart(ops[..n]);
      StepSlots(Run(map[], ops[..n]), Seen(ops[..n]), ops[n]);
      RetiredStaysOut(ops, n + 1, d, h);
    }
  }

  /** Once a hash stored before has left a device's current and previous slots, no later
      operation of the run presenting it for that device succeeds, and it never comes back. */
  lemma RetiredHashNeverAccepted(ops: seq<Operation>, n: nat, m: nat, d: Id, h: Hash)
    requires FreshHashes(ops) && n <= m < |ops|
    requires h in Seen(ops[..n]) && !InSlots(Run(map[], ops[..n]), d, h)
    ensures !InSlots(Run(map[], ops[..m]), d, h)
    ensures Presents(ops[m], d, h) ==> !Guard(Run(map[], ops[..m]), ops[m])
  {
    FreshPrefix(ops, m);
    assert ops[..m][..n] == ops[..n];
    RetiredStaysOut(ops[..m], n, d, h);
  }

  // ------------------------------------------------------------------ rollbacks

  /** The rotations and rollbacks of `d` that succeeded, in order. */
  function TokenLog(start: Devices, ops: seq<Operation>, d: Id): seq<Operation> {
    if ops == [] then []
    else
      var before, op := ops[..|ops| - 1], ops[|ops| - 1];
      if IsTokenStep(Run(start, before), op, d)
      then TokenLog(start, before, d) + [op] else TokenLog(start, before, d)
  }

  /** Every rollback directly follows the rotation it takes back, names the hash that rotation
      replaced, and its bound allows that rotation's time. */
  ghost predicate RollbacksPaired(log: seq<Operation>) {
    forall i {:trigger log[i]} :: 0 <= i < |log| && log[i].Restore? ==>
      && i > 0 && log[i - 1].Rotate?
      && log[i].oldHash == log[i - 1].currentHash
      && log[i].notRotatedBefore <= log[i - 1].now
  }

  /** The row says what happened last: a rotation that can be taken back, or nothing to take
      back. */
  ghost predicate RowMatchesLog(devices: Devices, d: Id, log: seq<Operation>) {
    d in devices ==>
      var device := devices[d];
      if log != [] && log[|log| - 1].Rotate? then
        var last := log[|log| - 1];
        && device.hash == last.newHash && device.previousHash == Some(last.currentHash)
        && device.rotatedAt == Some(last.now)
      else device.previousHash.None? && device.rotatedAt.None?
  }

  predicate IsTokenStep(devices: Devices, op: Operation, d: Id) {
    (op.Rotate? || op.Restore?) && op.id == d && Succeeds(devices, op)
  }

  lemma TokenStep(devices: Devices, op: Operation, d: Id, log: seq<Operation>)
    requires RollbacksPaired(log) && RowMatchesLog(devices, d, log) && (log != [] ==> d in devices)
    ensures var log' := if IsTokenStep(devices, op, d) then log + [op] else log;
      && RollbacksPaired(log')
      && RowMatchesLog(Step(devices, op), d, log')
      && (log' != [] ==> d in Step(devices, op))
  {
    if IsTokenStep(devices, op, d) && op.Restore? {
      var log' := log + [op];
      forall i | 0 <= i < |log'| && log'[i].Restore?
        ensures i > 0 && log'[i - 1].Rotate?
        ensures log'[i].oldHash == log'[i - 1].currentHash && log'[i].notRotatedBefore <= log'[i - 1].now
      {
        if i < |log| {
          assert log'[i] == log[i];
        }
      }
    } else if IsTokenStep(devices, op, d) {
      var log' := log + [op];
      forall i | 0 <= i < |log'| && log'[i].Restore?
        ensures i < |log| && log'[i] == log[i] && log'[i - 1] == log[i - 1]
      {
      }
    }
  }

  /** Over every run from the empty table, each rotation is taken back at most once, by the next
      token operation, and only inside its time bound. */
  lemma {:induction false} EachRotationRolledBackAtMostOnce(ops: seq<Operation>, d: Id)
    ensures var log := TokenLog(map[], ops, d);
      && RollbacksPaired(log)
      && RowMatchesLog(Run(map[], ops), d, log)
      && (log != [] ==> d in Run(map[], ops))
  {
    if ops != [] {
      var before, op := ops[..|ops| - 1], ops[|ops| - 1];
      EachRotationRolledBackAtMostOnce(before, d);
      TokenStep(Run(map[], before), op, d, TokenLog(map[], before, d));
    }
  }
}
