/** Pairing grants: a browser asks to be paired, a user approves or denies, the browser redeems
    the grant once (backend/open_webui/models/browser_extension.py, BrowserPairingGrantTable).
    Hashes are opaque. */
module Pairing {
  import opened Collections

  type Id = string
  type Hash = string

  datatype Status = Pending | Approved | Denied | Consumed

  datatype Grant = Grant(
    userId: Option<Id>,
    deviceCodeHash: Hash,
    verifierHash: Hash,
    expiresAt: int,
    status: Status,
    consumedAt: Option<int>)

  type Grants = map<Id, Grant>

  datatype Operation =
    | Insert(id: Id, userId: Option<Id>, deviceCodeHash: Hash, verifierHash: Hash, expiresAt: int)
    | Approve(id: Id, by': Id, now: int)
    | Deny(id: Id, now: int)
    | Consume(id: Id, verifierHash: Hash, now: int)

  /** The guard of each operation: the row it selects, or the columns declared unique. */
  predicate Enabled(grants: Grants, op: Operation) {
    match op
    case Insert(id, _, deviceCodeHash, verifierHash, _) =>
      id !in grants && forall g :: g in grants ==>
        grants[g].deviceCodeHash != deviceCodeHash && grants[g].verifierHash != verifierHash
    case Approve(id, _, now) =>
      id in grants && grants[id].status == Pending && grants[id].userId.None? && grants[id].expiresAt > now
    case Deny(id, now) =>
      id in grants && grants[id].status == Pending && grants[id].expiresAt > now
    case Consume(id, verifierHash, now) =>
      && id in grants && grants[id].verifierHash == verifierHash && grants[id].status == Approved
      && grants[id].consumedAt.None? && grants[id].expiresAt > now
  }

  function Effect(grants: Grants, op: Operation): Grants
    requires Enabled(grants, op)
  {
    match op
    case Insert(id, userId, deviceCodeHash, verifierHash, expiresAt) =>
      grants[id := Grant(userId, deviceCodeHash, verifierHash, expiresAt, Pending, None)]
    case Approve(id, user, _) => grants[id := grants[id].(userId := Some(user), status := Approved)]
    case Deny(id, _) => grants[id := grants[id].(status := Denied)]
    case Consume(id, _, now) => grants[id := grants[id].(status := Consumed, consumedAt := Some(now))]
  }

  function Step(grants: Grants, op: Operation): Grants {
    if Enabled(grants, op) then Effect(grants, op) else grants
  }

  class BrowserPairingGrantTable {
    var grants: Grants

    constructor ()
      ensures grants == map[]
    {
      grants := map[];
    }

    method Insert(id: Id, userId: Option<Id>, deviceCodeHash: Hash, verifierHash: Hash, expiresAt: int)
      returns (row: Option<Grant>)
      modifies this
      ensures var op := Operation.Insert(id, userId, deviceCodeHash, verifierHash, expiresAt);
        grants == Step(old(grants), op) && row == if Enabled(old(grants), op) then Some(grants[id]) else None
    {
      if id in grants ||
         exists g :: g in grants &&
           (grants[g].deviceCodeHash == deviceCodeHash || grants[g].verifierHash == verifierHash) {
        return None;
      }
      row := Some(Grant(userId, deviceCodeHash, verifierHash, expiresAt, Pending, None));
      grants := grants[id := row.value];
    }

    method Approve(id: Id, userId: Id, now: int) returns (row: Option<Grant>)
      modifies this
      ensures var op := Operation.Approve(id, userId, now);
        grants == Step(old(grants), op) && row == if Enabled(old(grants), op) then Some(grants[id]) else None
    {
      if id !in grants {
        return None;
      }
      var grant := grants[id];
      if grant.status != Pending || grant.userId.Some? || grant.expiresAt <= now {
        return None;
      }
      row := Some(grant.(userId := Some(userId), status := Approved));
      grants := grants[id := row.value];
    }

    method Deny(id: Id, now: int) returns (row: Option<Grant>)
      modifies this
      ensures var op := Operation.Deny(id, now);
        grants == Step(old(grants), op) && row == if Enabled(old(grants), op) then Some(grants[id]) else None
    {
      if id !in grants || grants[id].status != Pending || grants[id].expiresAt <= now {
        return None;
      }
      row := Some(grants[id].(status := Denied));
      grants := grants[id := row.value];
    }

    method Consume(id: Id, verifierHash: Hash, now: int) returns (row: Option<Grant>)
      modifies this
      ensures var op := Operation.Consume(id, verifierHash, now);
        grants == Step(old(grants), op) && row == if Enabled(old(grants), op) then Some(grants[id]) else None
    {
      if id !in grants {
        return None;
      }
      var grant := grants[id];
      if grant.verifierHash != verifierHash || grant.status != Approved || grant.consumedAt.Some?
        || grant.expiresAt <= now {
        return None;
      }
      row := Some(grant.(status := Consumed, consumedAt := Some(now)));
      grants := grants[id := row.value];
    }
  }

  // ------------------------------------------------------------------ whole runs

  /** The table after a run from the empty one. */
  function Run(ops: seq<Operation>): Grants {
    if ops == [] then map[] else Step(Run(ops[..|ops| - 1]), ops[|ops| - 1])
  }

  /** The operations on grant `g` that succeeded, in order. */
  function Log(ops: seq<Operation>, g: Id): seq<Operation> {
    if ops == [] then []
    else
      var before, op := ops[..|ops| - 1], ops[|ops| - 1];
      if op.id == g && Enabled(Run(before), op) then Log(before, g) + [op] else Log(before, g)
  }

  /** The only histories a grant can have, and the row each leaves behind: created; approved once
      by a user, before expiry, unless created with one; denied before expiry; approved and then
      redeemed once, with its own verifier, before expiry. */
  ghost predicate Lifecycle(log: seq<Operation>, grants: Grants, g: Id) {
    if log == [] then g !in grants
    else
      && g in grants && log[0].Insert?
      && grants[g].deviceCodeHash == log[0].deviceCodeHash
      && grants[g].verifierHash == log[0].verifierHash && grants[g].expiresAt == log[0].expiresAt
      && (grants[g].consumedAt.Some? <==> grants[g].status == Consumed)
      && match grants[g].status
         case Pending =>
           |log| == 1 && grants[g].userId == log[0].userId
         case Approved =>
           |log| == 2 && ApprovedBy(log, grants[g])
         case Denied =>
           |log| == 2 && log[1].Deny? && log[1].now < log[0].expiresAt && grants[g].userId == log[0].userId
         case Consumed =>
           && |log| == 3 && ApprovedBy(log, grants[g])
           && log[2].Consume? && log[2].verifierHash == log[0].verifierHash
           && log[2].now < log[0].expiresAt && grants[g].consumedAt == Some(log[2].now)
  }

  ghost predicate ApprovedBy(log: seq<Operation>, grant: Grant)
    requires |log| >= 2 && log[0].Insert?
  {
    log[0].userId.None? && log[1].Approve? && log[1].now < log[0].expiresAt && grant.userId == Some(log[1].by')
  }

  lemma StepLifecycle(log: seq<Operation>, grants: Grants, op: Operation, g: Id)
    requires Lifecycle(log, grants, g)
    ensures Lifecycle(if op.id == g && Enabled(grants, op) then log + [op] else log, Step(grants, op), g)
  {
  }

  /** Over every run every grant follows its lifecycle. */
  lemma {:induction false} RunsFollowLifecycle(ops: seq<Operation>, g: Id)
    ensures Lifecycle(Log(ops, g), Run(ops), g)
  {
    if ops != [] {
      RunsFollowLifecycle(ops[..|ops| - 1], g);
      StepLifecycle(Log(ops[..|ops| - 1], g), Run(ops[..|ops| - 1]), ops[|ops| - 1], g);
    }
  }

  /** Whether an operation on a grant succeeds is decided by what happened to it: creation needs hashes
      no grant was created with, approval and denial a grant only created, approval also one created
      without a user, redemption one approved and its own verifier; all but creation come before
      expiry. */
  ghost predicate MaySucceed(ops: seq<Operation>, op: Operation) {
    var log := Log(ops, op.id);
    match op
    case Insert(_, _, deviceCodeHash, verifierHash, _) =>
      log == [] && forall g :: Log(ops, g) != [] && Log(ops, g)[0].Insert? ==>
        Log(ops, g)[0].deviceCodeHash != deviceCodeHash && Log(ops, g)[0].verifierHash != verifierHash
    case Approve(_, _, now) =>
      |log| == 1 && log[0].Insert? && log[0].userId.None? && now < log[0].expiresAt
    case Deny(_, now) =>
      |log| == 1 && log[0].Insert? && now < log[0].expiresAt
    case Consume(_, verifierHash, now) =>
      && |log| == 2 && log[0].Insert? && log[1].Approve?
      && verifierHash == log[0].verifierHash && now < log[0].expiresAt
  }

  /** Over every run an operation succeeds exactly when its grant's history allows it. */
  lemma SucceedsIff(ops: seq<Operation>, op: Operation)
    ensures Enabled(Run(ops), op) <==> MaySucceed(ops, op)
  {
    RunsFollowLifecycle(ops, op.id);
    if op.Insert? {
      forall g
        ensures g in Run(ops) <==> Log(ops, g) != []
        ensures g in Run(ops) ==>
          && Log(ops, g)[0].Insert?
          && Log(ops, g)[0].deviceCodeHash == Run(ops)[g].deviceCodeHash
          && Log(ops, g)[0].verifierHash == Run(ops)[g].verifierHash
      {
        RunsFollowLifecycle(ops, g);
      }
    }
  }

  datatype Kind = Creation | Approval | Denial | Redemption

  function KindOf(op: Operation): Kind {
    match op
    case Insert(_, _, _, _, _) => Creation
    case Approve(_, _, _) => Approval
    case Deny(_, _) => Denial
    case Consume(_, _, _) => Redemption
  }

  function Count(log: seq<Operation>, kind: Kind): nat {
    if log == [] then 0
    else Count(log[..|log| - 1], kind) + if KindOf(log[|log| - 1]) == kind then 1 else 0
  }

  lemma CountAppend(log: seq<Operation>, op: Operation, kind: Kind)
    ensures Count(log + [op], kind) == Count(log, kind) + if KindOf(op) == kind then 1 else 0
  {
    assert (log + [op])[..|log|] == log;
  }

  /** The row's status counts what happened to the grant: one approval exactly when approved or
      redeemed, one denial exactly when denied, one redemption exactly when redeemed. */
  lemma {:induction false} StatusCountsOperations(ops: seq<Operation>, g: Id)
    ensures StatusCounts(Log(ops, g), Run(ops), g)
  {
    if ops != [] {
      var before := ops[..|ops| - 1];
      StatusCountsOperations(before, g);
      StepCounts(Log(before, g), Run(before), ops[|ops| - 1], g);
    }
  }

  ghost predicate StatusCounts(log: seq<Operation>, grants: Grants, g: Id) {
    && Count(log, Creation) == (if g in grants then 1 else 0)
    && Count(log, Approval) == (if g in grants && grants[g].status in {Approved, Consumed} then 1 else 0)
    && Count(log, Denial) == (if g in grants && grants[g].status == Denied then 1 else 0)
    && Count(log, Redemption) == (if g in grants && grants[g].status == Consumed then 1 else 0)
  }

  lemma StepCounts(log: seq<Operation>, grants: Grants, op: Operation, g: Id)
    requires StatusCounts(log, grants, g)
    ensures StatusCounts(if op.id == g && Enabled(grants, op) then log + [op] else log, Step(grants, op), g)
  {
    CountAppend(log, op, Creation);
    CountAppend(log, op, Approval);
    CountAppend(log, op, Denial);
    CountAppend(log, op, Redemption);
  }

  /** A grant created with a user cannot be approved, so it is never redeemed. */
  lemma CreatedWithUserNeverRedeemed(ops: seq<Operation>, g: Id)
    requires Log(ops, g) != [] && Log(ops, g)[0].Insert? && Log(ops, g)[0].userId.Some?
    ensures Count(Log(ops, g), Redemption) == 0
    ensures g in Run(ops) && Run(ops)[g].userId == Log(ops, g)[0].userId
  {
    RunsFollowLifecycle(ops, g);
    StatusCountsOperations(ops, g);
  }

  /** Denied and redeemed grants never change again, and neither does an approving user. */
  lemma {:induction false} FinalStatesStay(ops: seq<Operation>, more: seq<Operation>, g: Id)
    requires g in Run(ops)
    ensures g in Run(ops + more)
    ensures Run(ops)[g].status in {Denied, Consumed} ==> Run(ops + more)[g] == Run(ops)[g]
    ensures Run(ops)[g].status == Approved ==>
      Run(ops + more)[g].userId == Run(ops)[g].userId && Run(ops + more)[g].status in {Approved, Consumed}
  {
    if more == [] {
      assert ops + more == ops;
    } else {
      assert (ops + more)[..|ops + more| - 1] == ops + more[..|more| - 1];
      FinalStatesStay(ops, more[..|more| - 1], g);
    }
  }
}
