/** The bounded audit log of browser actions (backend/open_webui/models/browser_extension.py,
    BrowserActionAuditTable): every insert trims its user's rows to the newest ones. */
module Audit {
  import opened Collections

  /** `id` stands for the row id's place in the database's order of ids; `body` for all columns the
      log does not order by. */
  datatype Entry = Entry(id: nat, userId: string, createdAt: int, body: string)

  /** Ordered by creation time, then id. */
  predicate Newer(a: Entry, b: Entry) {
    a.createdAt > b.createdAt || (a.createdAt == b.createdAt && a.id > b.id)
  }

  ghost predicate UniqueIds(rows: set<Entry>) {
    forall a, b :: a in rows && b in rows && a.id == b.id ==> a == b
  }

  /** The rows of the same user ahead of `r` in the listing, newest first. */
  function Ahead(rows: set<Entry>, r: Entry): set<Entry> {
    set x | x in rows && x.userId == r.userId && Newer(x, r)
  }

  function Limit(retentionLimit: int): nat {
    if retentionLimit < 1 then 1 else retentionLimit
  }

  /** The `keep` newest rows of every user. */
  function Newest(rows: set<Entry>, keep: nat): set<Entry> {
    set r | r in rows && |Ahead(rows, r)| < keep
  }

  /** The table after an insert: one user's rows beyond the limit are gone. */
  function Inserted(rows: set<Entry>, e: Entry, keep: nat): set<Entry> {
    set r | r in rows + {e} && (r.userId != e.userId || |Ahead(rows + {e}, r)| < keep)
  }

  class BrowserActionAuditTable {
    var rows: set<Entry>

    constructor ()
      ensures rows == {}
    {
      rows := {};
    }

    /** Adds the row and trims its user's rows. The row is read again after the commit, which raises
        when the trimming took it: None, with the table as committed. */
    method Insert(e: Entry, retentionLimit: int) returns (row: Option<Entry>)
      modifies this
      ensures rows == Inserted(old(rows), e, Limit(retentionLimit))
      ensures row == if |Ahead(old(rows), e)| < Limit(retentionLimit) then Some(e) else None
    {
      InsertedRowSurvivesIff(rows, e, Limit(retentionLimit));
      rows := rows + {e};
      var keep := if retentionLimit > 1 then retentionLimit else 1;
      var stale := StaleRows(rows, e.userId, keep);
      rows := rows - stale;
      return if e in rows then Some(e) else None;
    }
  }

  /** The user's rows past the first `keep` of the listing. */
  function StaleRows(rows: set<Entry>, userId: string, keep: nat): set<Entry> {
    set r | r in rows && r.userId == userId && |Ahead(rows, r)| >= keep
  }

  /** The user's rows, newest first. */
  ghost predicate Listing(rows: set<Entry>, userId: string, order: seq<Entry>) {
    && (forall r :: r in order <==> r in rows && r.userId == userId)
    && (forall i, j :: 0 <= i < j < |order| ==> Newer(order[i], order[j]))
  }

  lemma PrefixSize(order: seq<Entry>, i: nat)
    requires i <= |order| && forall a, b :: 0 <= a < b < |order| ==> order[a] != order[b]
    ensures |Elements(order[..i])| == i
  {
    if i > 0 {
      PrefixSize(order, i - 1);
      assert order[..i] == order[..i - 1] + [order[i - 1]];
      assert Elements(order[..i]) == Elements(order[..i - 1]) + {order[i - 1]};
    }
  }

  /** The stale rows are what an ordered query with that offset returns. */
  lemma OffsetGivesStaleRows(rows: set<Entry>, userId: string, order: seq<Entry>, keep: nat)
    requires Listing(rows, userId, order)
    ensures StaleRows(rows, userId, keep) == if keep <= |order| then Elements(order[keep..]) else {}
  {
    forall i | 0 <= i < |order|
      ensures |Ahead(rows, order[i])| == i
    {
      assert Ahead(rows, order[i]) == Elements(order[..i]);
      PrefixSize(order, i);
    }
    forall r | r in rows && r.userId == userId
      ensures exists i :: 0 <= i < |order| && order[i] == r
    {
      assert r in order;
    }
  }

  // ------------------------------------------------------------------ runs

  /** A row ahead of `r` has fewer rows ahead of it. */
  lemma AheadShrinks(rows: set<Entry>, r: Entry, x: Entry)
    requires x in Ahead(rows, r)
    ensures Ahead(rows, x) < Ahead(rows, r)
    ensures |Ahead(rows, x)| < |Ahead(rows, r)|
  {
    SubsetSize(Ahead(rows, x), Ahead(rows, r) - {x});
  }

  /** Trimming cannot hide that `keep` rows are ahead of `r`. */
  lemma {:induction false} TrimmedStillAhead(rows: set<Entry>, r: Entry, keep: nat)
    requires |Ahead(rows, r)| >= keep
    ensures |Ahead(Newest(rows, keep), r)| >= keep
    decreases |Ahead(rows, r)|
  {
    if Ahead(rows, r) <= Newest(rows, keep) {
      assert Ahead(Newest(rows, keep), r) == Ahead(rows, r);
    } else {
      var x :| x in Ahead(rows, r) && x !in Newest(rows, keep);
      AheadShrinks(rows, r, x);
      TrimmedStillAhead(rows, x, keep);
      SubsetSize(Ahead(Newest(rows, keep), x), Ahead(Newest(rows, keep), r));
    }
  }

  /** A kept row has all the rows ahead of it kept too. */
  lemma KeptAheadKept(rows: set<Entry>, r: Entry, keep: nat)
    requires r in Newest(rows, keep)
    ensures Ahead(Newest(rows, keep), r) == Ahead(rows, r)
  {
    forall x | x in Ahead(rows, r)
      ensures x in Newest(rows, keep)
    {
      AheadShrinks(rows, r, x);
    }
  }

  /** A row survives the insert into the trimmed table exactly when it is among the newest of
      everything. */
  lemma SurvivesIff(rows: set<Entry>, e: Entry, keep: nat, r: Entry)
    ensures r in Inserted(Newest(rows, keep), e, keep) <==> r in Newest(rows + {e}, keep)
  {
    var kept := Newest(rows, keep);
    assert Ahead(rows + {e}, r) == Ahead(rows, r) + Ahead({e}, r);
    assert Ahead(kept + {e}, r) == Ahead(kept, r) + Ahead({e}, r);
    SubsetSize(Ahead(kept + {e}, r), Ahead(rows + {e}, r));
    SubsetSize(Ahead(rows, r), Ahead(rows + {e}, r));
    SubsetSize(Ahead(kept, r), Ahead(kept + {e}, r));
    if r in kept {
      KeptAheadKept(rows, r, keep);
      if r.userId != e.userId {
        assert Ahead({e}, r) == {};
      }
    } else if |Ahead(rows, r)| >= keep {
      TrimmedStillAhead(rows, r, keep);
      if r == e {
        assert r.userId == e.userId;
      }
    }
  }

  function Run(entries: seq<Entry>, retentionLimit: int): set<Entry> {
    if entries == [] then {}
    else Inserted(Run(entries[..|entries| - 1], retentionLimit), entries[|entries| - 1], Limit(retentionLimit))
  }

  /** With a fixed limit, trimming at every insert leaves exactly what trimming once at the end
      would: for every user, the newest rows of all ever inserted, other users untouched. */
  lemma {:induction false} TrimmingStepwiseIsTrimmingOnce(entries: seq<Entry>, retentionLimit: int)
    ensures Run(entries, retentionLimit) == Newest(Elements(entries), Limit(retentionLimit))
  {
    if entries != [] {
      var front, e := entries[..|entries| - 1], entries[|entries| - 1];
      TrimmingStepwiseIsTrimmingOnce(front, retentionLimit);
      assert entries == front + [e];
      assert Elements(entries) == Elements(front) + {e};
      forall r
        ensures r in Run(entries, retentionLimit) <==> r in Newest(Elements(entries), Limit(retentionLimit))
      {
        SurvivesIff(Elements(front), e, Limit(retentionLimit), r);
      }
    }
  }

  /** The same user's rows created later, or at the same time under a later id. */
  function LaterRows(rows: set<Entry>, r: Entry): set<Entry> {
    set x | x in rows && x.userId == r.userId &&
      (x.createdAt > r.createdAt || (x.createdAt == r.createdAt && x.id > r.id))
  }

  /** After any inserts a row is left exactly when it was inserted and fewer later rows of its user were
      than the limit allows; a limit below one counts as one. */
  lemma LeftIff(entries: seq<Entry>, retentionLimit: int, r: Entry)
    ensures r in Run(entries, retentionLimit) <==>
      r in entries && (LaterRows(Elements(entries), r) == {} || |LaterRows(Elements(entries), r)| < retentionLimit)
  {
    TrimmingStepwiseIsTrimmingOnce(entries, retentionLimit);
    assert LaterRows(Elements(entries), r) == Ahead(Elements(entries), r);
  }

  // ------------------------------------------------------------------ how many rows

  function OfUser(rows: set<Entry>, userId: string): set<Entry> {
    set r | r in rows && r.userId == userId
  }

  /** With distinct ids a nonempty set of one user's rows has a newest one. */
  lemma HasNewest(rows: set<Entry>, userId: string) returns (top: Entry)
    requires OfUser(rows, userId) != {} && UniqueIds(rows)
    ensures top in OfUser(rows, userId) && Ahead(rows, top) == {}
  {
    top :| top in OfUser(rows, userId);
    while Ahead(rows, top) != {}
      invariant top in OfUser(rows, userId)
      decreases |Ahead(rows, top)|
    {
      var x :| x in Ahead(rows, top);
      AheadShrinks(rows, top, x);
      top := x;
    }
  }

  /** With distinct ids exactly min(keep, all) rows of each user are kept. */
  lemma {:induction false} KeptCount(rows: set<Entry>, userId: string, keep: nat)
    requires UniqueIds(rows)
    ensures |OfUser(Newest(rows, keep), userId)| ==
      if |OfUser(rows, userId)| < keep then |OfUser(rows, userId)| else keep
    decreases keep
  {
    if OfUser(rows, userId) == {} {
      assert OfUser(Newest(rows, keep), userId) == {};
    } else if keep == 0 {
      assert Newest(rows, 0) == {};
    } else {
      var top := HasNewest(rows, userId);
      var rest := rows - {top};
      KeptCount(rest, userId, keep - 1);
      TopIsKept(rows, userId, keep, top);
      SizeWithTop(OfUser(rows, userId), OfUser(rest, userId), top);
      SizeWithTop(OfUser(Newest(rows, keep), userId), OfUser(Newest(rest, keep - 1), userId), top);
    }
  }

  lemma SizeWithTop(all: set<Entry>, rest: set<Entry>, top: Entry)
    requires top !in rest && top in all && all - {top} == rest
    ensures |all| == |rest| + 1
  {
    assert all == rest + {top};
  }

  lemma AheadOfOthers(rows: set<Entry>, top: Entry, r: Entry)
    requires top in rows && r in rows && r != top && r.userId == top.userId
    requires UniqueIds(rows) && Ahead(rows, top) == {}
    ensures |Ahead(rows, r)| == |Ahead(rows - {top}, r)| + 1
  {
    assert r !in Ahead(rows, top);
    assert r.id != top.id;
    assert top in Ahead(rows, r);
    assert Ahead(rows, r) == Ahead(rows - {top}, r) + {top};
  }

  lemma TopIsKept(rows: set<Entry>, userId: string, keep: nat, top: Entry)
    requires UniqueIds(rows) && keep > 0
    requires top in OfUser(rows, userId) && Ahead(rows, top) == {}
    ensures top in OfUser(Newest(rows, keep), userId)
    ensures OfUser(Newest(rows, keep), userId) - {top} == OfUser(Newest(rows - {top}, keep - 1), userId)
    ensures OfUser(rows, userId) - {top} == OfUser(rows - {top}, userId)
  {
    forall r | r in OfUser(rows, userId) && r != top
      ensures r in Newest(rows, keep) <==> r in Newest(rows - {top}, keep - 1)
    {
      AheadOfOthers(rows, top, r);
    }
  }

  /** The row just inserted is trimmed at once exactly when the limit's worth of its user's rows
      are newer. */
  lemma InsertedRowSurvivesIff(rows: set<Entry>, e: Entry, keep: nat)
    ensures e in Inserted(rows, e, keep) <==> |Ahead(rows, e)| < keep
  {
    assert Ahead(rows + {e}, e) == Ahead(rows, e);
  }

  /** A limit of one, a stored row, and an insert with an earlier time: the new row goes at once. */
  lemma LateInsertIsTrimmed(user: string, body: string)
    ensures var stored, late := Entry(1, user, 20, body), Entry(2, user, 10, body);
      late !in Inserted({stored}, late, 1) && stored in Inserted({stored}, late, 1)
  {
    var stored, late := Entry(1, user, 20, body), Entry(2, user, 10, body);
    InsertedRowSurvivesIff({stored}, late, 1);
    assert Ahead({stored}, late) == {stored};
    assert Ahead({stored} + {late}, stored) == {};
  }
}
