/** Three copies merged in either grouping (chats.py, merge_history), when some entries are no
    records: what the groupings share, and exactly when they differ. */
module MergeGrouping {
  import opened Collections
  import opened ParentForest
  import opened Messages
  import opened HistoryMerge

  /** The third copy merged into the merge of the first two. */
  function LeftGrouped(a: Copy, b: Copy, c: Copy): Hist {
    Merged(CopyOf(Merged(a, b)), c)
  }

  /** The merge of the last two copies merged into the first. */
  function RightGrouped(a: Copy, b: Copy, c: Copy): Hist {
    Merged(a, CopyOf(Merged(b, c)))
  }

  // ------------------------------------------------------------------ which messages are kept

  /** `k` is a record in the first copy while the entry the other two leave for it is no record:
      merging from the left drops it, merging from the right keeps it. */
  ghost predicate Lost(a: Copy, b: Copy, c: Copy, k: Id) {
    k in Records(a) && k in Overlay(b, c).entries && Overlay(b, c).entries[k].NotARecord?
  }

  ghost predicate NothingLost(a: Copy, b: Copy, c: Copy) {
    forall k :: !Lost(a, b, c, k)
  }

  /** The records without their lists, after merging from the left and from the right. */
  lemma BareGrouped(a: Copy, b: Copy, c: Copy)
    ensures Bare(LeftGrouped(a, b, c)) ==
      (((Skeleton(a) - b.entries.Keys) + Skeleton(b)) - c.entries.Keys) + Skeleton(c)
    ensures Bare(RightGrouped(a, b, c)) ==
      (Skeleton(a) - (Skeleton(b) - c.entries.Keys + Skeleton(c)).Keys) + (Skeleton(b) - c.entries.Keys + Skeleton(c))
  {
    BareTwice(Merged(a, b));
    BareTwice(Merged(b, c));
    BareOfMerged(a, b);
    BareOfMerged(b, c);
    BareOfMerged(CopyOf(Merged(a, b)), c);
    BareOfMerged(a, CopyOf(Merged(b, c)));
  }

  lemma BareTwice(h: Hist)
    ensures Skeleton(CopyOf(h)) == Bare(h)
    ensures CopyOf(h).entries.Keys == Bare(h).Keys
  {
  }

  /** Overlays that drop shadowed ids, in either grouping. */
  lemma OverlaysAgreeIff(a: map<Id, Message>, bAll: set<Id>, b: map<Id, Message>, cAll: set<Id>, c: map<Id, Message>)
    requires b.Keys <= bAll && c.Keys <= cAll
    ensures var bc := (b - cAll) + c;
      (((a - bAll) + b) - cAll) + c == (a - bc.Keys) + bc <==> a.Keys * ((bAll + cAll) - bc.Keys) == {}
  {
    var bc := (b - cAll) + c;
    var left, right := (((a - bAll) + b) - cAll) + c, (a - bc.Keys) + bc;
    var lost := a.Keys * ((bAll + cAll) - bc.Keys);
    if lost != {} {
      var k :| k in lost;
      assert k in right && k !in left;
    } else {
      forall k
        ensures k in left <==> k in right
        ensures k in left ==> left[k] == right[k]
      {
        assert k !in lost;
      }
    }
  }

  lemma LostIds(a: Copy, b: Copy, c: Copy)
    ensures var bc := Skeleton(b) - c.entries.Keys + Skeleton(c);
      Skeleton(a).Keys * ((b.entries.Keys + c.entries.Keys) - bc.Keys) == {} <==> NothingLost(a, b, c)
  {
    var lost := Skeleton(a).Keys *
      ((b.entries.Keys + c.entries.Keys) - (Skeleton(b) - c.entries.Keys + Skeleton(c)).Keys);
    forall k
      ensures k in lost <==> Lost(a, b, c, k)
    {
    }
  }

  lemma BareGroupedIff(a: Copy, b: Copy, c: Copy)
    ensures Bare(LeftGrouped(a, b, c)) == Bare(RightGrouped(a, b, c)) <==> NothingLost(a, b, c)
  {
    BareGrouped(a, b, c);
    SkeletonKeys(b);
    SkeletonKeys(c);
    OverlaysAgreeIff(Skeleton(a), b.entries.Keys, Skeleton(b), c.entries.Keys, Skeleton(c));
    LostIds(a, b, c);
  }

  // ------------------------------------------------------------------ which order they come in

  /** `k` is a record in the third copy while the entry the first two leave for it is no record:
      merging from the left lists it anew, merging from the right where it stood. */
  ghost predicate Revived(a: Copy, b: Copy, c: Copy, k: Id) {
    k in Records(c) && k in Overlay(a, b).entries && Overlay(a, b).entries[k].NotARecord?
  }

  /** Records of the third copy, and those of the first two it does not shadow. */
  ghost predicate Kept(a: Copy, b: Copy, c: Copy, k: Id) {
    k in Records(c) || (k in Records(Overlay(a, b)) && k !in c.entries)
  }

  /** In the third copy every revived record stands before all the kept ids that merging from the
      right lists after it; these are revived themselves or new. */
  ghost predicate RevivedInPlace(a: Copy, b: Copy, c: Copy) {
    forall x, y :: !OutOfPlace(a, b, c, x, y)
  }

  ghost predicate OutOfPlace(a: Copy, b: Copy, c: Copy, x: Id, y: Id) {
    && Revived(a, b, c, x) && Kept(a, b, c, y)
    && (Before(Overlay(a, b).keys, x, y) || y !in Overlay(a, b).entries)
    && !(y !in Records(Overlay(a, b)) && Before(c.keys, x, y))
  }

  /** The order of a merge: that of the existing keys, then of the new incoming ones. */
  lemma MergedBefore(a: Copy, b: Copy, h: Hist, x: Id, y: Id)
    requires ValidCopy(a) && ValidCopy(b) && IsMerge(a, b, h)
    ensures Before(h.keys, x, y) <==>
      && x in h.messages && y in h.messages
      && (|| Before(a.keys, x, y)
          || (Before(b.keys, x, y) && x !in a.entries && y !in a.entries)
          || (x in a.entries && y in b.entries && y !in a.entries))
  {
    var more := Keep(b.keys, b.entries.Keys - a.entries.Keys);
    BeforeKeep(a.keys + more, h.messages.Keys, x, y);
    BeforeAppend(a.keys, more, x, y);
    BeforeKeep(b.keys, b.entries.Keys - a.entries.Keys, x, y);
    KeepMembers(b.keys, b.entries.Keys - a.entries.Keys);
    BeforeIn(b.keys, x, y);
  }

  lemma BeforeIn(s: seq<Id>, x: Id, y: Id)
    ensures Before(s, x, y) ==> x in s && y in s
  {
  }

  lemma OverlayBefore(a: Copy, b: Copy, x: Id, y: Id)
    requires ValidCopy(a) && ValidCopy(b)
    ensures Before(Overlay(a, b).keys, x, y) <==>
      || Before(a.keys, x, y)
      || (Before(b.keys, x, y) && x !in a.entries && y !in a.entries)
      || (x in a.entries && y in b.entries && y !in a.entries)
  {
    var more := Keep(b.keys, b.entries.Keys - a.entries.Keys);
    BeforeAppend(a.keys, more, x, y);
    BeforeKeep(b.keys, b.entries.Keys - a.entries.Keys, x, y);
    KeepMembers(b.keys, b.entries.Keys - a.entries.Keys);
    BeforeIn(b.keys, x, y);
  }

  /** The order from the left: the records of the first two copies, then the rest of the third. */
  lemma LeftBefore(a: Copy, b: Copy, c: Copy, x: Id, y: Id)
    requires ValidCopy(a) && ValidCopy(b) && ValidCopy(c)
    ensures var ab := Records(Overlay(a, b));
      Before(LeftGrouped(a, b, c).keys, x, y) <==>
        && x in LeftGrouped(a, b, c).messages && y in LeftGrouped(a, b, c).messages
        && (|| (Before(Overlay(a, b).keys, x, y) && x in ab && y in ab)
            || (Before(c.keys, x, y) && x !in ab && y !in ab)
            || (x in ab && y in c.entries && y !in ab))
  {
    var h := Merged(a, b);
    MergedIsMerge(a, b);
    CopyIsCopy(h);
    MergedIsMerge(CopyOf(h), c);
    MergedBefore(a, b, h, x, y);
    MergedBefore(CopyOf(h), c, LeftGrouped(a, b, c), x, y);
    OverlayBefore(a, b, x, y);
  }

  /** The order from the right: that of all three copies overlaid. */
  lemma RightBefore(a: Copy, b: Copy, c: Copy, x: Id, y: Id)
    requires ValidCopy(a) && ValidCopy(b) && ValidCopy(c)
    ensures var ab := Overlay(a, b);
      Before(RightGrouped(a, b, c).keys, x, y) <==>
        && x in RightGrouped(a, b, c).messages && y in RightGrouped(a, b, c).messages
        && (|| Before(ab.keys, x, y)
            || (Before(c.keys, x, y) && x !in ab.entries && y !in ab.entries)
            || (x in ab.entries && y in c.entries && y !in ab.entries))
  {
    var h := Merged(b, c);
    MergedIsMerge(b, c);
    CopyIsCopy(h);
    MergedIsMerge(a, CopyOf(h));
    MergedBefore(b, c, h, x, y);
    MergedBefore(a, CopyOf(h), RightGrouped(a, b, c), x, y);
    OverlayBefore(a, b, x, y);
    BeforeIn(a.keys, x, y);
    BeforeIn(b.keys, x, y);
    BeforeIn(c.keys, x, y);
  }

  lemma GroupedValid(a: Copy, b: Copy, c: Copy)
    requires ValidCopy(a) && ValidCopy(b) && ValidCopy(c)
    ensures IsMerge(CopyOf(Merged(a, b)), c, LeftGrouped(a, b, c))
    ensures IsMerge(a, CopyOf(Merged(b, c)), RightGrouped(a, b, c))
  {
    MergedIsMerge(a, b);
    MergedIsMerge(b, c);
    CopyIsCopy(Merged(a, b));
    CopyIsCopy(Merged(b, c));
    MergedIsMerge(CopyOf(Merged(a, b)), c);
    MergedIsMerge(a, CopyOf(Merged(b, c)));
  }

  lemma LeftKeeps(a: Copy, b: Copy, c: Copy, k: Id)
    ensures k in LeftGrouped(a, b, c).messages <==> Kept(a, b, c, k)
  {
  }

  /** The two orders differ in exactly the pairs that keep a revived record out of place. */
  lemma OrdersDiffer(a: Copy, b: Copy, c: Copy, x: Id, y: Id)
    requires ValidCopy(a) && ValidCopy(b) && ValidCopy(c)
    requires LeftGrouped(a, b, c).messages.Keys == RightGrouped(a, b, c).messages.Keys
    ensures (Before(RightGrouped(a, b, c).keys, x, y) && !Before(LeftGrouped(a, b, c).keys, x, y)) <==>
      OutOfPlace(a, b, c, x, y)
  {
    LeftBefore(a, b, c, x, y);
    RightBefore(a, b, c, x, y);
    LeftKeeps(a, b, c, x);
    LeftKeeps(a, b, c, y);
    assert Before(Overlay(a, b).keys, x, y) ==> x in Overlay(a, b).entries && y in Overlay(a, b).entries by {
      OverlayValid(a, b);
      BeforeIn(Overlay(a, b).keys, x, y);
    }
    assert Before(c.keys, x, y) ==> x in c.entries && y in c.entries by {
      BeforeIn(c.keys, x, y);
    }
  }

  /** When no message is lost, both groupings give the same order exactly when the revived records
      stand in the third copy as they stood before. */
  lemma OrderGroupedIff(a: Copy, b: Copy, c: Copy)
    requires ValidCopy(a) && ValidCopy(b) && ValidCopy(c) && NothingLost(a, b, c)
    ensures LeftGrouped(a, b, c).keys == RightGrouped(a, b, c).keys <==> RevivedInPlace(a, b, c)
  {
    GroupedSameKeys(a, b, c);
    forall x, y
      ensures (Before(RightGrouped(a, b, c).keys, x, y) && !Before(LeftGrouped(a, b, c).keys, x, y))
        <==> OutOfPlace(a, b, c, x, y)
    {
      OrdersDiffer(a, b, c, x, y);
    }
    PairsDecide(a, b, c, RightGrouped(a, b, c), LeftGrouped(a, b, c));
  }

  lemma GroupedSameKeys(a: Copy, b: Copy, c: Copy)
    requires ValidCopy(a) && ValidCopy(b) && ValidCopy(c) && NothingLost(a, b, c)
    ensures Valid(LeftGrouped(a, b, c)) && Valid(RightGrouped(a, b, c))
    ensures LeftGrouped(a, b, c).messages.Keys == RightGrouped(a, b, c).messages.Keys
  {
    GroupedValid(a, b, c);
    BareGroupedIff(a, b, c);
    BareKeys(LeftGrouped(a, b, c));
    BareKeys(RightGrouped(a, b, c));
  }

  lemma PairsDecide(a: Copy, b: Copy, c: Copy, h: Hist, g: Hist)
    requires Valid(h) && Valid(g) && h.messages.Keys == g.messages.Keys
    requires forall x, y :: (Before(h.keys, x, y) && !Before(g.keys, x, y)) <==> OutOfPlace(a, b, c, x, y)
    ensures g.keys == h.keys <==> RevivedInPlace(a, b, c)
  {
    if RevivedInPlace(a, b, c) {
      forall x, y | Before(h.keys, x, y)
        ensures Before(g.keys, x, y)
      {
        assert !OutOfPlace(a, b, c, x, y);
      }
      SameOrder(h.keys, g.keys);
    } else {
      var x, y :| OutOfPlace(a, b, c, x, y);
    }
  }

  // ------------------------------------------------------------------ associativity

  /** Both groupings agree up to the order of keys and of children lists exactly when no message is
      lost; they agree altogether exactly when, besides, the revived records are in place. */
  lemma MergeAssociativeIff(a: Copy, b: Copy, c: Copy)
    requires ValidCopy(a) && ValidCopy(b) && ValidCopy(c)
    ensures var left, right := LeftGrouped(a, b, c), RightGrouped(a, b, c);
      && (SameUpToOrder(left, right) <==> NothingLost(a, b, c))
      && (left.keys == right.keys && left.messages == right.messages <==>
        NothingLost(a, b, c) && RevivedInPlace(a, b, c))
  {
    var left, right := LeftGrouped(a, b, c), RightGrouped(a, b, c);
    GroupedValid(a, b, c);
    BareGroupedIff(a, b, c);
    SameUpToOrderIff(left, right);
    if Bare(left) == Bare(right) {
      OrderGroupedIff(a, b, c);
      if left.keys == right.keys {
        ListingUnique(left, right);
      }
    }
  }

  /** The same ids, the same messages but for their lists, and lists of the same members. */
  ghost predicate SameUpToOrder(x: Hist, y: Hist) {
    && x.messages.Keys == y.messages.Keys
    && forall k {:trigger x.messages[k]} :: k in x.messages ==>
      && Unlisted(x.messages[k]) == Unlisted(y.messages[k])
      && multiset(Children(x.messages[k])) == multiset(Children(y.messages[k]))
  }

  lemma SameUpToOrderIff(x: Hist, y: Hist)
    requires TwoSided(x.messages) && TwoSided(y.messages)
    ensures SameUpToOrder(x, y) <==> Bare(x) == Bare(y)
    ensures x.messages == y.messages ==> Bare(x) == Bare(y)
  {
    if Bare(x) == Bare(y) {
      SameBareSameLinks(x, y);
    }
  }

  /** A record the second copy shadows by a non-record: merging from the left drops it, merging
      from the right keeps it. */
  lemma GroupingLosesMessage(k: Id, m: Message)
    ensures var a, b, c := Copy([k], map[k := Record(m)], None), Copy([k], map[k := NotARecord], None),
        Copy([], map[], None);
      k !in LeftGrouped(a, b, c).messages && k in RightGrouped(a, b, c).messages
  {
    var a, b, c := Copy([k], map[k := Record(m)], None), Copy([k], map[k := NotARecord], None),
      Copy([], map[], None);
    LeftKeeps(a, b, c, k);
    assert Merged(b, c).messages.Keys == {};
    assert k in Records(Overlay(a, CopyOf(Merged(b, c))));
  }

  /** No message lost, and yet another order: the second copy holds `k` as a non-record before the
      record `j`, the third both as records, `j` first. */
  lemma GroupingReorders(j: Id, k: Id, m: Message, n: Message)
    requires j != k
    ensures var a, b, c := Copy([], map[], None), Copy([k, j], map[k := NotARecord, j := Record(n)], None),
        Copy([j, k], map[j := Record(n), k := Record(m)], None);
      && SameUpToOrder(LeftGrouped(a, b, c), RightGrouped(a, b, c))
      && LeftGrouped(a, b, c).keys != RightGrouped(a, b, c).keys
      && Before(LeftGrouped(a, b, c).keys, j, k) && Before(RightGrouped(a, b, c).keys, k, j)
  {
    var a, b, c := Copy([], map[], None), Copy([k, j], map[k := NotARecord, j := Record(n)], None),
      Copy([j, k], map[j := Record(n), k := Record(m)], None);
    assert b.keys[0] == k && b.keys[1] == j && c.keys[0] == j && c.keys[1] == k;
    ShadowedPairReorders(a, b, c, j, k);
  }

  lemma ShadowedPairReorders(a: Copy, b: Copy, c: Copy, j: Id, k: Id)
    requires ValidCopy(a) && ValidCopy(b) && ValidCopy(c) && a.entries == map[]
    requires k in b.entries && b.entries[k].NotARecord? && j in Records(b)
    requires j in Records(c) && k in Records(c)
    requires Before(b.keys, k, j) && Before(c.keys, j, k)
    ensures SameUpToOrder(LeftGrouped(a, b, c), RightGrouped(a, b, c))
    ensures LeftGrouped(a, b, c).keys != RightGrouped(a, b, c).keys
    ensures Before(LeftGrouped(a, b, c).keys, j, k) && Before(RightGrouped(a, b, c).keys, k, j)
  {
    assert NothingLost(a, b, c);
    OverlayBefore(a, b, k, j);
    assert OutOfPlace(a, b, c, k, j);
    MergeAssociativeIff(a, b, c);
    OrdersDiffer(a, b, c, k, j);
    LeftKeeps(a, b, c, k);
    LeftKeeps(a, b, c, j);
    LeftBefore(a, b, c, j, k);
  }

  // ------------------------------------------------------------------ the current id

  /** What decides whether the grouping of three copies of records matters to the current id: each
      copy's current id, and which copies hold it. */
  predicate SameChoice(p: Option<Id>, q: Option<Id>, r: Option<Id>, a: set<Id>, b: set<Id>, c: set<Id>) {
    if Holds(b + c, r) then true
    else if Holds(a, r) then !Holds(b + c, q) && p == r
    else if Holds(b, q) then true
    else if Holds(a, q) then Holds(c, q) || p == q
    else if Holds(c, q) then false
    else !Holds(c - a - b, p)
  }

  lemma ChoiceGroupedIff(p: Option<Id>, q: Option<Id>, r: Option<Id>, a: set<Id>, b: set<Id>, c: set<Id>)
    ensures Pointer(Pointer(p, q, a + b), r, (a + b) + c) == Pointer(p, Pointer(q, r, b + c), a + (b + c)) <==>
      SameChoice(p, q, r, a, b, c)
  {
  }

  /** Copies of records merged in either grouping end on the same current id exactly when the copies
      that hold each one's current id say so. They do when every copy holds its own current id or
      has none. */
  lemma CurrentIdGroupedIff(a: Copy, b: Copy, c: Copy)
    requires ValidCopy(a) && ValidCopy(b) && ValidCopy(c)
    requires AllRecords(a) && AllRecords(b) && AllRecords(c)
    ensures LeftGrouped(a, b, c).currentId == RightGrouped(a, b, c).currentId <==>
      SameChoice(a.currentId, b.currentId, c.currentId, a.entries.Keys, b.entries.Keys, c.entries.Keys)
    ensures OwnCurrentId(a) && OwnCurrentId(b) && OwnCurrentId(c) ==>
      SameChoice(a.currentId, b.currentId, c.currentId, a.entries.Keys, b.entries.Keys, c.entries.Keys)
  {
    LeftChoice(a, b, c);
    RightChoice(a, b, c);
    ChoiceGroupedIff(a.currentId, b.currentId, c.currentId, a.entries.Keys, b.entries.Keys, c.entries.Keys);
  }

  predicate OwnCurrentId(c: Copy) {
    c.currentId.Some? ==> c.currentId.value in c.entries
  }

  lemma LeftChoice(a: Copy, b: Copy, c: Copy)
    requires ValidCopy(a) && ValidCopy(b) && ValidCopy(c)
    requires AllRecords(a) && AllRecords(b) && AllRecords(c)
    ensures var (x, y, z) := (a.entries.Keys, b.entries.Keys, c.entries.Keys);
      LeftGrouped(a, b, c).currentId == Pointer(Pointer(a.currentId, b.currentId, x + y), c.currentId, (x + y) + z)
  {
    CurrentIdOfRecords(a, b);
    CurrentIdOfRecords(CopyOf(Merged(a, b)), c);
  }

  lemma RightChoice(a: Copy, b: Copy, c: Copy)
    requires ValidCopy(a) && ValidCopy(b) && ValidCopy(c)
    requires AllRecords(a) && AllRecords(b) && AllRecords(c)
    ensures var (x, y, z) := (a.entries.Keys, b.entries.Keys, c.entries.Keys);
      RightGrouped(a, b, c).currentId == Pointer(a.currentId, Pointer(b.currentId, c.currentId, y + z), x + (y + z))
  {
    CurrentIdOfRecords(b, c);
    CurrentIdOfRecords(a, CopyOf(Merged(b, c)));
  }

  /** A current id that only the first copy holds: the third names it, the second its own. */
  lemma GroupingMovesCurrentId(j: Id, k: Id, m: Message, n: Message)
    requires j != k
    ensures var a, b, c := Copy([j], map[j := Record(m)], None), Copy([k], map[k := Record(n)], Some(k)),
        Copy([], map[], Some(j));
      LeftGrouped(a, b, c).currentId == Some(j) && RightGrouped(a, b, c).currentId == Some(k)
  {
    var a, b, c := Copy([j], map[j := Record(m)], None), Copy([k], map[k := Record(n)], Some(k)),
      Copy([], map[], Some(j));
    LeftChoice(a, b, c);
    RightChoice(a, b, c);
  }

  lemma CurrentIdOfRecords(a: Copy, b: Copy)
    requires ValidCopy(a) && ValidCopy(b) && AllRecords(a) && AllRecords(b)
    ensures Merged(a, b).currentId == Pointer(a.currentId, b.currentId, a.entries.Keys + b.entries.Keys)
    ensures var copy := CopyOf(Merged(a, b));
      && ValidCopy(copy) && AllRecords(copy)
      && copy.entries.Keys == a.entries.Keys + b.entries.Keys
      && copy.currentId == Merged(a, b).currentId
  {
    var h := MergeRecords(a, b);
    CopyIsCopy(h);
  }
}
