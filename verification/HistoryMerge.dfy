/** Merging a writer's copy of a history into the stored one (chats.py, merge_history). */
module HistoryMerge {
  import opened Collections
  import opened ParentForest
  import opened Messages

  /** A dictionary entry as read from JSON: only records survive a merge. */
  datatype Entry = Record(message: Message) | NotARecord

  /** One side of a merge. A missing side reads as the empty copy. */
  datatype Copy = Copy(keys: seq<Id>, entries: map<Id, Entry>, currentId: Option<Id>)

  ghost predicate ValidCopy(c: Copy) {
    && Distinct(c.keys)
    && forall k :: k in c.keys <==> k in c.entries
  }

  /** A history handed back to a later merge. */
  function CopyOf(h: Hist): Copy {
    Copy(h.keys, map k | k in h.messages :: Record(h.messages[k]), h.currentId)
  }

  /** `{**existing, **incoming}`: the incoming value wins, keys keep their first position. */
  function Overlay(existing: Copy, incoming: Copy): Copy {
    Copy(
      existing.keys + Keep(incoming.keys, incoming.entries.Keys - existing.entries.Keys),
      existing.entries + incoming.entries,
      None)
  }

  function Records(c: Copy): set<Id> {
    set k | k in c.entries && c.entries[k].Record?
  }

  /** The listed ids whose record names `p` as parent. */
  function Naming(c: Copy, p: Id): set<Id> {
    set k | k in Records(c) && ParentOf(c.entries[k].message) == Some(p)
  }

  /** The records of `c`, every children list rebuilt from the parent links, in key order. */
  function Rebuilt(c: Copy): map<Id, Message> {
    var keys := Keep(c.keys, Records(c));
    map k | k in Records(c) :: WithChildren(c.entries[k].message, Keep(keys, Naming(c, k)))
  }

  predicate Holds(ids: set<Id>, o: Option<Id>) {
    o.Some? && o.value in ids
  }

  /** The incoming current id if the merge holds it, else the existing one if it holds that. */
  function Pointer(existing: Option<Id>, incoming: Option<Id>, ids: set<Id>): Option<Id> {
    if Holds(ids, incoming) then incoming else if Holds(ids, existing) then existing else None
  }

  /** The merged history. */
  function Merged(existing: Copy, incoming: Copy): Hist {
    var all := Overlay(existing, incoming);
    Hist(
      Keep(all.keys, Records(all)),
      Rebuilt(all),
      Pointer(existing.currentId, incoming.currentId, Records(all)))
  }

  /** The cleared records, each listing those of `keys` that name it. */
  function Listed(cleared: map<Id, Message>, keys: seq<Id>, all: Copy): map<Id, Message> {
    map k | k in cleared :: WithChildren(cleared[k], Keep(keys, Naming(all, k)))
  }

  /** One more key appends it to the list of the record it names, if that exists. */
  lemma ListedStep(cleared: map<Id, Message>, keys: seq<Id>, i: nat, all: Copy)
    requires i < |keys| && keys[i] in Records(all)
    ensures var now, parent := Listed(cleared, keys[..i], all), ParentOf(all.entries[keys[i]].message);
      Listed(cleared, keys[..i + 1], all) ==
        if parent.Some? && parent.value in cleared
        then now[parent.value := WithChildren(now[parent.value], Children(now[parent.value]) + [keys[i]])]
        else now
  {
    var now, next := Listed(cleared, keys[..i], all), Listed(cleared, keys[..i + 1], all);
    var parent := ParentOf(all.entries[keys[i]].message);
    forall k | k in cleared
      ensures next[k] == if parent == Some(k) then WithChildren(now[k], Children(now[k]) + [keys[i]]) else now[k]
    {
      KeepStep(keys, i, Naming(all, k));
      assert keys[i] in Naming(all, k) <==> parent == Some(k);
      assert Keep(keys[..i], Naming(all, k)) + [] == Keep(keys[..i], Naming(all, k));
    }
  }

  lemma ListedAllIsRebuilt(cleared: map<Id, Message>, keys: seq<Id>, all: Copy)
    requires keys == Keep(all.keys, Records(all))
    requires cleared == map k | k in Records(all) :: WithChildren(all.entries[k].message, [])
    ensures Listed(cleared, keys, all) == Rebuilt(all)
  {
    forall k | k in cleared
      ensures Listed(cleared, keys, all)[k] == Rebuilt(all)[k]
    {
      UnlistedDetermines(cleared[k], all.entries[k].message, Keep(keys, Naming(all, k)));
    }
  }

  /** The loops of the source: overlay, drop non-records and clear children lists, then append
      every message to its parent's list. */
  method MergeHistory(existing: Copy, incoming: Copy) returns (h: Hist)
    requires ValidCopy(existing) && ValidCopy(incoming)
    ensures h == Merged(existing, incoming)
  {
    var all := Overlaid(existing, incoming);
    OverlayValid(existing, incoming);
    var keys, cleared := ClearedRecords(all);
    var merged := LinkChildren(keys, cleared, all);
    ListedAllIsRebuilt(cleared, keys, all);
    var currentId := incoming.currentId;
    if currentId.None? || currentId.value !in merged {
      currentId := existing.currentId;
      if currentId.None? || currentId.value !in merged {
        currentId := None;
      }
    }
    h := Hist(keys, merged, currentId);
  }

  method LinkChildren(keys: seq<Id>, cleared: map<Id, Message>, ghost all: Copy) returns (merged: map<Id, Message>)
    requires forall k :: k in keys ==> k in Records(all)
    requires cleared == map k | k in Records(all) :: WithChildren(all.entries[k].message, [])
    ensures merged == Listed(cleared, keys, all)
  {
    merged := cleared;
    assert Listed(cleared, keys[..0], all) == cleared;
    for i := 0 to |keys|
      invariant merged == Listed(cleared, keys[..i], all)
    {
      var messageId := keys[i];
      assert messageId in keys;
      ListedStep(cleared, keys, i, all);
      var parent := ParentOf(merged[messageId]);
      if parent.Some? && parent.value in merged {
        var p := merged[parent.value];
        merged := merged[parent.value := WithChildren(p, Children(p) + [messageId])];
      }
    }
    assert keys[..|keys|] == keys;
  }

  function RestrictedEntries(m: map<Id, Entry>, ids: set<Id>): map<Id, Entry> {
    map k | k in m && k in ids :: m[k]
  }

  lemma RestrictedStep(a: map<Id, Entry>, b: map<Id, Entry>, ids: set<Id>, k: Id)
    requires k in b
    ensures k !in ids ==> (k in a + RestrictedEntries(b, ids) <==> k in a)
    ensures (a + RestrictedEntries(b, ids))[k := b[k]] == a + RestrictedEntries(b, ids + {k})
  {
  }

  lemma RestrictedAll(m: map<Id, Entry>)
    ensures RestrictedEntries(m, m.Keys) == m
  {
  }

  /** The overlay of the first `i` incoming entries. */
  function OverlayPrefix(existing: Copy, incoming: Copy, i: nat): Copy
    requires i <= |incoming.keys|
  {
    Copy(
      existing.keys + Keep(incoming.keys[..i], incoming.entries.Keys - existing.entries.Keys),
      existing.entries + RestrictedEntries(incoming.entries, Elements(incoming.keys[..i])),
      None)
  }

  lemma AppendKeepStep(base: seq<Id>, s: seq<Id>, i: nat, wanted: set<Id>)
    requires i < |s|
    ensures base + Keep(s[..i + 1], wanted) ==
      if s[i] in wanted then base + Keep(s[..i], wanted) + [s[i]] else base + Keep(s[..i], wanted)
  {
    KeepStep(s, i, wanted);
  }

  lemma OverlayPrefixStep(existing: Copy, incoming: Copy, i: nat)
    requires ValidCopy(incoming) && i < |incoming.keys|
    ensures var now, k := OverlayPrefix(existing, incoming, i), incoming.keys[i];
      && k in incoming.entries
      && OverlayPrefix(existing, incoming, i + 1) == Copy(
        if k in now.entries then now.keys else now.keys + [k],
        now.entries[k := incoming.entries[k]],
        None)
  {
    assert incoming.keys[i] in incoming.keys;
    AppendKeepStep(existing.keys, incoming.keys, i, incoming.entries.Keys - existing.entries.Keys);
    PrefixStep(incoming.keys, i);
    RestrictedStep(existing.entries, incoming.entries, Elements(incoming.keys[..i]), incoming.keys[i]);
  }

  lemma OverlayPrefixEnds(existing: Copy, incoming: Copy)
    requires ValidCopy(incoming)
    ensures OverlayPrefix(existing, incoming, 0) == Copy(existing.keys, existing.entries, None)
    ensures OverlayPrefix(existing, incoming, |incoming.keys|) == Overlay(existing, incoming)
  {
    assert incoming.keys[..|incoming.keys|] == incoming.keys;
    assert Elements(incoming.keys) == incoming.entries.Keys;
    RestrictedAll(incoming.entries);
    assert existing.entries + RestrictedEntries(incoming.entries, {}) == existing.entries;
  }

  method Overlaid(existing: Copy, incoming: Copy) returns (all: Copy)
    requires ValidCopy(existing) && ValidCopy(incoming)
    ensures all == Overlay(existing, incoming)
  {
    var keys, entries := existing.keys, existing.entries;
    OverlayPrefixEnds(existing, incoming);
    for i := 0 to |incoming.keys|
      invariant Copy(keys, entries, None) == OverlayPrefix(existing, incoming, i)
    {
      var k := incoming.keys[i];
      OverlayPrefixStep(existing, incoming, i);
      if k !in entries {
        keys := keys + [k];
      }
      entries := entries[k := incoming.entries[k]];
    }
    all := Copy(keys, entries, None);
  }

  /** The records among `ids`, their children lists cleared. */
  function Cleared(all: Copy, ids: set<Id>): map<Id, Message> {
    map k | k in Records(all) && k in ids :: WithChildren(all.entries[k].message, [])
  }

  lemma ClearedStep(all: Copy, ids: set<Id>, k: Id)
    requires k in all.entries
    ensures Cleared(all, ids + {k}) ==
      if all.entries[k].Record? then Cleared(all, ids)[k := WithChildren(all.entries[k].message, [])]
      else Cleared(all, ids)
  {
  }

  method ClearedRecords(all: Copy) returns (keys: seq<Id>, cleared: map<Id, Message>)
    requires ValidCopy(all)
    ensures keys == Keep(all.keys, Records(all))
    ensures cleared == map k | k in Records(all) :: WithChildren(all.entries[k].message, [])
    ensures forall k :: k in keys ==> k in Records(all)
  {
    keys, cleared := [], map[];
    for i := 0 to |all.keys|
      invariant keys == Keep(all.keys[..i], Records(all))
      invariant cleared == Cleared(all, Elements(all.keys[..i]))
    {
      var k := all.keys[i];
      assert k in all.keys;
      KeepStep(all.keys, i, Records(all));
      PrefixStep(all.keys, i);
      ClearedStep(all, Elements(all.keys[..i]), k);
      if all.entries[k].Record? {
        keys := keys + [k];
        cleared := cleared[k := WithChildren(all.entries[k].message, [])];
      }
    }
    assert all.keys[..|all.keys|] == all.keys;
    assert Elements(all.keys) == all.entries.Keys;
    KeepMembers(all.keys, Records(all));
  }

  // ------------------------------------------------------------------ any two inputs

  lemma OverlayValid(existing: Copy, incoming: Copy)
    requires ValidCopy(existing) && ValidCopy(incoming)
    ensures ValidCopy(Overlay(existing, incoming))
  {
    var unseen := incoming.entries.Keys - existing.entries.Keys;
    KeepMembers(incoming.keys, unseen);
    KeepDistinct(incoming.keys, unseen);
    DistinctAppend(existing.keys, Keep(incoming.keys, unseen));
  }

  /** Every message has a children list, in insertion order. */
  ghost predicate ListsInOrder(h: Hist) {
    forall p {:trigger h.messages[p]} :: p in h.messages ==>
      && h.messages[p].childrenIds.Is?
      && Children(h.messages[p]) == Keep(h.keys, Elements(Children(h.messages[p])))
  }

  /** Whatever the inputs (cyclic, dangling or stale links, non-records): the result is a well
      formed dictionary, each message is listed exactly once under its parent and nowhere else,
      lists follow insertion order, and the current id names a message or nothing, preferring the
      incoming one. */
  lemma MergeRebuildsLinks(existing: Copy, incoming: Copy)
    requires ValidCopy(existing) && ValidCopy(incoming)
    ensures var h := Merged(existing, incoming);
      && Valid(h) && TwoSided(h.messages) && ListsInOrder(h)
      && (h.currentId.Some? ==> h.currentId.value in h.messages)
      && (h.currentId.None? <==>
        && (incoming.currentId.Some? ==> incoming.currentId.value !in h.messages)
        && (existing.currentId.Some? ==> existing.currentId.value !in h.messages))
      && (incoming.currentId.Some? && incoming.currentId.value in h.messages ==> h.currentId == incoming.currentId)
  {
    OverlayValid(existing, incoming);
    RebuiltIsConsistent(Overlay(existing, incoming), Merged(existing, incoming));
  }

  lemma RebuiltIsConsistent(all: Copy, h: Hist)
    requires ValidCopy(all) && h.keys == Keep(all.keys, Records(all)) && h.messages == Rebuilt(all)
    ensures Valid(h) && TwoSided(h.messages) && ListsInOrder(h)
  {
    KeepMembers(all.keys, Records(all));
    KeepDistinct(all.keys, Records(all));
    forall p | p in h.messages
      ensures Distinct(Children(h.messages[p]))
      ensures forall c :: c in Children(h.messages[p]) <==> c in h.messages && ParentOf(h.messages[c]) == Some(p)
      ensures Children(h.messages[p]) == Keep(h.keys, Elements(Children(h.messages[p])))
    {
      KeepMembers(h.keys, Naming(all, p));
      KeepDistinct(h.keys, Naming(all, p));
      KeepAgree(h.keys, Naming(all, p), Elements(Children(h.messages[p])));
    }
  }

  /** The records of a copy without their children lists: all a merge reads of them. */
  function Skeleton(c: Copy): map<Id, Message> {
    map k | k in Records(c) :: Unlisted(c.entries[k].message)
  }

  function Bare(h: Hist): map<Id, Message> {
    map k | k in h.messages :: Unlisted(h.messages[k])
  }

  /** What a merge is, without saying how it is computed: a consistent listing of the records of
      either side, the incoming side winning, in first-seen order. */
  ghost predicate IsMerge(a: Copy, b: Copy, h: Hist) {
    && Valid(h) && TwoSided(h.messages) && ListsInOrder(h)
    && Bare(h) == (Skeleton(a) - b.entries.Keys) + Skeleton(b)
    && h.keys == Keep(a.keys + Keep(b.keys, b.entries.Keys - a.entries.Keys), h.messages.Keys)
    && h.currentId == Pointer(a.currentId, b.currentId, h.messages.Keys)
  }

  lemma BareOfMerged(a: Copy, b: Copy)
    ensures Bare(Merged(a, b)) == (Skeleton(a) - b.entries.Keys) + Skeleton(b)
  {
    SkeletonOfOverlay(a, b);
    BareOfRebuilt(Overlay(a, b), Merged(a, b));
  }

  lemma SkeletonOfOverlay(a: Copy, b: Copy)
    ensures Skeleton(Overlay(a, b)) == (Skeleton(a) - b.entries.Keys) + Skeleton(b)
  {
  }

  lemma BareOfRebuilt(c: Copy, h: Hist)
    requires h.messages == Rebuilt(c)
    ensures Bare(h) == Skeleton(c)
  {
    forall k | k in Records(c)
      ensures Unlisted(h.messages[k]) == Unlisted(c.entries[k].message)
    {
    }
  }

  lemma MergedIsMerge(a: Copy, b: Copy)
    requires ValidCopy(a) && ValidCopy(b)
    ensures IsMerge(a, b, Merged(a, b))
  {
    MergeRebuildsLinks(a, b);
    BareOfMerged(a, b);
    MergedOrder(a, b);
  }

  lemma MergedOrder(a: Copy, b: Copy)
    ensures var h := Merged(a, b);
      && h.keys == Keep(a.keys + Keep(b.keys, b.entries.Keys - a.entries.Keys), h.messages.Keys)
      && h.currentId == Pointer(a.currentId, b.currentId, h.messages.Keys)
  {
    assert Merged(a, b).messages.Keys == Records(Overlay(a, b));
  }

  /** The merged ids, and the side each message's content comes from: the key set is the union
      of both sides, less the ids whose winning entry is no record; the incoming side wins. */
  lemma MergeIsIncomingBiased(existing: Copy, incoming: Copy)
    ensures var h := Merged(existing, incoming);
      && h.messages.Keys == Records(incoming) + (Records(existing) - incoming.entries.Keys)
      && (forall k :: k in Records(incoming) ==> Unlisted(h.messages[k]) == Unlisted(incoming.entries[k].message))
      && (forall k :: k in Records(existing) && k !in incoming.entries ==>
        Unlisted(h.messages[k]) == Unlisted(existing.entries[k].message))
    ensures AllRecords(existing) && AllRecords(incoming) ==>
      Merged(existing, incoming).messages.Keys == existing.entries.Keys + incoming.entries.Keys
  {
  }

  ghost predicate AllRecords(c: Copy) {
    Records(c) == c.entries.Keys
  }

  // ------------------------------------------------------------------ algebra

  /** Consistent listings are determined by their key order and bare messages. */
  lemma ListingUnique(x: Hist, y: Hist)
    requires TwoSided(x.messages) && TwoSided(y.messages) && ListsInOrder(x) && ListsInOrder(y)
    requires x.keys == y.keys && Bare(x) == Bare(y)
    ensures x.messages == y.messages
  {
    SameBareSameLinks(x, y);
    forall k | k in x.messages
      ensures x.messages[k] == y.messages[k]
    {
      assert Elements(Children(x.messages[k])) == Elements(Children(y.messages[k]));
      UnlistedDetermines(x.messages[k], y.messages[k], Children(x.messages[k]));
    }
  }

  /** Both directions of the characterisation: a history is the merge exactly when it is one. */
  lemma MergeCharacterised(a: Copy, b: Copy, h: Hist)
    requires ValidCopy(a) && ValidCopy(b)
    ensures IsMerge(a, b, h) <==> h == Merged(a, b)
  {
    MergedIsMerge(a, b);
    if IsMerge(a, b, h) {
      SameMerge(a, b, h, Merged(a, b));
    }
  }

  lemma SameMerge(a: Copy, b: Copy, h: Hist, h': Hist)
    requires IsMerge(a, b, h) && IsMerge(a, b, h')
    ensures h == h'
  {
    assert h.messages.Keys == Bare(h).Keys == Bare(h').Keys == h'.messages.Keys;
    ListingUnique(h, h');
  }

  /** `c` is `h`, handed to a later merge. */
  ghost predicate IsCopy(h: Hist, c: Copy) {
    && c.keys == h.keys && c.currentId == h.currentId
    && c.entries.Keys == h.messages.Keys && AllRecords(c)
    && Skeleton(c) == Bare(h)
  }

  lemma CopyIsCopy(h: Hist)
    requires Valid(h)
    ensures IsCopy(h, CopyOf(h)) && ValidCopy(CopyOf(h))
  {
  }

  /** Applying the same incoming copy a second time changes nothing. */
  lemma MergeAgainIsIdentity(existing: Copy, incoming: Copy)
    requires ValidCopy(existing) && ValidCopy(incoming)
    ensures Merged(CopyOf(Merged(existing, incoming)), incoming) == Merged(existing, incoming)
  {
    var h := Merged(existing, incoming);
    MergedIsMerge(existing, incoming);
    CopyIsCopy(h);
    MergeAgain(existing, incoming, h, CopyOf(h));
    MergeCharacterised(CopyOf(h), incoming, h);
  }

  lemma MergeAgain(existing: Copy, incoming: Copy, h: Hist, c: Copy)
    requires IsMerge(existing, incoming, h) && IsCopy(h, c)
    ensures IsMerge(c, incoming, h)
  {
    SkeletonKeys(incoming);
    MapOverlayAgain(Skeleton(existing), Skeleton(incoming), incoming.entries.Keys);
    KeptTwiceThenOther(existing.keys + Keep(incoming.keys, incoming.entries.Keys - existing.entries.Keys),
      incoming.keys, h.messages.Keys, incoming.entries.Keys - h.messages.Keys);
  }

  lemma KeptTwiceThenOther(keys: seq<Id>, more: seq<Id>, kept: set<Id>, other: set<Id>)
    requires kept !! other
    ensures Keep(Keep(keys, kept) + Keep(more, other), kept) == Keep(keys, kept)
  {
    KeepAppend(Keep(keys, kept), Keep(more, other), kept);
    KeepMembers(keys, kept);
    KeepAll(Keep(keys, kept), kept);
    KeepMembers(more, other);
    KeepNone(Keep(more, other), kept);
  }

  /** Merging a history produced by a merge with itself changes nothing. */
  lemma MergeIdempotent(existing: Copy, incoming: Copy)
    requires ValidCopy(existing) && ValidCopy(incoming)
    ensures var h := Merged(existing, incoming); Merged(CopyOf(h), CopyOf(h)) == h
  {
    var h := Merged(existing, incoming);
    MergedIsMerge(existing, incoming);
    CopyIsCopy(h);
    MergeSelf(existing, incoming, h, CopyOf(h));
    MergeCharacterised(CopyOf(h), CopyOf(h), h);
  }

  lemma MergeSelf(existing: Copy, incoming: Copy, h: Hist, c: Copy)
    requires IsMerge(existing, incoming, h) && IsCopy(h, c)
    ensures IsMerge(c, c, h)
  {
    assert (Skeleton(c) - c.entries.Keys) + Skeleton(c) == Skeleton(c);
    KeptTwiceThenOther(existing.keys + Keep(incoming.keys, incoming.entries.Keys - existing.entries.Keys),
      c.keys, h.messages.Keys, c.entries.Keys - c.entries.Keys);
  }

  /** The key order of a threefold merge does not depend on the grouping. */
  lemma OverlayKeysAssociative(ak: seq<Id>, bk: seq<Id>, ck: seq<Id>, a: set<Id>, b: set<Id>, c: set<Id>)
    requires (forall x :: x in bk <==> x in b) && (forall x :: x in ck <==> x in c)
    ensures (ak + Keep(bk, b - a)) + Keep(ck, c - (a + b)) == ak + Keep(bk + Keep(ck, c - b), (b + c) - a)
  {
    KeepAppend(bk, Keep(ck, c - b), (b + c) - a);
    KeepTwice(ck, c - b, (b + c) - a);
    KeepAgree(ck, (c - b) * ((b + c) - a), c - (a + b));
    KeepAgree(bk, b - a, (b + c) - a);
    assert (ak + Keep(bk, b - a)) + Keep(ck, c - (a + b)) == ak + (Keep(bk, b - a) + Keep(ck, c - (a + b)));
  }

  /** Merging records only: the incoming keys not stored yet are appended, and the skeletons are
      overlaid. */
  ghost predicate Appends(a: Copy, b: Copy, h: Hist) {
    && h.messages.Keys == a.entries.Keys + b.entries.Keys
    && h.keys == a.keys + Keep(b.keys, b.entries.Keys - a.entries.Keys)
    && Bare(h) == Skeleton(a) + Skeleton(b)
  }

  lemma SkeletonKeys(c: Copy)
    ensures Skeleton(c).Keys == Records(c) <= c.entries.Keys
  {
  }

  lemma BareKeys(h: Hist)
    ensures Bare(h).Keys == h.messages.Keys
  {
  }

  lemma MapOverlayDropped(m: map<Id, Message>, n: map<Id, Message>, ids: set<Id>)
    requires n.Keys == ids
    ensures (m - ids) + n == m + n
  {
  }

  lemma MapOverlayAgain(m: map<Id, Message>, n: map<Id, Message>, ids: set<Id>)
    ensures (((m - ids) + n) - ids) + n == (m - ids) + n
  {
  }

  lemma MergeOfRecords(a: Copy, b: Copy, h: Hist)
    requires ValidCopy(a) && ValidCopy(b) && AllRecords(a) && AllRecords(b)
    requires IsMerge(a, b, h)
    ensures Appends(a, b, h)
  {
    SkeletonKeys(a);
    SkeletonKeys(b);
    BareKeys(h);
    MapOverlayDropped(Skeleton(a), Skeleton(b), b.entries.Keys);
    KeepMembers(b.keys, b.entries.Keys - a.entries.Keys);
    KeepAll(a.keys + Keep(b.keys, b.entries.Keys - a.entries.Keys), h.messages.Keys);
  }

  lemma AppendsAssociative(a: Copy, b: Copy, c: Copy, ab: Copy, bc: Copy, hab: Hist, hbc: Hist, left: Hist, right: Hist)
    requires ValidCopy(a) && ValidCopy(b) && ValidCopy(c)
    requires Appends(a, b, hab) && IsCopy(hab, ab) && Appends(ab, c, left)
    requires Appends(b, c, hbc) && IsCopy(hbc, bc) && Appends(a, bc, right)
    ensures left.keys == right.keys && Bare(left) == Bare(right)
  {
    OverlayKeysAssociative(a.keys, b.keys, c.keys, a.entries.Keys, b.entries.Keys, c.entries.Keys);
    MapOverlayAssociative(Skeleton(a), Skeleton(b), Skeleton(c));
  }

  lemma MapOverlayAssociative(a: map<Id, Message>, b: map<Id, Message>, c: map<Id, Message>)
    ensures (a + b) + c == a + (b + c)
  {
  }

  /** On copies whose entries are all records, merging is associative: same keys in the same
      order, same messages, same children lists. */
  lemma MergeAssociative(a: Copy, b: Copy, c: Copy)
    requires ValidCopy(a) && ValidCopy(b) && ValidCopy(c)
    requires AllRecords(a) && AllRecords(b) && AllRecords(c)
    ensures var left, right := Merged(CopyOf(Merged(a, b)), c), Merged(a, CopyOf(Merged(b, c)));
      left.keys == right.keys && left.messages == right.messages
  {
    var ab := MergeRecords(a, b);
    var bc := MergeRecords(b, c);
    var cab, cbc := CopyOf(ab), CopyOf(bc);
    CopyIsCopy(ab);
    CopyIsCopy(bc);
    var left := MergeRecords(cab, c);
    var right := MergeRecords(a, cbc);
    AppendsAssociative(a, b, c, cab, cbc, ab, bc, left, right);
    ListingUnique(left, right);
  }

  /** The merge of two copies of records, with what is known of it. */
  lemma MergeRecords(a: Copy, b: Copy) returns (h: Hist)
    requires ValidCopy(a) && ValidCopy(b) && AllRecords(a) && AllRecords(b)
    ensures h == Merged(a, b) && IsMerge(a, b, h) && Appends(a, b, h)
  {
    h := Merged(a, b);
    MergedIsMerge(a, b);
    MergeOfRecords(a, b, h);
  }

  /** Two copies agree where both have a record. */
  ghost predicate AgreeOnShared(a: Copy, b: Copy) {
    forall k :: k in Records(a) && k in Records(b) ==>
      Unlisted(a.entries[k].message) == Unlisted(b.entries[k].message)
  }

  /** Two stale writers that agree on shared ids reach the same messages and the same links in
      either order; only the order inside a children list may differ. */
  lemma StaleWritersCommute(stored: Copy, a: Copy, b: Copy)
    requires ValidCopy(stored) && ValidCopy(a) && ValidCopy(b)
    requires AllRecords(stored) && AllRecords(a) && AllRecords(b)
    requires AgreeOnShared(a, b)
    ensures var ab, ba := Merged(CopyOf(Merged(stored, a)), b), Merged(CopyOf(Merged(stored, b)), a);
      && ab.messages.Keys == ba.messages.Keys
      && forall k :: k in ab.messages ==>
        && Unlisted(ab.messages[k]) == Unlisted(ba.messages[k])
        && multiset(Children(ab.messages[k])) == multiset(Children(ba.messages[k]))
  {
    var sa := MergeRecords(stored, a);
    var sb := MergeRecords(stored, b);
    var csa, csb := CopyOf(sa), CopyOf(sb);
    CopyIsCopy(sa);
    CopyIsCopy(sb);
    var ab := MergeRecords(csa, b);
    var ba := MergeRecords(csb, a);
    SkeletonsAgree(a, b);
    AppendsCommute(stored, a, b, sa, sb, csa, csb, ab, ba);
    SameBareSameLinks(ab, ba);
  }

  lemma SkeletonsAgree(a: Copy, b: Copy)
    requires AgreeOnShared(a, b)
    ensures forall k :: k in Skeleton(a) && k in Skeleton(b) ==> Skeleton(a)[k] == Skeleton(b)[k]
  {
  }

  lemma AppendsCommute(s: Copy, a: Copy, b: Copy, sa: Hist, sb: Hist, csa: Copy, csb: Copy, ab: Hist, ba: Hist)
    requires Appends(s, a, sa) && IsCopy(sa, csa) && Appends(csa, b, ab)
    requires Appends(s, b, sb) && IsCopy(sb, csb) && Appends(csb, a, ba)
    requires forall k :: k in Skeleton(a) && k in Skeleton(b) ==> Skeleton(a)[k] == Skeleton(b)[k]
    ensures Bare(ab) == Bare(ba)
  {
    MapOverlayCommutes(Skeleton(s), Skeleton(a), Skeleton(b));
  }

  lemma MapOverlayCommutes(s: map<Id, Message>, a: map<Id, Message>, b: map<Id, Message>)
    requires forall k :: k in a && k in b ==> a[k] == b[k]
    ensures (s + a) + b == (s + b) + a
  {
  }

  lemma SameBareSameLinks(x: Hist, y: Hist)
    requires TwoSided(x.messages) && TwoSided(y.messages) && Bare(x) == Bare(y)
    ensures x.messages.Keys == y.messages.Keys
    ensures forall k :: k in x.messages ==>
      && Unlisted(x.messages[k]) == Unlisted(y.messages[k])
      && (forall c :: c in Children(x.messages[k]) <==> c in Children(y.messages[k]))
      && multiset(Children(x.messages[k])) == multiset(Children(y.messages[k]))
  {
    assert Bare(x).Keys == x.messages.Keys && Bare(y).Keys == y.messages.Keys;
    forall k | k in x.messages
      ensures Unlisted(x.messages[k]) == Unlisted(y.messages[k])
      ensures ParentOf(x.messages[k]) == ParentOf(y.messages[k])
    {
      assert Bare(x)[k] == Bare(y)[k];
      UnlistedDetermines(x.messages[k], y.messages[k], []);
    }
    forall k | k in x.messages
      ensures forall c :: c in Children(x.messages[k]) <==> c in Children(y.messages[k])
      ensures multiset(Children(x.messages[k])) == multiset(Children(y.messages[k]))
    {
      DistinctSameMembers(Children(x.messages[k]), Children(y.messages[k]));
    }
  }

  lemma DistinctSameMembers(x: seq<Id>, y: seq<Id>)
    requires Distinct(x) && Distinct(y)
    requires forall c :: c in x <==> c in y
    ensures multiset(x) == multiset(y)
  {
    forall c
      ensures multiset(x)[c] == multiset(y)[c]
    {
      DistinctCount(x, c);
      DistinctCount(y, c);
    }
  }

  lemma {:induction false} DistinctCount(s: seq<Id>, c: Id)
    requires Distinct(s)
    ensures multiset(s)[c] == if c in s then 1 else 0
  {
    if s != [] {
      DistinctCount(s[..|s| - 1], c);
      assert s == s[..|s| - 1] + [s[|s| - 1]];
    }
  }
}
