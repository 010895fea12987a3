/** Keeping the current id of a chat history on a usable message (chats.py, _last_descendant_id and
    _repair_chat_current_id). */
module HistoryPointer {
  import opened Collections
  import opened ParentForest
  import opened Messages

  /** The last listed child that exists; an empty id ends the walk. */
  function NextLive(messages: map<Id, Message>, k: Id): Option<Id>
    requires k in messages
  {
    var live := Keep(Children(messages[k]), messages.Keys);
    if live == [] || live[|live| - 1] == "" then None else Some(live[|live| - 1])
  }

  /** Where the walk along last live children ends. Unvisited ids run out, so it ends on every
      dictionary, cyclic ones included. */
  function LastDescendant(messages: map<Id, Message>, k: Id, seen: set<Id>): Id
    decreases messages.Keys - seen
  {
    if k !in messages || k in seen then k
    else
      match NextLive(messages, k)
      case None => k
      case Some(next) => LastDescendant(messages, next, seen + {k})
  }

  /** The while loop of the source. */
  method FindLastDescendant(messages: map<Id, Message>, messageId: Id) returns (last: Id)
    ensures last == LastDescendant(messages, messageId, {})
  {
    last := messageId;
    var seen: set<Id> := {};
    while last in messages && last !in seen
      invariant LastDescendant(messages, last, seen) == LastDescendant(messages, messageId, {})
      decreases messages.Keys - seen
    {
      ghost var before := seen;
      seen := seen + {last};
      var live := Select(Children(messages[last]), messages.Keys);
      if live == [] || live[|live| - 1] == "" {
        assert NextLive(messages, last).None?;
        return;
      }
      assert NextLive(messages, last) == Some(live[|live| - 1]);
      last := live[|live| - 1];
    }
  }

  // ------------------------------------------------------------------ the walk, on every map

  /** `path` is walked in this order, each id once, and leads to `k`. */
  ghost predicate Walked(messages: map<Id, Message>, path: seq<Id>, k: Id) {
    && Distinct(path)
    && (forall i :: 0 <= i < |path| ==> path[i] in messages)
    && (forall i {:trigger NextLive(messages, path[i])} :: 0 <= i < |path| ==>
      NextLive(messages, path[i]) == Some(Following(path, k, i)))
  }

  function Following(path: seq<Id>, k: Id, i: nat): Id
    requires i < |path|
  {
    if i + 1 < |path| then path[i + 1] else k
  }

  /** From a point of a cycle the walk comes back to the point where it entered. */
  lemma {:induction false} CycleReturns(messages: map<Id, Message>, path: seq<Id>, j: nat, i: nat, seen: set<Id>)
    requires j <= i < |path| && Walked(messages, path, path[j])
    requires forall t :: i <= t < |path| ==> path[t] !in seen
    requires j < i ==> path[j] in seen
    ensures LastDescendant(messages, path[i], seen) == path[j]
    decreases |path| - i
  {
    assert NextLive(messages, path[i]) == Some(Following(path, path[j], i));
    if i + 1 < |path| {
      CycleReturns(messages, path, j, i + 1, seen + {path[i]});
    }
  }

  lemma {:induction false} WalkSettles(messages: map<Id, Message>, path: seq<Id>, k: Id)
    requires Walked(messages, path, k)
    ensures var last := LastDescendant(messages, k, Elements(path));
      LastDescendant(messages, last, {}) == last
    decreases messages.Keys - Elements(path)
  {
    if k !in messages {
    } else if k in Elements(path) {
      var j :| 0 <= j < |path| && path[j] == k;
      CycleReturns(messages, path, j, j, {});
    } else if NextLive(messages, k).Some? {
      var next := NextLive(messages, k).value;
      var path' := path + [k];
      assert Elements(path') == Elements(path) + {k};
      forall i | 0 <= i < |path'|
        ensures NextLive(messages, path'[i]) == Some(Following(path', next, i))
      {
        assert i < |path| ==> path'[i] == path[i];
      }
      assert Distinct(path');
      WalkSettles(messages, path', next);
    }
  }

  /** `c` is the last entry of the list that is among `ids`. */
  ghost predicate LastIn(list: seq<Id>, ids: set<Id>, c: Id) {
    exists i :: 0 <= i < |list| && list[i] == c && c in ids && forall j :: i < j < |list| ==> list[j] !in ids
  }

  lemma LastInLonger(front: seq<Id>, last: Id, ids: set<Id>, c: Id)
    requires if last in ids then c == last else LastIn(front, ids, c)
    ensures LastIn(front + [last], ids, c)
  {
    var list := front + [last];
    if last in ids {
      assert list[|front|] == c;
    } else {
      var i :| 0 <= i < |front| && front[i] == c && c in ids && forall j :: i < j < |front| ==> front[j] !in ids;
      assert list[i] == c && forall j :: i < j < |list| ==> list[j] == if j < |front| then front[j] else last;
    }
  }

  lemma {:induction false} LastKept(list: seq<Id>, ids: set<Id>)
    ensures Keep(list, ids) == [] <==> forall x :: x in list ==> x !in ids
    ensures Keep(list, ids) != [] ==> LastIn(list, ids, Keep(list, ids)[|Keep(list, ids)| - 1])
  {
    KeepMembers(list, ids);
    if list != [] {
      var front, last := list[..|list| - 1], list[|list| - 1];
      assert list == front + [last];
      LastKept(front, ids);
      var live := Keep(list, ids);
      if live != [] {
        LastInLonger(front, last, ids, live[|live| - 1]);
      }
    } else {
      assert Keep(list, ids) == [];
    }
    assert Keep(list, ids) != [] ==> Keep(list, ids)[0] in Keep(list, ids);
  }

  /** `c` is the last child listed by `k` that exists. */
  ghost predicate LastLiveChild(messages: map<Id, Message>, k: Id, c: Id)
    requires k in messages
  {
    LastIn(Children(messages[k]), messages.Keys, c)
  }

  lemma NextLiveIff(messages: map<Id, Message>, k: Id)
    requires k in messages
    ensures forall c :: NextLive(messages, k) == Some(c) <==> c != "" && LastLiveChild(messages, k, c)
    ensures NextLive(messages, k).None? <==> EndsAt(messages, k)
  {
    LastKept(Children(messages[k]), messages.Keys);
  }

  /** No child exists below `k`, or the last one has the empty id. */
  ghost predicate EndsAt(messages: map<Id, Message>, k: Id)
    requires k in messages
  {
    forall c :: LastLiveChild(messages, k, c) ==> c == ""
  }

  /** A walk from `k` down last existing children, each message once, as far as it goes. */
  ghost predicate Descends(messages: map<Id, Message>, path: seq<Id>, end: Id) {
    && path != [] && Distinct(path) && (forall i :: 0 <= i < |path| ==> path[i] in messages)
    && (forall i :: 0 < i < |path| ==> path[i] != "" && LastLiveChild(messages, path[i - 1], path[i]))
    && (if EndsAt(messages, path[|path| - 1]) then end == path[|path| - 1]
        else end != "" && LastLiveChild(messages, path[|path| - 1], end) && end in path)
  }

  lemma {:induction false} WalkDescends(messages: map<Id, Message>, done: seq<Id>, k: Id) returns (path: seq<Id>)
    requires Distinct(done) && k in messages && k !in done
    requires forall i :: 0 <= i < |done| ==> done[i] in messages
    requires var more := done + [k];
      forall i :: 0 < i < |more| ==> more[i] != "" && LastLiveChild(messages, more[i - 1], more[i])
    ensures |done| < |path| && path[..|done|] == done && path[|done|] == k
    ensures Descends(messages, path, LastDescendant(messages, k, Elements(done)))
    decreases messages.Keys - Elements(done)
  {
    var more := done + [k];
    NextLiveIff(messages, k);
    DistinctAppend(done, [k]);
    assert Elements(more) == Elements(done) + {k};
    if NextLive(messages, k).None? || NextLive(messages, k).value in more {
      path := more;
    } else {
      var next := NextLive(messages, k).value;
      assert k in messages.Keys - Elements(done);
      path := WalkDescends(messages, more, next);
      assert path[..|done|] == path[..|more|][..|done|];
    }
  }

  /** On every dictionary the walk goes from a message to its last existing child as long as there is
      one with a nonempty id that was not passed, and ends there or where it would come round. */
  lemma LastDescendantMeans(messages: map<Id, Message>, k: Id)
    ensures k !in messages ==> LastDescendant(messages, k, {}) == k
    ensures k in messages ==>
      exists path :: Descends(messages, path, LastDescendant(messages, k, {})) && path[0] == k
  {
    if k in messages {
      var none: seq<Id> := [];
      assert Elements(none) == {};
      var path := WalkDescends(messages, [], k);
    }
  }

  /** Walking again from where the walk ended stays there, on every dictionary. */
  lemma LastDescendantSettles(messages: map<Id, Message>, k: Id)
    ensures var last := LastDescendant(messages, k, {});
      LastDescendant(messages, last, {}) == last
  {
    WalkSettles(messages, [], k);
    assert Elements<Id>([]) == {};
  }

  /** On a consistent history the walk ends at a leaf, which has a parent unless the walk never
      moved. */
  lemma {:induction false} LastDescendantIsLeaf(h: Hist, rank: map<Id, nat>, k: Id, seen: set<Id>)
    requires Forest(h) && Ranked(Links(h.messages), rank) && k in h.messages
    requires forall v :: v in seen ==> v in h.messages && rank[v] < rank[k]
    ensures var last := LastDescendant(h.messages, k, seen);
      && last in h.messages && Children(h.messages[last]) == []
      && (last != k ==> ParentOf(h.messages[last]).Some?)
    decreases h.messages.Keys - seen
  {
    var childIds := Children(h.messages[k]);
    AllChildrenLive(h, k);
    if childIds != [] {
      var next := childIds[|childIds| - 1];
      ChildRank(h, rank, k, next);
      assert NextLive(h.messages, k) == Some(next);
      LastDescendantIsLeaf(h, rank, next, seen + {k});
    }
  }

  lemma AllChildrenLive(h: Hist, k: Id)
    requires Forest(h) && k in h.messages
    ensures Keep(Children(h.messages[k]), h.messages.Keys) == Children(h.messages[k])
    ensures "" !in Children(h.messages[k])
  {
    KeepAll(Children(h.messages[k]), h.messages.Keys);
  }

  lemma ChildRank(h: Hist, rank: map<Id, nat>, k: Id, c: Id)
    requires Forest(h) && Ranked(Links(h.messages), rank)
    requires k in h.messages && c in Children(h.messages[k])
    ensures c in h.messages && ParentOf(h.messages[c]) == Some(k) && rank[k] < rank[c]
  {
    assert Links(h.messages)[c] == Some(k);
  }

  // ------------------------------------------------------------------ the latest leaf

  function Timestamp(m: Message): int {
    if m.timestamp.Is? then m.timestamp.value else 0
  }

  /** A message the current id may fall back to. */
  predicate Eligible(m: Message) {
    Truthy(m.role) && Children(m) == [] && Timestamp(m) > -1
  }

  /** The first leaf with the greatest timestamp, in key order. */
  function LatestLeaf(keys: seq<Id>, messages: map<Id, Message>): Option<Id>
    requires forall k :: k in keys ==> k in messages
  {
    if keys == [] then None
    else
      var k := keys[|keys| - 1];
      assert forall x :: x in keys[..|keys| - 1] ==> x in keys;
      var before := LatestLeaf(keys[..|keys| - 1], messages);
      if Eligible(messages[k]) &&
         (before.None? || (before.value in messages && Timestamp(messages[k]) > Timestamp(messages[before.value])))
      then Some(k) else before
  }

  /** The scan finds an eligible leaf of greatest timestamp whenever there is one. */
  lemma {:induction false} LatestLeafIsLatest(keys: seq<Id>, messages: map<Id, Message>)
    requires forall k :: k in keys ==> k in messages
    ensures var leaf := LatestLeaf(keys, messages);
      && (leaf.None? <==> forall k :: k in keys ==> !Eligible(messages[k]))
      && (leaf.Some? ==>
        && leaf.value in keys && Eligible(messages[leaf.value])
        && forall k :: k in keys && Eligible(messages[k]) ==> Timestamp(messages[k]) <= Timestamp(messages[leaf.value]))
  {
    if keys != [] {
      var front, k := keys[..|keys| - 1], keys[|keys| - 1];
      assert keys == front + [k];
      assert forall x :: x in front ==> x in keys;
      LatestLeafIsLatest(front, messages);
    }
  }

  /** A message can be fallen back to exactly when it has a nonempty role, lists nothing and has no
      negative timestamp. */
  lemma EligibleIff(m: Message)
    ensures Eligible(m) <==>
      && m.role.Is? && m.role.value != ""
      && (m.childrenIds.Is? ==> m.childrenIds.value == [])
      && (m.timestamp.Is? ==> m.timestamp.value >= 0)
  {
  }

  /** Position `i` is the first eligible leaf of greatest timestamp. */
  ghost predicate LatestAt(keys: seq<Id>, messages: map<Id, Message>, i: nat)
    requires forall k :: k in keys ==> k in messages
  {
    && i < |keys| && Eligible(messages[keys[i]])
    && forall j {:trigger keys[j]} :: 0 <= j < |keys| && Eligible(messages[keys[j]]) ==>
      && Timestamp(messages[keys[j]]) <= Timestamp(messages[keys[i]])
      && (j < i ==> Timestamp(messages[keys[j]]) < Timestamp(messages[keys[i]]))
  }

  /** Of the latest leaves the scan finds the first in key order. */
  lemma {:induction false} LatestLeafIsFirst(keys: seq<Id>, messages: map<Id, Message>)
    requires forall k :: k in keys ==> k in messages
    ensures LatestLeaf(keys, messages).Some? ==>
      exists i: nat :: LatestAt(keys, messages, i) && keys[i] == LatestLeaf(keys, messages).value
  {
    if keys != [] {
      var front, k := keys[..|keys| - 1], keys[|keys| - 1];
      assert keys == front + [k];
      assert forall x :: x in front ==> x in keys;
      LatestLeafIsFirst(front, messages);
      LatestLeafIsLatest(front, messages);
      assert forall j :: 0 <= j < |front| ==> keys[j] == front[j] && front[j] in front;
      var leaf := LatestLeaf(keys, messages);
      if leaf.Some? && leaf == LatestLeaf(front, messages) {
        var i: nat :| LatestAt(front, messages, i) && front[i] == leaf.value;
        assert LatestAt(keys, messages, i);
      } else if leaf.Some? {
        assert LatestAt(keys, messages, |front|);
      }
    }
  }

  method FindLatestLeaf(keys: seq<Id>, messages: map<Id, Message>) returns (leaf: Option<Id>)
    requires forall k :: k in keys ==> k in messages
    ensures leaf == LatestLeaf(keys, messages)
  {
    leaf := None;
    var latestTimestamp := -1;
    for i := 0 to |keys|
      invariant forall x :: x in keys[..i] ==> x in keys
      invariant leaf == LatestLeaf(keys[..i], messages)
      invariant leaf.Some? ==> leaf.value in messages && latestTimestamp == Timestamp(messages[leaf.value]) > -1
      invariant leaf.None? ==> latestTimestamp == -1
    {
      assert keys[..i + 1][..i] == keys[..i];
      assert forall x :: x in keys[..i + 1] ==> x in keys;
      var message := messages[keys[i]];
      if Truthy(message.role) {
        var timestamp := Timestamp(message);
        if |Children(message)| == 0 && timestamp > latestTimestamp {
          leaf := Some(keys[i]);
          latestTimestamp := timestamp;
        }
      }
    }
    assert keys[..|keys|] == keys;
  }

  // ------------------------------------------------------------------ repair

  /** A bare assistant output with no parent and no timestamp, in a longer chat. */
  predicate BadLeaf(h: Hist, m: Message) {
    OutputRole(m) == Some("assistant") && ParentOf(m).None? && Timestamp(m) == 0 && |h.messages| > 1
  }

  predicate Usable(h: Hist, m: Message) {
    Truthy(m.id) && Truthy(m.role) && !BadLeaf(h, m)
  }

  /** A message is usable exactly when it has a nonempty id and role and is not, in a chat of several
      messages, a bare assistant output: no parent, no timestamp, and the first role among its output
      items that of the assistant. */
  lemma UsableIff(h: Hist, m: Message)
    ensures Usable(h, m) <==>
      && m.id.Is? && m.id.value != "" && m.role.Is? && m.role.value != ""
      && !(&& |h.messages| > 1 && !m.parentId.Is? && (m.timestamp.Is? ==> m.timestamp.value == 0)
           && m.output.Is?
           && exists i: nat :: FirstTruthyAt(m.output.value, i) && m.output.value[i] == Is("assistant"))
  {
    if m.output.Is? {
      FirstRoleIsFirst(m.output.value);
      forall i: nat, j: nat | FirstTruthyAt(m.output.value, i) && FirstTruthyAt(m.output.value, j)
        ensures i == j
      {
      }
    }
  }

  /** The current id after a repair. */
  function RepairedId(h: Hist): Option<Id>
    requires forall k :: k in h.keys ==> k in h.messages
  {
    if h.currentId.Some? && h.currentId.value in h.messages && Usable(h, h.messages[h.currentId.value]) then
      if Truthy(h.messages[h.currentId.value].contextSummary)
      then Some(LastDescendant(h.messages, h.currentId.value, {}))
      else h.currentId
    else
      var leaf := LatestLeaf(h.keys, h.messages);
      if leaf.None? || leaf.value == "" then h.currentId else leaf
  }

  function Repaired(h: Hist): Hist
    requires forall k :: k in h.keys ==> k in h.messages
  {
    h.(currentId := RepairedId(h))
  }

  /** Every message carries an id, a role and no negative timestamp. */
  ghost predicate Complete(messages: map<Id, Message>) {
    forall k {:trigger messages[k]} :: k in messages ==>
      Truthy(messages[k].id) && Truthy(messages[k].role) && Timestamp(messages[k]) >= 0
  }

  lemma LeafExists(h: Hist)
    requires Forest(h) && Complete(h.messages) && h.messages.Keys != {}
    ensures LatestLeaf(h.keys, h.messages).Some?
    ensures LatestLeaf(h.keys, h.messages).value in h.messages
    ensures LatestLeaf(h.keys, h.messages).value != ""
    ensures Children(h.messages[LatestLeaf(h.keys, h.messages).value]) == []
  {
    var rank :| Ranked(Links(h.messages), rank);
    var k :| k in h.messages;
    LastDescendantIsLeaf(h, rank, k, {});
    var last := LastDescendant(h.messages, k, {});
    assert last in h.keys && Eligible(h.messages[last]);
    LatestLeafIsLatest(h.keys, h.messages);
  }

  lemma LeafStays(h: Hist, leaf: Id)
    requires leaf in h.messages && Children(h.messages[leaf]) == []
    ensures LastDescendant(h.messages, leaf, {}) == leaf
  {
    assert NextLive(h.messages, leaf).None?;
  }

  /** On a nonempty consistent history whose messages are complete, a repair leaves the current id on
      an existing message, and a second repair changes nothing. */
  lemma RepairSettles(h: Hist)
    requires Forest(h) && Complete(h.messages) && h.messages.Keys != {}
    ensures RepairedId(h).Some? && RepairedId(h).value in h.messages
    ensures Repaired(Repaired(h)) == Repaired(h)
  {
    LeafExists(h);
    var rank :| Ranked(Links(h.messages), rank);
    if h.currentId.Some? && h.currentId.value in h.messages {
      LastDescendantIsLeaf(h, rank, h.currentId.value, {});
    }
    var after := RepairedId(h).value;
    if RepairedId(h) != h.currentId {
      assert Children(h.messages[after]) == [];
      LeafStays(h, after);
    }
  }

  /** The message the current id names, if there is one and it is usable. */
  function UsableCurrent(h: Hist): Option<Id> {
    if h.currentId.Some? && h.currentId.value in h.messages && Usable(h, h.messages[h.currentId.value])
    then h.currentId else None
  }

  /** A usable current message stays current, unless it is compacted: then its last descendant is. Else
      the first latest leaf becomes current, if there is one with a nonempty id, and nothing changes
      if there is none. */
  lemma RepairChooses(h: Hist)
    requires Valid(h)
    ensures var after, current := Repaired(h), UsableCurrent(h);
      && after.keys == h.keys && after.messages == h.messages
      && (current.Some? ==> current == h.currentId)
      && (current.Some? && !Truthy(h.messages[current.value].contextSummary) ==> after.currentId == current)
      && (current.Some? && Truthy(h.messages[current.value].contextSummary) ==>
        after.currentId == Some(LastDescendant(h.messages, current.value, {})))
      && (current.None? ==>
        if exists i: nat :: LatestAt(h.keys, h.messages, i) && h.keys[i] != ""
        then exists i: nat :: LatestAt(h.keys, h.messages, i) && after.currentId == Some(h.keys[i])
        else after.currentId == h.currentId)
  {
    LatestLeafIsFirst(h.keys, h.messages);
    LatestLeafIsLatest(h.keys, h.messages);
    forall i: nat, j: nat | LatestAt(h.keys, h.messages, i) && LatestAt(h.keys, h.messages, j)
      ensures i == j
    {
    }
  }

  /** A usable current message is compacted and its last descendant is unusable, while the latest leaf
      is another message. */
  ghost predicate DescendsToUnusable(h: Hist)
    requires forall k :: k in h.keys ==> k in h.messages
  {
    && UsableCurrent(h).Some? && Truthy(h.messages[UsableCurrent(h).value].contextSummary)
    && var last, leaf := LastDescendant(h.messages, UsableCurrent(h).value, {}), LatestLeaf(h.keys, h.messages);
    && !(last in h.messages && Usable(h, h.messages[last]))
    && leaf.Some? && leaf.value != "" && leaf.value != last
  }

  /** On every well-formed history a second repair changes nothing exactly when the first does not
      descend to an unusable message while another leaf is the latest. */
  lemma RepairIdempotentIff(h: Hist)
    requires Valid(h)
    ensures Repaired(Repaired(h)) == Repaired(h) <==> !DescendsToUnusable(h)
  {
    LatestLeafIsLatest(h.keys, h.messages);
    var leaf := LatestLeaf(h.keys, h.messages);
    if leaf.Some? {
      LeafStays(h, leaf.value);
    }
    if UsableCurrent(h).Some? {
      WalkStaysInside(h.messages, h.currentId.value, {});
      LastDescendantSettles(h.messages, h.currentId.value);
    }
  }

  /** A compacted current message `a` whose only reply `b` has no role, and another leaf `c`: the
      first repair lands on `b`, the second on `c`. */
  lemma RepairMovesTwice(a: Id, b: Id, c: Id, m: Message)
    requires a != b && b != c && a != c && b != "" && c != ""
    requires Truthy(m.id) && Truthy(m.role) && m.timestamp == Is(1)
    ensures var h := Hist([a, b, c], map[
          a := m.(childrenIds := Is([b]), contextSummary := Is("done")),
          b := m.(childrenIds := Is([]), role := Absent),
          c := m.(childrenIds := Is([]))], Some(a));
      && Valid(h) && Repaired(h).currentId == Some(b) && Repaired(Repaired(h)).currentId == Some(c)
  {
    var h := Hist([a, b, c], map[
        a := m.(childrenIds := Is([b]), contextSummary := Is("done")),
        b := m.(childrenIds := Is([]), role := Absent),
        c := m.(childrenIds := Is([]))], Some(a));
    OnlyChildIsLast(h.messages, a, b);
    LatestLeafIsLatest(h.keys, h.messages);
    assert c in h.keys && Eligible(h.messages[c]);
    assert LatestLeaf(h.keys, h.messages) == Some(c);
  }

  lemma OnlyChildIsLast(messages: map<Id, Message>, a: Id, b: Id)
    requires a in messages && b in messages && a != b && b != ""
    requires Children(messages[a]) == [b] && Children(messages[b]) == []
    ensures LastDescendant(messages, a, {}) == b
  {
    assert [b][..0] == [];
    assert Keep([b], messages.Keys) == [b];
    assert NextLive(messages, a) == Some(b) && NextLive(messages, b).None?;
    assert LastDescendant(messages, b, {} + {a}) == b;
  }

  /** A repair moves the current id or nothing, and only when the current id is unusable or sits on a
      compacted message with descendants. */
  lemma RepairMovesOnlyPointer(h: Hist)
    requires forall k :: k in h.keys ==> k in h.messages
    ensures Repaired(h).keys == h.keys && Repaired(h).messages == h.messages
    ensures h.currentId.Some? && h.currentId.value in h.messages
      && Usable(h, h.messages[h.currentId.value])
      && !Truthy(h.messages[h.currentId.value].contextSummary)
      ==> Repaired(h) == h
    ensures RepairedId(h) != h.currentId ==> RepairedId(h).Some? && RepairedId(h).value in h.messages
  {
    LatestLeafIsLatest(h.keys, h.messages);
    if h.currentId.Some? {
      WalkStaysInside(h.messages, h.currentId.value, {});
    }
  }

  lemma {:induction false} WalkStaysInside(messages: map<Id, Message>, k: Id, seen: set<Id>)
    ensures k in messages ==> LastDescendant(messages, k, seen) in messages
    decreases messages.Keys - seen
  {
    if k in messages && k !in seen && NextLive(messages, k).Some? {
      var live := Keep(Children(messages[k]), messages.Keys);
      KeepMembers(Children(messages[k]), messages.Keys);
      assert live[|live| - 1] in live;
      WalkStaysInside(messages, NextLive(messages, k).value, seen + {k});
    }
  }
}
