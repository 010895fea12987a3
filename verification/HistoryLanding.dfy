/** What a deletion leaves where the message was (chats.py, delete_message_from_history): the order of
    the parent's children list, and the message the current id lands on. */
module HistoryLanding {
  import opened Collections
  import opened ParentForest
  import opened Messages
  import opened HistoryDelete

  // ------------------------------------------------------------------ the children list

  /** Grandchildren come in the order of the children that listed them, then of those lists. */
  lemma {:induction false} GrandchildOrder(messages: map<Id, Message>, childIds: seq<Id>, c: Id, d: Id, g: Id, k: Id)
    requires Distinct(childIds) && g in LiveChildren(messages, c) && k in LiveChildren(messages, d)
    requires Before(childIds, c, d) || (c == d && c in childIds && Before(LiveChildren(messages, c), g, k))
    ensures Before(LiveGrandchildren(messages, childIds), g, k)
  {
    var front, last := childIds[..|childIds| - 1], childIds[|childIds| - 1];
    assert childIds == front + [last];
    BeforeAppend(front, [last], c, d);
    BeforeAppend(LiveGrandchildren(messages, front), LiveChildren(messages, last), g, k);
    if Before(front, c, d) || (c == d && c in front) {
      GrandchildOrder(messages, front, c, d, g, k);
    } else if c != d {
      ListedLive(messages, front, c, g);
    }
  }

  lemma {:induction false} ListedLive(messages: map<Id, Message>, childIds: seq<Id>, c: Id, g: Id)
    requires c in childIds && g in LiveChildren(messages, c)
    ensures g in LiveGrandchildren(messages, childIds)
  {
    var front, last := childIds[..|childIds| - 1], childIds[|childIds| - 1];
    assert childIds == front + [last];
    if c in front {
      ListedLive(messages, front, c, g);
    }
  }

  /** `after` lists the others of `listed` in their old order, then the entries of the lists of
      `deleted`, list by list. */
  ghost predicate Replaced(messages: map<Id, Message>, listed: seq<Id>, x: Id, deleted: seq<Id>, after: seq<Id>) {
    && (forall a, b :: Before(listed, a, b) && a != x && b != x ==> Before(after, a, b))
    && (forall a, c, g :: a in listed && a != x && c in deleted && g in NextChildren(messages, c) ==>
      Before(after, a, g))
    && InListOrder(messages, deleted, after)
  }

  lemma RelinkedOrder(messages: map<Id, Message>, listed: seq<Id>, x: Id, deleted: seq<Id>)
    requires Distinct(deleted)
    requires forall c :: c in deleted ==> LiveChildren(messages, c) == NextChildren(messages, c)
    ensures Replaced(messages, listed, x, deleted,
      Keep(listed, Elements(listed) - {x}) + LiveGrandchildren(messages, deleted))
  {
    var others, grand := Keep(listed, Elements(listed) - {x}), LiveGrandchildren(messages, deleted);
    KeepMembers(listed, Elements(listed) - {x});
    GrandchildrenInOrder(messages, deleted, grand);
    forall a, b | Before(listed, a, b) && a != x && b != x
      ensures Before(others, a, b)
    {
      BeforeIn(listed, a, b);
      BeforeKeep(listed, Elements(listed) - {x}, a, b);
    }
    JoinedOrder(messages, listed, x, deleted, others, grand, others + grand);
  }

  lemma JoinedOrder(messages: map<Id, Message>, listed: seq<Id>, x: Id, deleted: seq<Id>, others: seq<Id>,
      grand: seq<Id>, after: seq<Id>)
    requires after == others + grand && InListOrder(messages, deleted, grand)
    requires forall a :: a in listed && a != x ==> a in others
    requires forall a, b :: Before(listed, a, b) && a != x && b != x ==> Before(others, a, b)
    ensures Replaced(messages, listed, x, deleted, after)
  {
    forall a, b
      ensures Before(after, a, b) <==> Before(others, a, b) || Before(grand, a, b) || (a in others && b in grand)
    {
      BeforeAppend(others, grand, a, b);
    }
  }

  /** `grand` lists the entries of the lists of `deleted`, list by list. */
  ghost predicate InListOrder(messages: map<Id, Message>, deleted: seq<Id>, grand: seq<Id>) {
    && (forall c, g :: c in deleted && g in NextChildren(messages, c) ==> g in grand)
    && (forall c, d, g, k ::
      Before(deleted, c, d) && g in NextChildren(messages, c) && k in NextChildren(messages, d) ==> Before(grand, g, k))
    && (forall c, g, k :: c in deleted && Before(NextChildren(messages, c), g, k) ==> Before(grand, g, k))
  }

  lemma GrandchildrenInOrder(messages: map<Id, Message>, deleted: seq<Id>, grand: seq<Id>)
    requires Distinct(deleted) && grand == LiveGrandchildren(messages, deleted)
    requires forall c :: c in deleted ==> LiveChildren(messages, c) == NextChildren(messages, c)
    ensures InListOrder(messages, deleted, grand)
  {
    forall c, g | c in deleted && g in NextChildren(messages, c)
      ensures g in grand
    {
      ListedLive(messages, deleted, c, g);
    }
    forall c, d, g, k | Before(deleted, c, d) && g in NextChildren(messages, c) && k in NextChildren(messages, d)
      ensures Before(grand, g, k)
    {
      BeforeIn(deleted, c, d);
      GrandchildOrder(messages, deleted, c, d, g, k);
    }
    forall c, g, k | c in deleted && Before(NextChildren(messages, c), g, k)
      ensures Before(grand, g, k)
    {
      BeforeIn(NextChildren(messages, c), g, k);
      GrandchildOrder(messages, deleted, c, c, g, k);
    }
  }

  /** On a consistent history a deletion leaves every list but the parent's as it was. The parent
      lists its other children in their old order, then the grandchildren, in the order of the
      children deleted and within each in the order of its list. */
  lemma DeleteOrdersChildren(h: Hist, x: Id)
    requires Forest(h) && x in h.messages
    ensures var after, p := Deleted(h, x).messages, ParentOf(h.messages[x]);
      && (p.Some? ==>
        && p.value in after && p.value in h.messages
        && Replaced(h.messages, Children(h.messages[p.value]), x, Children(h.messages[x]), Children(after[p.value])))
      && forall k :: k in after && Some(k) != p ==> Children(after[k]) == Children(h.messages[k])
  {
    var rank :| Ranked(Links(h.messages), rank);
    var p := ParentOf(h.messages[x]);
    AllListedLive(h, x);
    if p.Some? {
      ParentSurvives(h, x, rank);
      ChildrenAfter(h, x, p.value);
      forall c | c in Children(h.messages[x])
        ensures LiveChildren(h.messages, c) == NextChildren(h.messages, c)
      {
        AllListedLive(h, c);
      }
      RelinkedOrder(h.messages, Children(h.messages[p.value]), x, Children(h.messages[x]));
    }
    forall k | k in Deleted(h, x).messages && Some(k) != p
      ensures Children(Deleted(h, x).messages[k]) == Children(h.messages[k])
    {
      ChildrenAfter(h, x, k);
    }
  }

  lemma AllListedLive(h: Hist, k: Id)
    requires Forest(h) && k in h.messages
    ensures LiveChildren(h.messages, k) == Children(h.messages[k])
    ensures forall c :: c in Children(h.messages[k]) ==> c in h.messages
  {
    KeepAll(Children(h.messages[k]), h.messages.Keys);
  }

  lemma BeforeIn(s: seq<Id>, a: Id, b: Id)
    ensures Before(s, a, b) ==> a in s && b in s
  {
  }

  // ------------------------------------------------------------------ the current id

  /** The list walked after `i` steps along `path`: the first one, then that of the message reached. */
  function ListAfter(messages: map<Id, Message>, first: seq<Id>, path: seq<Id>, i: nat): seq<Id>
    requires i <= |path|
  {
    if i == 0 then first else NextChildren(messages, path[i - 1])
  }

  /** The `i`-th id of the path is the last of the list reached. */
  ghost predicate StepsToLast(messages: map<Id, Message>, first: seq<Id>, path: seq<Id>, i: nat)
    requires i < |path|
  {
    var list := ListAfter(messages, first, path, i);
    list != [] && path[i] == list[|list| - 1]
  }

  ghost predicate StepsToLasts(messages: map<Id, Message>, first: seq<Id>, path: seq<Id>) {
    Distinct(path) && forall i :: 0 <= i < |path| ==> StepsToLast(messages, first, path, i)
  }

  /** `path` goes from list to last entry, and on as long as there is a list whose last entry is new. */
  ghost predicate FollowsLasts(messages: map<Id, Message>, first: seq<Id>, path: seq<Id>) {
    && StepsToLasts(messages, first, path)
    && var list := ListAfter(messages, first, path, |path|);
      list == [] || list[|list| - 1] in path
  }

  function EndOf(start: Option<Id>, path: seq<Id>): Option<Id> {
    if path == [] then start else Some(path[|path| - 1])
  }

  lemma StepsFurther(messages: map<Id, Message>, first: seq<Id>, done: seq<Id>, next: Id)
    requires StepsToLasts(messages, first, done) && next !in done
    requires var list := ListAfter(messages, first, done, |done|); list != [] && next == list[|list| - 1]
    ensures StepsToLasts(messages, first, done + [next])
    ensures ListAfter(messages, first, done + [next], |done| + 1) == NextChildren(messages, next)
  {
    var more := done + [next];
    DistinctAppend(done, [next]);
    forall i | 0 <= i < |more|
      ensures StepsToLast(messages, first, more, i)
    {
      assert ListAfter(messages, first, more, i) == ListAfter(messages, first, done, i);
      assert i < |done| ==> StepsToLast(messages, first, done, i);
    }
  }

  lemma OneMoreVisited(messages: map<Id, Message>, done: seq<Id>, next: Id)
    requires next !in done
    ensures Elements(done + [next]) == Elements(done) + {next}
    ensures if next in messages then messages.Keys - Elements(done + [next]) < messages.Keys - Elements(done)
      else messages.Keys - Elements(done + [next]) == messages.Keys - Elements(done)
  {
    assert Elements(done + [next]) == Elements(done) + {next};
    assert next in messages ==> next in messages.Keys - Elements(done);
  }

  lemma WalkOnce(messages: map<Id, Message>, current: Option<Id>, list: seq<Id>, visited: set<Id>)
    requires list != [] && list[|list| - 1] !in visited
    ensures var next := list[|list| - 1];
      WalkDown(messages, current, list, visited) ==
        WalkDown(messages, Some(next), NextChildren(messages, next), visited + {next})
  {
  }

  lemma {:induction false} WalkTraces(messages: map<Id, Message>, first: seq<Id>, start: Option<Id>, done: seq<Id>)
    returns (path: seq<Id>)
    requires StepsToLasts(messages, first, done)
    ensures FollowsLasts(messages, first, path)
    ensures WalkDown(messages, EndOf(start, done), ListAfter(messages, first, done, |done|), Elements(done)) ==
      EndOf(start, path)
    decreases messages.Keys - Elements(done), |ListAfter(messages, first, done, |done|)|
  {
    var list := ListAfter(messages, first, done, |done|);
    if list == [] || list[|list| - 1] in done {
      path := done;
    } else {
      var next := list[|list| - 1];
      StepsFurther(messages, first, done, next);
      OneMoreVisited(messages, done, next);
      WalkOnce(messages, EndOf(start, done), list, Elements(done));
      path := WalkTraces(messages, first, start, done + [next]);
    }
  }

  /** On every history the current id lands at the end of a path that starts with the parent's list,
      or the roots in key order, and goes from list to last entry until a list is empty or an id comes
      up twice; nowhere when no message is there. */
  lemma DeleteFollowsLasts(h: Hist, x: Id)
    requires Valid(h) && x in h.messages
    ensures var after, parent := Deleted(h, x), ParentOf(h.messages[x]);
      var first := if parent.Some? then NextChildren(after.messages, parent.value)
        else Keep(after.keys, set k | k in after.messages && ParentOf(after.messages[k]).None?);
      exists path :: FollowsLasts(after.messages, first, path) &&
        after.currentId == (if EndOf(parent, path).Some? && EndOf(parent, path).value in after.messages
          then EndOf(parent, path) else None)
  {
    var after, parent := Deleted(h, x), ParentOf(h.messages[x]);
    var first := if parent.Some? then NextChildren(after.messages, parent.value)
      else Keep(after.keys, set k | k in after.messages && ParentOf(after.messages[k]).None?);
    var none: seq<Id> := [];
    assert Elements(none) == {};
    var path := WalkTraces(after.messages, first, parent, []);
  }

  // ------------------------------------------------------------------ on consistent histories

  /** `c` is the last child `k` lists. */
  ghost predicate LastChild(messages: map<Id, Message>, k: Id, c: Id) {
    var list := NextChildren(messages, k);
    list != [] && c == list[|list| - 1]
  }

  /** From position `i` on, every id of the path is the last its predecessor lists. */
  ghost predicate LastsFrom(messages: map<Id, Message>, path: seq<Id>, i: nat) {
    forall j :: i < j < |path| ==> LastChild(messages, path[j - 1], path[j])
  }

  /** A path from a message without parent, each id naming the one before. */
  ghost predicate Chain(messages: map<Id, Message>, path: seq<Id>) {
    && path != [] && (forall i :: 0 <= i < |path| ==> path[i] in messages)
    && ParentOf(messages[path[0]]).None?
    && forall i {:trigger path[i]} :: 0 < i < |path| ==> ParentOf(messages[path[i]]) == Some(path[i - 1])
  }

  lemma LineageChain(h: Hist, rank: map<Id, nat>, end: Id)
    requires Forest(h) && Ranked(Links(h.messages), rank) && end in h.messages
    ensures Chain(h.messages, Lineage(Links(h.messages), end, {}))
  {
    var p, path := Links(h.messages), Lineage(Links(h.messages), end, {});
    LineageIsChain(p, rank, end);
    forall i | 0 <= i < |path|
      ensures path[i] in h.messages && p[path[i]] == ParentOf(h.messages[path[i]])
    {
      assert path[i] in path;
      assert ParentOf(h.messages[path[i]]).Some? ==> ParentOf(h.messages[path[i]]).value in h.messages;
    }
  }

  /** The walk from `k` ends at a message whose lineage below `k` goes from last child to last child. */
  lemma {:induction false} WalkLineage(h: Hist, rank: map<Id, nat>, k: Id, visited: set<Id>) returns (i: nat)
    requires Forest(h) && Ranked(Links(h.messages), rank) && k in h.messages
    requires forall v :: v in visited ==> v in h.messages && rank[v] <= rank[k]
    ensures var end := WalkDown(h.messages, Some(k), Children(h.messages[k]), visited);
      && end.Some? && end.value in h.messages
      && var path := Lineage(Links(h.messages), end.value, {});
      && i < |path| && path[i] == k && LastsFrom(h.messages, path, i)
    decreases h.messages.Keys - visited
  {
    var p := Links(h.messages);
    var childIds := Children(h.messages[k]);
    if childIds == [] {
      LineageIsChain(p, rank, k);
      i := |Lineage(p, k, {})| - 1;
    } else {
      var next := childIds[|childIds| - 1];
      assert next in childIds;
      RankStep(h, rank, next);
      assert next in h.messages.Keys - visited;
      var below := WalkLineage(h, rank, next, visited + {next});
      WalkOnce(h.messages, Some(k), childIds, visited);
      var end := WalkDown(h.messages, Some(next), Children(h.messages[next]), visited + {next}).value;
      LineageChain(h, rank, end);
      ChainAbove(h.messages, Lineage(Links(h.messages), end, {}), below, k);
      i := below - 1;
    }
  }

  lemma ChainAbove(messages: map<Id, Message>, path: seq<Id>, below: nat, k: Id)
    requires Chain(messages, path) && below < |path| && LastsFrom(messages, path, below)
    requires ParentOf(messages[path[below]]) == Some(k) && LastChild(messages, k, path[below])
    ensures below > 0 && path[below - 1] == k && LastsFrom(messages, path, below - 1)
  {
  }

  /** The lineage starts at the last root in key order and goes from last child to last child. */
  ghost predicate FromLastRoot(h: Hist, path: seq<Id>) {
    && path != [] && LastsFrom(h.messages, path, 0)
    && path[0] in h.messages && ParentOf(h.messages[path[0]]).None?
    && forall k :: k in h.messages && ParentOf(h.messages[k]).None? && k != path[0] ==> Before(h.keys, k, path[0])
  }

  /** On a consistent history, from the deleted message's parent down every id on the lineage of the
      new current id is the last its parent lists. Without a parent the lineage starts at the last
      root in key order. */
  lemma DeleteLandsOnLastChild(h: Hist, x: Id)
    requires Forest(h) && x in h.messages && Deleted(h, x).currentId.Some?
    ensures var after, parent := Deleted(h, x), ParentOf(h.messages[x]);
      var path := Lineage(Links(after.messages), after.currentId.value, {});
      && (parent.Some? ==> exists i: nat :: i < |path| && path[i] == parent.value && LastsFrom(after.messages, path, i))
      && (parent.None? ==> FromLastRoot(after, path))
  {
    var after, parent := Deleted(h, x), ParentOf(h.messages[x]);
    DeleteKeepsForest(h, x);
    var rank :| Ranked(Links(after.messages), rank);
    if parent.Some? {
      var rank' :| Ranked(Links(h.messages), rank');
      ParentSurvives(h, x, rank');
      var i := WalkLineage(after, rank, parent.value, {});
    } else {
      LastRootLineage(after, rank);
    }
  }

  lemma LastRootLineage(h: Hist, rank: map<Id, nat>)
    requires Forest(h) && Ranked(Links(h.messages), rank) && Landing(h.keys, h.messages, None).Some?
    ensures FromLastRoot(h, Lineage(Links(h.messages), Landing(h.keys, h.messages, None).value, {}))
  {
    var next := LastRoot(h);
    var i := WalkLineage(h, rank, next, {next});
    var end := Landing(h.keys, h.messages, None).value;
    LineageChain(h, rank, end);
    PathFromRoot(h, Lineage(Links(h.messages), end, {}), next, i);
  }

  lemma LastRoot(h: Hist) returns (next: Id)
    requires Forest(h) && Landing(h.keys, h.messages, None).Some?
    ensures next in h.messages && ParentOf(h.messages[next]).None?
    ensures LandsBelow(h, next)
    ensures forall k :: k in h.messages && ParentOf(h.messages[k]).None? && k != next ==> Before(h.keys, k, next)
  {
    EmptyHasNoRoots(h);
    ForestHasRoot(h);
    next := LastOfRoots(h);
  }

  ghost predicate LandsBelow(h: Hist, k: Id)
    requires k in h.messages
  {
    var end := WalkDown(h.messages, Some(k), Children(h.messages[k]), {k});
    Landing(h.keys, h.messages, None) == if end.Some? && end.value in h.messages then end else None
  }

  lemma LastOfRoots(h: Hist) returns (next: Id)
    requires Valid(h) && Roots(h.keys, h.messages) != []
    ensures next in h.messages && ParentOf(h.messages[next]).None?
    ensures LandsBelow(h, next)
    ensures forall k :: k in h.messages && ParentOf(h.messages[k]).None? && k != next ==> Before(h.keys, k, next)
  {
    RootMembers(h);
    var roots := Roots(h.keys, h.messages);
    next := roots[|roots| - 1];
    assert next in roots;
    LastRootAfterAll(h, next);
    LandsBelowLast(h, next);
  }

  lemma LandsBelowLast(h: Hist, next: Id)
    requires next in h.messages && var roots := Roots(h.keys, h.messages); roots != [] && next == roots[|roots| - 1]
    ensures LandsBelow(h, next)
  {
    WalkEnters(h.messages, Roots(h.keys, h.messages), next);
  }

  lemma PathFromRoot(h: Hist, path: seq<Id>, root: Id, i: nat)
    requires Chain(h.messages, path) && i < |path| && path[i] == root && LastsFrom(h.messages, path, i)
    requires root in h.messages && ParentOf(h.messages[root]).None?
    requires forall k :: k in h.messages && ParentOf(h.messages[k]).None? && k != root ==> Before(h.keys, k, root)
    ensures FromLastRoot(h, path)
  {
    RootStarts(h.messages, path, i);
  }

  lemma RootStarts(messages: map<Id, Message>, path: seq<Id>, i: nat)
    requires Chain(messages, path) && i < |path| && ParentOf(messages[path[i]]).None?
    ensures i == 0
  {
  }

  lemma LastRootAfterAll(h: Hist, last: Id)
    requires Valid(h)
    requires var roots := Roots(h.keys, h.messages); roots != [] && last == roots[|roots| - 1]
    ensures forall k :: k in h.messages && ParentOf(h.messages[k]).None? && k != last ==> Before(h.keys, k, last)
  {
    RootMembers(h);
    var parentless := set k | k in h.messages && ParentOf(h.messages[k]).None?;
    forall k | k in h.messages && ParentOf(h.messages[k]).None? && k != last
      ensures Before(h.keys, k, last)
    {
      LastAfterAll(Roots(h.keys, h.messages), k);
      BeforeKeep(h.keys, parentless, k, last);
    }
  }
}
