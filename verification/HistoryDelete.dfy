/** Deleting a message from a chat history (chats.py, delete_message_from_history): what is
    computed, and what that means on consistent histories. */
module HistoryDelete {
  import opened Collections
  import opened ParentForest
  import opened Messages

  /** The listed children that exist. */
  function LiveChildren(messages: map<Id, Message>, k: Id): seq<Id> {
    if k in messages then Keep(Children(messages[k]), messages.Keys) else []
  }

  function LiveGrandchildren(messages: map<Id, Message>, childIds: seq<Id>): seq<Id> {
    if childIds == [] then []
    else
      LiveGrandchildren(messages, childIds[..|childIds| - 1]) +
      LiveChildren(messages, childIds[|childIds| - 1])
  }

  /** The ids a deletion removes: none when the message is unknown. */
  function DeletedIds(messages: map<Id, Message>, x: Id): set<Id> {
    if x in messages then {x} + Elements(LiveChildren(messages, x)) else {}
  }

  /** The parent's children list with the deleted message replaced by its grandchildren. */
  function ParentRelinked(messages: map<Id, Message>, x: Id, grandIds: seq<Id>): map<Id, Message>
    requires x in messages
  {
    var parent := ParentOf(messages[x]);
    if parent.Some? && parent.value in messages then
      var listed := Children(messages[parent.value]);
      messages[parent.value := messages[parent.value].(
        childrenIds := Is(Keep(listed, Elements(listed) - {x}) + grandIds))]
    else messages
  }

  function Regrafted(messages: map<Id, Message>, grandIds: set<Id>, parent: Option<Id>): map<Id, Message> {
    map k | k in messages ::
      if k in grandIds then messages[k].(parentId := ToField(parent)) else messages[k]
  }

  /** The message dictionary after the deletion of an existing message. */
  function Remaining(messages: map<Id, Message>, x: Id): map<Id, Message>
    requires x in messages
  {
    var grandIds := LiveGrandchildren(messages, LiveChildren(messages, x));
    Regrafted(ParentRelinked(messages, x, grandIds), Elements(grandIds), ParentOf(messages[x]))
      - DeletedIds(messages, x)
  }

  function NextChildren(messages: map<Id, Message>, k: Id): seq<Id> {
    if k in messages then Children(messages[k]) else []
  }

  /** Follow last children from `current` until a list is empty or an id comes up twice. Ends on
      every dictionary, cyclic ones included: unvisited ids run out. */
  function WalkDown(messages: map<Id, Message>, current: Option<Id>, childIds: seq<Id>, visited: set<Id>): Option<Id>
    decreases messages.Keys - visited, |childIds|
  {
    if childIds == [] || childIds[|childIds| - 1] in visited then current
    else
      var next := childIds[|childIds| - 1];
      assert next !in messages ==> messages.Keys - (visited + {next}) == messages.Keys - visited;
      assert next in messages ==> next in messages.Keys - visited;
      WalkDown(messages, Some(next), NextChildren(messages, next), visited + {next})
  }

  function Roots(keys: seq<Id>, messages: map<Id, Message>): seq<Id> {
    Keep(keys, set k | k in messages && ParentOf(messages[k]).None?)
  }

  /** Where the current id lands: below the deleted message's parent, or below the last root. */
  function Landing(keys: seq<Id>, messages: map<Id, Message>, parent: Option<Id>): Option<Id> {
    var start := if parent.None? then Roots(keys, messages) else NextChildren(messages, parent.value);
    var end := WalkDown(messages, parent, start, {});
    if end.Some? && end.value in messages then end else None
  }

  /** The history after deleting `x`. */
  function Deleted(h: Hist, x: Id): Hist {
    if x !in h.messages then h
    else
      var messages := Remaining(h.messages, x);
      var keys := Keep(h.keys, messages.Keys);
      Hist(keys, messages, Landing(keys, messages, ParentOf(h.messages[x])))
  }

  /** The listed grandchildren that survive: they are handed to the parent of `x`. */
  function HandedUp(messages: map<Id, Message>, x: Id): set<Id> {
    set g | g in messages && g in LiveGrandchildren(messages, LiveChildren(messages, x)) &&
      g !in DeletedIds(messages, x)
  }

  // ------------------------------------------------------------------ every history

  lemma {:induction false} GrandchildMembers(messages: map<Id, Message>, childIds: seq<Id>)
    ensures forall g :: g in LiveGrandchildren(messages, childIds) <==>
      g in messages && exists c :: c in childIds && c in messages && g in Children(messages[c])
  {
    if childIds != [] {
      var front, last := childIds[..|childIds| - 1], childIds[|childIds| - 1];
      assert childIds == front + [last];
      GrandchildMembers(messages, front);
      if last in messages {
        KeepMembers(Children(messages[last]), messages.Keys);
      }
    }
  }

  /** Any deletion keeps the dictionary well formed and keeps every survivor's fields other than
      its links. */
  lemma DeleteKeepsBodies(h: Hist, x: Id)
    requires Valid(h)
    ensures Valid(Deleted(h, x))
    ensures Deleted(h, x).messages.Keys == h.messages.Keys - DeletedIds(h.messages, x)
    ensures forall k :: k in Deleted(h, x).messages ==> Body(Deleted(h, x).messages[k]) == Body(h.messages[k])
  {
    if x in h.messages {
      KeepMembers(h.keys, Remaining(h.messages, x).Keys);
      KeepDistinct(h.keys, Remaining(h.messages, x).Keys);
    }
  }

  /** Any deletion of a stored message removes it and the messages it lists, and nothing else. */
  lemma DeletedIdsIff(messages: map<Id, Message>, x: Id, k: Id)
    ensures k in DeletedIds(messages, x) <==>
      x in messages && (k == x || (k in messages && k in Children(messages[x])))
  {
    if x in messages {
      KeepMembers(Children(messages[x]), messages.Keys);
    }
  }

  /** The parent of each survivor after a deletion. */
  lemma ParentAfter(messages: map<Id, Message>, x: Id, k: Id)
    requires x in messages && k in Remaining(messages, x)
    ensures ParentOf(Remaining(messages, x)[k]) ==
      if exists c :: c in Children(messages[x]) && c in messages && k in Children(messages[c])
      then ParentOf(messages[x]) else ParentOf(messages[k])
  {
    GrandchildMembers(messages, LiveChildren(messages, x));
    KeepMembers(Children(messages[x]), messages.Keys);
  }

  /** What a caller can check before deleting `x`: every survivor naming a deleted id is listed by
      one of the listed children, and if any such survivor has to be handed up, the parent of `x`
      is not itself deleted. */
  ghost predicate ListsItsSubtree(messages: map<Id, Message>, x: Id)
    requires x in messages
  {
    var gone := DeletedIds(messages, x);
    var grand := Elements(LiveGrandchildren(messages, LiveChildren(messages, x)));
    && (forall k :: k in messages && k !in gone && k !in grand && ParentOf(messages[k]).Some? ==>
      ParentOf(messages[k]).value !in gone)
    && (grand <= gone || ParentOf(messages[x]).None? || ParentOf(messages[x]).value !in gone)
  }

  /** Deleting from a history without dangling parents leaves none exactly when the children
      lists around the deleted message cover the messages naming the deleted ids. An upsert
      writes only the child-to-parent link, so this can fail. */
  lemma DeleteDanglesIff(h: Hist, x: Id)
    requires Valid(h) && x in h.messages && Resolved(h.messages)
    ensures Resolved(Deleted(h, x).messages) <==> ListsItsSubtree(h.messages, x)
  {
    var messages, after := h.messages, Remaining(h.messages, x);
    var gone := DeletedIds(messages, x);
    var grand := Elements(LiveGrandchildren(messages, LiveChildren(messages, x)));
    assert after.Keys == messages.Keys - gone;
    GrandchildMembers(messages, LiveChildren(messages, x));
    forall k | k in messages && k !in gone
      ensures (ParentOf(after[k]).Some? ==> ParentOf(after[k]).value in after) <==>
        (if k in grand then ParentOf(messages[x]).Some? ==> ParentOf(messages[x]).value !in gone
         else ParentOf(messages[k]).Some? ==> ParentOf(messages[k]).value !in gone)
    {
      assert ParentOf(messages[x]).Some? ==> ParentOf(messages[x]).value in messages;
    }
    if !(grand <= gone) {
      var g :| g in grand && g !in gone;
      assert g in messages;
    }
  }

  // ------------------------------------------------------------------ consistent histories

  /** On a consistent history the ids removed are the message and the messages naming it, and the
      grandchildren are the messages naming one of those. */
  lemma ForestDeleted(h: Hist, x: Id)
    requires Forest(h) && x in h.messages
    ensures DeletedIds(h.messages, x) ==
      {x} + set k | k in h.messages && ParentOf(h.messages[k]) == Some(x)
    ensures forall g :: g in LiveGrandchildren(h.messages, LiveChildren(h.messages, x)) <==>
      && g in h.messages
      && ParentOf(h.messages[g]).Some?
      && ParentOf(h.messages[ParentOf(h.messages[g]).value]) == Some(x)
  {
    KeepMembers(Children(h.messages[x]), h.messages.Keys);
    forall g
      ensures g in LiveGrandchildren(h.messages, LiveChildren(h.messages, x)) <==>
        && g in h.messages
        && ParentOf(h.messages[g]).Some?
        && ParentOf(h.messages[ParentOf(h.messages[g]).value]) == Some(x)
    {
      ForestGrandchild(h, x, g);
    }
  }

  lemma ForestGrandchild(h: Hist, x: Id, g: Id)
    requires Forest(h) && x in h.messages
    ensures g in LiveGrandchildren(h.messages, LiveChildren(h.messages, x)) <==>
      && g in h.messages
      && ParentOf(h.messages[g]).Some?
      && ParentOf(h.messages[ParentOf(h.messages[g]).value]) == Some(x)
  {
    KeepMembers(Children(h.messages[x]), h.messages.Keys);
    GrandchildMembers(h.messages, LiveChildren(h.messages, x));
  }

  lemma RankStep(h: Hist, rank: map<Id, nat>, k: Id)
    requires Forest(h) && Ranked(Links(h.messages), rank)
    requires k in h.messages && ParentOf(h.messages[k]).Some?
    ensures ParentOf(h.messages[k]).value in h.messages
    ensures Links(h.messages)[k] == ParentOf(h.messages[k])
    ensures rank[ParentOf(h.messages[k]).value] < rank[k]
  {
  }

  /** The parent of the deleted message is not itself deleted. */
  lemma ParentSurvives(h: Hist, x: Id, rank: map<Id, nat>)
    requires Forest(h) && x in h.messages && Ranked(Links(h.messages), rank)
    requires ParentOf(h.messages[x]).Some?
    ensures ParentOf(h.messages[x]).value in Remaining(h.messages, x)
  {
    ForestDeleted(h, x);
    var above := ParentOf(h.messages[x]).value;
    RankStep(h, rank, x);
    if ParentOf(h.messages[above]) == Some(x) {
      RankStep(h, rank, above);
    }
  }

  /** A survivor whose parent goes is handed to the deleted message's parent; all others keep
      theirs. */
  lemma ForestParentAfter(h: Hist, x: Id, k: Id)
    requires Forest(h) && x in h.messages && k in Remaining(h.messages, x)
    ensures var before := ParentOf(h.messages[k]);
      ParentOf(Remaining(h.messages, x)[k]) ==
        if before.Some? && before.value in DeletedIds(h.messages, x) then ParentOf(h.messages[x]) else before
    ensures ParentOf(h.messages[k]) != Some(x)
  {
    ForestDeleted(h, x);
    ParentAfter(h.messages, x, k);
  }

  lemma SurvivorOfDeleted(h: Hist, x: Id, rank: map<Id, nat>, c: Id)
    requires Forest(h) && x in h.messages && Ranked(Links(h.messages), rank)
    requires c in DeletedIds(h.messages, x) && c != x
    ensures Survivor(Links(h.messages), rank, DeletedIds(h.messages, x), Some(c)) == ParentOf(h.messages[x])
  {
    ForestDeleted(h, x);
    var p, gone, above := Links(h.messages), DeletedIds(h.messages, x), ParentOf(h.messages[x]);
    assert p[c] == Some(x) && p[x] == above;
    if above.Some? {
      ParentSurvives(h, x, rank);
      assert above.value !in gone;
    }
    assert Survivor(p, rank, gone, above) == above;
    assert Survivor(p, rank, gone, Some(x)) == above;
  }

  /** The deletion contracts the parent relation at the deleted ids. */
  lemma DeleteContracts(h: Hist, x: Id, rank: map<Id, nat>)
    requires Forest(h) && x in h.messages && Ranked(Links(h.messages), rank)
    ensures Contracts(Links(h.messages), rank, DeletedIds(h.messages, x), Links(Remaining(h.messages, x)))
    ensures Resolved(Remaining(h.messages, x))
  {
    var p, gone, after := Links(h.messages), DeletedIds(h.messages, x), Remaining(h.messages, x);
    forall k | k in after
      ensures ParentOf(after[k]).Some? ==> ParentOf(after[k]).value in after
      ensures Links(after)[k] == Survivor(p, rank, gone, p[k])
    {
      ForestParentAfter(h, x, k);
      if ParentOf(h.messages[x]).Some? {
        ParentSurvives(h, x, rank);
      }
      if p[k].Some? && p[k].value in gone {
        SurvivorOfDeleted(h, x, rank, p[k].value);
      }
    }
    assert Links(after).Keys == p.Keys - gone;
  }

  // ------------------------------------------------------------------ children lists

  lemma {:induction false} GrandchildrenDistinct(h: Hist, childIds: seq<Id>)
    requires Forest(h) && Distinct(childIds)
    ensures Distinct(LiveGrandchildren(h.messages, childIds))
  {
    if childIds != [] {
      var front, last := childIds[..|childIds| - 1], childIds[|childIds| - 1];
      GrandchildrenDistinct(h, front);
      GrandchildMembers(h.messages, front);
      if last in h.messages {
        KeepMembers(Children(h.messages[last]), h.messages.Keys);
        KeepDistinct(Children(h.messages[last]), h.messages.Keys);
      }
      DistinctAppend(LiveGrandchildren(h.messages, front), LiveChildren(h.messages, last));
    }
  }

  /** The children list of each survivor: unchanged, except at the deleted message's parent. */
  lemma ChildrenAfter(h: Hist, x: Id, k: Id)
    requires x in h.messages && k in Remaining(h.messages, x)
    ensures Children(Remaining(h.messages, x)[k]) ==
      if ParentOf(h.messages[x]) == Some(k)
      then Keep(Children(h.messages[k]), Elements(Children(h.messages[k])) - {x})
             + LiveGrandchildren(h.messages, LiveChildren(h.messages, x))
      else Children(h.messages[k])
  {
  }

  /** Deletion keeps the links mutually inverse. */
  lemma DeleteKeepsTwoSided(h: Hist, x: Id, rank: map<Id, nat>)
    requires Forest(h) && x in h.messages && Ranked(Links(h.messages), rank)
    ensures TwoSided(Remaining(h.messages, x))
  {
    var after := Remaining(h.messages, x);
    forall k | k in after
      ensures Distinct(Children(after[k]))
      ensures forall c :: c in Children(after[k]) <==> c in after && ParentOf(after[c]) == Some(k)
    {
      ChildrenAfter(h, x, k);
      ForestDeleted(h, x);
      if ParentOf(h.messages[x]) == Some(k) {
        ParentListAfter(h, x, rank);
      } else {
        forall c
          ensures c in Children(h.messages[k]) <==> c in after && ParentOf(after[c]) == Some(k)
        {
          if c in after {
            ForestParentAfter(h, x, c);
          }
        }
      }
    }
  }

  lemma GrandchildRanks(h: Hist, x: Id, rank: map<Id, nat>, g: Id)
    requires Forest(h) && x in h.messages && Ranked(Links(h.messages), rank)
    requires g in LiveGrandchildren(h.messages, LiveChildren(h.messages, x))
    ensures g in h.messages && ParentOf(h.messages[g]).Some?
    ensures ParentOf(h.messages[g]).value in DeletedIds(h.messages, x)
    ensures rank[x] < rank[ParentOf(h.messages[g]).value] < rank[g]
  {
    ForestDeleted(h, x);
    RankStep(h, rank, g);
    RankStep(h, rank, ParentOf(h.messages[g]).value);
  }

  /** A grandchild survives, was not a child of the deleted message's parent, and becomes one. */
  lemma GrandchildLands(h: Hist, x: Id, rank: map<Id, nat>, g: Id)
    requires Forest(h) && x in h.messages && Ranked(Links(h.messages), rank)
    requires g in LiveGrandchildren(h.messages, LiveChildren(h.messages, x))
    ensures g in Remaining(h.messages, x)
    ensures ParentOf(h.messages[g]) != ParentOf(h.messages[x])
    ensures ParentOf(Remaining(h.messages, x)[g]) == ParentOf(h.messages[x])
  {
    GrandchildRanks(h, x, rank, g);
    if ParentOf(h.messages[x]).Some? {
      RankStep(h, rank, x);
    }
    assert g !in DeletedIds(h.messages, x) by {
      ForestDeleted(h, x);
    }
    assert g in Remaining(h.messages, x);
    ForestParentAfter(h, x, g);
  }

  /** The messages naming the deleted message's parent afterwards: its other children and the
      grandchildren. */
  lemma NamesParentAfter(h: Hist, x: Id, rank: map<Id, nat>, c: Id)
    requires Forest(h) && x in h.messages && Ranked(Links(h.messages), rank)
    requires ParentOf(h.messages[x]).Some?
    ensures (c in Remaining(h.messages, x) && ParentOf(Remaining(h.messages, x)[c]) == ParentOf(h.messages[x])) <==>
      ((c != x && c in h.messages && ParentOf(h.messages[c]) == ParentOf(h.messages[x]))
        || c in LiveGrandchildren(h.messages, LiveChildren(h.messages, x)))
  {
    ForestDeleted(h, x);
    if c in Remaining(h.messages, x) {
      ForestParentAfter(h, x, c);
    }
    if c in LiveGrandchildren(h.messages, LiveChildren(h.messages, x)) {
      GrandchildLands(h, x, rank, c);
    }
    if c in h.messages && ParentOf(h.messages[c]) == ParentOf(h.messages[x]) == Some(x) {
      RankStep(h, rank, x);
    }
  }

  /** The deleted message's parent lists its other children, then the grandchildren. */
  lemma ParentListAfter(h: Hist, x: Id, rank: map<Id, nat>)
    requires Forest(h) && x in h.messages && Ranked(Links(h.messages), rank)
    requires ParentOf(h.messages[x]).Some?
    ensures var k := ParentOf(h.messages[x]).value;
      var after := Remaining(h.messages, x);
      && k in after
      && Distinct(Children(after[k]))
      && forall c :: c in Children(after[k]) <==> c in after && ParentOf(after[c]) == Some(k)
  {
    var k, after := ParentOf(h.messages[x]).value, Remaining(h.messages, x);
    ParentSurvives(h, x, rank);
    ChildrenAfter(h, x, k);
    var listed := Children(h.messages[k]);
    var others := Keep(listed, Elements(listed) - {x});
    var grand := LiveGrandchildren(h.messages, LiveChildren(h.messages, x));
    KeepMembers(listed, Elements(listed) - {x});
    KeepDistinct(listed, Elements(listed) - {x});
    KeepDistinct(Children(h.messages[x]), h.messages.Keys);
    GrandchildrenDistinct(h, LiveChildren(h.messages, x));
    forall g | g in grand
      ensures g !in others
    {
      GrandchildLands(h, x, rank, g);
    }
    DistinctAppend(others, grand);
    forall c
      ensures c in others + grand <==> c in after && ParentOf(after[c]) == Some(k)
    {
      NamesParentAfter(h, x, rank, c);
    }
  }

  /** Deletion keeps lineages, up to the ids deleted. */
  lemma DeleteKeepsLineages(h: Hist, x: Id)
    requires Forest(h)
    ensures Acyclic(Links(Deleted(h, x).messages))
    ensures forall k :: k in Deleted(h, x).messages ==>
      Lineage(Links(Deleted(h, x).messages), k, {}) ==
      Keep(Lineage(Links(h.messages), k, {}), Deleted(h, x).messages.Keys)
  {
    var p, q := Links(h.messages), Links(Deleted(h, x).messages);
    assert q.Keys == Deleted(h, x).messages.Keys;
    if x !in h.messages {
      forall k | k in h.messages
        ensures Keep(Lineage(p, k, {}), h.messages.Keys) == Lineage(p, k, {})
      {
        KeepAll(Lineage(p, k, {}), h.messages.Keys);
      }
    } else {
      var rank :| Ranked(p, rank);
      DeleteContracts(h, x, rank);
      ContractionRanked(p, rank, DeletedIds(h.messages, x), q);
      forall k | k in q
        ensures Lineage(q, k, {}) == Keep(Lineage(p, k, {}), q.Keys)
      {
        ContractionLineage(p, rank, DeletedIds(h.messages, x), q, k);
      }
    }
  }

  /** Deleting from a consistent history removes exactly the message and its direct children,
      leaves a consistent history, keeps every survivor's other fields, and turns each survivor's
      lineage into the old one with the deleted ids dropped. */
  lemma DeleteKeepsForest(h: Hist, x: Id)
    requires Forest(h)
    ensures Forest(Deleted(h, x))
    ensures var after, gone := Deleted(h, x), DeletedIds(h.messages, x);
      && (x in h.messages ==> gone == {x} + set k | k in h.messages && ParentOf(h.messages[k]) == Some(x))
      && after.messages.Keys == h.messages.Keys - gone
      && after.keys == Keep(h.keys, after.messages.Keys)
      && forall k :: k in after.messages ==>
        && Body(after.messages[k]) == Body(h.messages[k])
        && Lineage(Links(after.messages), k, {}) == Keep(Lineage(Links(h.messages), k, {}), after.messages.Keys)
  {
    DeleteKeepsLineages(h, x);
    DeleteKeepsBodies(h, x);
    if x !in h.messages {
      KeepAll(h.keys, h.messages.Keys);
    } else {
      var rank :| Ranked(Links(h.messages), rank);
      ForestDeleted(h, x);
      DeleteContracts(h, x, rank);
      DeleteKeepsTwoSided(h, x, rank);
    }
  }

  // ------------------------------------------------------------------ the current id

  /** From an existing message of a consistent history the walk ends at a leaf of its subtree. */
  lemma {:induction false} WalkReachesLeaf(h: Hist, rank: map<Id, nat>, k: Id, visited: set<Id>)
    requires Forest(h) && Ranked(Links(h.messages), rank) && k in h.messages
    requires forall v :: v in visited ==> v in h.messages && rank[v] <= rank[k]
    ensures var end := WalkDown(h.messages, Some(k), Children(h.messages[k]), visited);
      && end.Some? && end.value in h.messages
      && Children(h.messages[end.value]) == []
      && k in Lineage(Links(h.messages), end.value, {})
    decreases h.messages.Keys - visited
  {
    LineageUnfold(Links(h.messages), rank, k);
    var childIds := Children(h.messages[k]);
    if childIds != [] {
      var next := childIds[|childIds| - 1];
      assert next in childIds;
      RankStep(h, rank, next);
      assert next in h.messages.Keys - visited;
      WalkReachesLeaf(h, rank, next, visited + {next});
      var end := WalkDown(h.messages, Some(next), Children(h.messages[next]), visited + {next}).value;
      LineageContainsAncestors(h, rank, k, next, end);
    }
  }

  /** Lineages are closed under parents. */
  lemma {:induction false} LineageContainsAncestors(h: Hist, rank: map<Id, nat>, k: Id, next: Id, end: Id)
    requires Forest(h) && Ranked(Links(h.messages), rank)
    requires k in h.messages && next in h.messages && end in h.messages
    requires ParentOf(h.messages[next]) == Some(k)
    requires next in Lineage(Links(h.messages), end, {})
    ensures k in Lineage(Links(h.messages), end, {})
    decreases rank[end]
  {
    var p := Links(h.messages);
    LineageUnfold(p, rank, end);
    if next == end {
      LineageUnfold(p, rank, k);
    } else {
      RankStep(h, rank, end);
      LineageContainsAncestors(h, rank, k, next, p[end].value);
    }
  }

  lemma RootMembers(h: Hist)
    requires Valid(h)
    ensures forall k :: k in Roots(h.keys, h.messages) <==> k in h.messages && ParentOf(h.messages[k]).None?
  {
    KeepMembers(h.keys, set k | k in h.messages && ParentOf(h.messages[k]).None?);
  }

  /** A nonempty consistent history has a root: climb from any message. */
  lemma ForestHasRoot(h: Hist)
    requires Forest(h) && h.messages.Keys != {}
    ensures Roots(h.keys, h.messages) != []
    ensures forall k :: k in Roots(h.keys, h.messages) <==> k in h.messages && ParentOf(h.messages[k]).None?
  {
    var rank :| Ranked(Links(h.messages), rank);
    var k :| k in h.messages;
    LineageIsChain(Links(h.messages), rank, k);
    var root := Lineage(Links(h.messages), k, {})[0];
    assert root in Lineage(Links(h.messages), k, {});
    assert ParentOf(h.messages[root]).None?;
    RootMembers(h);
    assert root in Roots(h.keys, h.messages);
  }

  lemma EmptyHasNoRoots(h: Hist)
    requires Valid(h)
    ensures h.messages.Keys == {} ==> Roots(h.keys, h.messages) == []
  {
    RootMembers(h);
    var roots := Roots(h.keys, h.messages);
    assert roots != [] ==> roots[0] in roots;
  }

  lemma WalkEnters(messages: map<Id, Message>, childIds: seq<Id>, next: Id)
    requires childIds != [] && next == childIds[|childIds| - 1] && next in messages
    ensures WalkDown(messages, None, childIds, {}) ==
      WalkDown(messages, Some(next), Children(messages[next]), {next})
  {
    assert {} + {next} == {next};
  }

  lemma LastRootReachesLeaf(h: Hist, rank: map<Id, nat>)
    requires Forest(h) && h.messages.Keys != {} && Ranked(Links(h.messages), rank)
    ensures var end := WalkDown(h.messages, None, Roots(h.keys, h.messages), {});
      end.Some? && end.value in h.messages && Children(h.messages[end.value]) == []
  {
    ForestHasRoot(h);
    var roots := Roots(h.keys, h.messages);
    var next := roots[|roots| - 1];
    assert next in roots;
    WalkEnters(h.messages, roots, next);
    WalkReachesLeaf(h, rank, next, {next});
  }

  /** On a consistent history the landing point is a leaf, below `parent` when there is one, and
      missing exactly when the history is empty. */
  lemma LandingIsLeaf(h: Hist, parent: Option<Id>)
    requires Forest(h) && (parent.Some? ==> parent.value in h.messages)
    ensures var end := Landing(h.keys, h.messages, parent);
      && (end.None? <==> h.messages.Keys == {})
      && (end.Some? ==> end.value in h.messages && Children(h.messages[end.value]) == [])
      && (end.Some? && parent.Some? ==> parent.value in Lineage(Links(h.messages), end.value, {}))
  {
    var rank :| Ranked(Links(h.messages), rank);
    if parent.Some? {
      WalkReachesLeaf(h, rank, parent.value, {});
    } else if h.messages.Keys == {} {
      EmptyHasNoRoots(h);
    } else {
      LastRootReachesLeaf(h, rank);
    }
  }

  /** After a deletion the current id is a leaf in the subtree of the deleted message's parent, when
      there is one, and is missing exactly when no message remains. */
  lemma DeleteMovesPointer(h: Hist, x: Id)
    requires Forest(h) && x in h.messages
    ensures var after, parent := Deleted(h, x), ParentOf(h.messages[x]);
      && (after.currentId.None? <==> after.messages.Keys == {})
      && (after.currentId.Some? ==>
        && after.currentId.value in after.messages
        && Children(after.messages[after.currentId.value]) == []
        && (parent.Some? ==> parent.value in Lineage(Links(after.messages), after.currentId.value, {})))
  {
    var rank :| Ranked(Links(h.messages), rank);
    DeleteKeepsForest(h, x);
    if ParentOf(h.messages[x]).Some? {
      ParentSurvives(h, x, rank);
    }
    LandingIsLeaf(Deleted(h, x), ParentOf(h.messages[x]));
  }
}
