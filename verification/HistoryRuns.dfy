/** Runs of edits of one chat history (chats.py): upserts leave children lists behind, so between
    merges only the parents are sound; when each edit keeps them so, and where consistency returns. */
module HistoryRuns {
  import opened Collections
  import opened ParentForest
  import opened Messages
  import opened HistoryMerge
  import opened MergeForest
  import opened HistoryDelete
  import opened HistoryPointer
  import opened HistoryUpsert

  // ------------------------------------------------------------------ deletions

  /** The lists around `x` cover the messages naming the ids that go, and none of the messages handed
      to its parent is above that parent. */
  ghost predicate DeletesSoundly(messages: map<Id, Message>, x: Id)
    requires x in messages
  {
    && ListsItsSubtree(messages, x)
    && forall g :: g in HandedUp(messages, x) ==> g !in LineageOf(Links(messages), ParentOf(messages[x]))
  }

  lemma SoundNames(messages: map<Id, Message>, k: Id)
    requires "" !in messages && Resolved(messages) && k in messages
    ensures Links(messages)[k] == ParentOf(messages[k])
    ensures Links(messages)[k].Some? ==> Links(messages)[k].value in messages
  {
    assert ParentOf(messages[k]).Some? ==> ParentOf(messages[k]).value in messages;
  }

  lemma DeleteReparents(messages: map<Id, Message>, x: Id)
    requires x in messages && "" !in messages && Resolved(messages) && Resolved(Remaining(messages, x))
    ensures Reparented(Links(messages), HandedUp(messages, x), ParentOf(messages[x]), Links(Remaining(messages, x)))
  {
    var after := Remaining(messages, x);
    GrandchildMembers(messages, LiveChildren(messages, x));
    KeepMembers(Children(messages[x]), messages.Keys);
    forall k | k in after
      ensures Links(after)[k] == if k in HandedUp(messages, x) then ParentOf(messages[x]) else Links(messages)[k]
      ensures Links(after)[k].Some? ==> Links(after)[k].value in after
    {
      SoundNames(messages, k);
      SoundNames(after, k);
      ParentAfter(messages, x, k);
    }
  }

  /** On every history with sound parents, whatever its children lists, a deletion keeps the parents
      sound exactly when the lists around the message cover its subtree and hand up no message from
      above it. */
  lemma DeleteSoundIff(h: Hist, x: Id)
    requires SoundParents(h) && x in h.messages
    ensures SoundParents(Deleted(h, x)) <==> DeletesSoundly(h.messages, x)
  {
    var after := Deleted(h, x);
    DeleteKeepsBodies(h, x);
    DeleteDanglesIff(h, x);
    if Resolved(after.messages) {
      DeleteReparents(h.messages, x);
      ReparentAcyclicIff(Links(h.messages), HandedUp(h.messages, x), ParentOf(h.messages[x]), Links(after.messages));
    }
  }

  /** `x` replies to `a` and lists `y`, and the stale list of `y` names `a`: deleting `x` makes `a` its
      own parent. */
  lemma StaleListMakesCycle(h: Hist, a: Id, x: Id, y: Id)
    requires SoundParents(h) && {a, x, y} <= h.messages.Keys && a != x && a != y && x != y
    requires ParentOf(h.messages[x]) == Some(a)
    requires Children(h.messages[x]) == [y] && Children(h.messages[y]) == [a]
    ensures !SoundParents(Deleted(h, x))
  {
    ListedTwiceDown(h.messages, a, x, y);
    InOwnLineage(Links(h.messages), a);
    DeleteSoundIff(h, x);
  }

  lemma ListedTwiceDown(messages: map<Id, Message>, a: Id, x: Id, y: Id)
    requires {a, x, y} <= messages.Keys && a != x && a != y && x != y
    requires Children(messages[x]) == [y] && Children(messages[y]) == [a]
    ensures a in HandedUp(messages, x)
  {
    KeepMembers([y], messages.Keys);
    GrandchildMembers(messages, LiveChildren(messages, x));
    assert y in LiveChildren(messages, x) && a in Children(messages[y]);
  }

  lemma InOwnLineage(p: Parents, k: Id)
    requires Acyclic(p) && k in p
    ensures k in Lineage(p, k, {})
  {
    var rank :| Ranked(p, rank);
    LineageUnfold(p, rank, k);
  }

  /** A chain of three messages, the last one's list patched to name the first. */
  function LoopedList(a: Id, x: Id, y: Id, m: Message): Hist {
    Hist([a, x, y], map[
      a := m.(parentId := Null, childrenIds := Is([x])),
      x := m.(parentId := Is(a), childrenIds := Is([y])),
      y := m.(parentId := Is(x), childrenIds := Is([a]))], Some(y))
  }

  lemma ChainAcyclic(p: Parents, a: Id, x: Id, y: Id)
    requires a != x && a != y && x != y && p == map[a := None, x := Some(a), y := Some(x)]
    ensures Acyclic(p)
  {
    assert Ranked(p, map[a := 0, x := 1, y := 2]);
  }

  lemma ChainResolved(messages: map<Id, Message>, a: Id, x: Id, y: Id)
    requires messages.Keys == {a, x, y}
    requires ParentOf(messages[a]) == None && ParentOf(messages[x]) == Some(a) && ParentOf(messages[y]) == Some(x)
    ensures Resolved(messages)
  {
  }

  lemma LoopedListSound(a: Id, x: Id, y: Id, m: Message)
    requires a != x && a != y && x != y && a != "" && x != "" && y != ""
    ensures SoundParents(LoopedList(a, x, y, m))
  {
    var h := LoopedList(a, x, y, m);
    var messages := h.messages;
    assert ParentOf(messages[a]) == None && ParentOf(messages[x]) == Some(a) && ParentOf(messages[y]) == Some(x);
    assert NamedParent(messages[a]) == None;
    assert NamedParent(messages[x]) == Some(a) && NamedParent(messages[y]) == Some(x);
    ChainAcyclic(Links(messages), a, x, y);
    ChainResolved(messages, a, x, y);
  }

  lemma DeleteMakesCycle(a: Id, x: Id, y: Id, m: Message)
    requires a != x && a != y && x != y && a != "" && x != "" && y != ""
    ensures SoundParents(LoopedList(a, x, y, m)) && !SoundParents(Deleted(LoopedList(a, x, y, m), x))
  {
    LoopedListSound(a, x, y, m);
    StaleListMakesCycle(LoopedList(a, x, y, m), a, x, y);
  }

  // ------------------------------------------------------------------ upserts

  /** A new message has a nonempty id and names a stored parent or none; a patch leaves the parent
      alone, clears it, or names a stored message that is not the patched one nor below it. */
  ghost predicate UpsertsSoundly(h: Hist, messageId: Id, message: Message) {
    if messageId in h.messages then
      || message.parentId.Absent? || ParentOf(message).None?
      || (ParentOf(message).value in h.messages && messageId !in LineageOf(Links(h.messages), ParentOf(message)))
    else
      messageId != "" && (ParentOf(message).Some? ==> ParentOf(message).value in h.messages)
  }

  lemma PatchReparents(h: Hist, messageId: Id, after: map<Id, Message>)
    requires SoundParents(h) && messageId in h.messages && messageId in after && Resolved(after)
    requires after == h.messages[messageId := after[messageId]]
    ensures Reparented(Links(h.messages), {messageId}, ParentOf(after[messageId]), Links(after))
  {
    forall k | k in after
      ensures Links(after)[k] == if k == messageId then ParentOf(after[messageId]) else Links(h.messages)[k]
      ensures Links(after)[k].Some? ==> Links(after)[k].value in after
    {
      SoundNames(h.messages, k);
      SoundNames(after, k);
    }
  }

  lemma PatchResolvedIff(h: Hist, messageId: Id, after: map<Id, Message>)
    requires SoundParents(h) && messageId in h.messages && messageId in after
    requires after == h.messages[messageId := after[messageId]]
    ensures Resolved(after) <==> (ParentOf(after[messageId]).Some? ==> ParentOf(after[messageId]).value in h.messages)
  {
    if ParentOf(after[messageId]).Some? ==> ParentOf(after[messageId]).value in h.messages {
      forall k | k in after
        ensures ParentOf(after[k]).Some? ==> ParentOf(after[k]).value in after
      {
        SoundNames(h.messages, k);
      }
    }
  }

  /** No node is on the way from its parent to a root. */
  lemma NotAboveItself(p: Parents, k: Id)
    requires Acyclic(p) && k in p
    ensures k !in LineageOf(p, p[k])
  {
    var rank :| Ranked(p, rank);
    if p[k].Some? {
      LineageRanksBelow(p, rank, p[k].value);
    }
  }

  lemma {:induction false} LineageRanksBelow(p: Parents, rank: map<Id, nat>, k: Id)
    requires Ranked(p, rank)
    ensures forall a :: a in Lineage(p, k, {}) ==> k in p && rank[a] <= rank[k]
    decreases if k in p then rank[k] + 1 else 0
  {
    if k in p {
      LineageUnfold(p, rank, k);
      if p[k].Some? {
        LineageRanksBelow(p, rank, p[k].value);
      }
    }
  }

  lemma PatchSoundIff(h: Hist, messageId: Id, message: Message, now: int)
    requires SoundParents(h) && messageId in h.messages
    ensures Upserted(h, messageId, message, now).Some?
    ensures SoundParents(Upserted(h, messageId, message, now).value) <==> UpsertsSoundly(h, messageId, message)
  {
    UpsertTouchesOneMessage(h, messageId, message, now);
    var after := Upserted(h, messageId, message, now).value.messages;
    PatchResolvedIff(h, messageId, after);
    SoundNames(h.messages, messageId);
    NotAboveItself(Links(h.messages), messageId);
    if Resolved(after) {
      PatchReparents(h, messageId, after);
      ReparentAcyclicIff(Links(h.messages), {messageId}, ParentOf(after[messageId]), Links(after));
    }
  }

  lemma NewSoundIff(h: Hist, messageId: Id, message: Message, now: int)
    requires SoundParents(h) && messageId !in h.messages && Upserted(h, messageId, message, now).Some?
    ensures SoundParents(Upserted(h, messageId, message, now).value) <==> UpsertsSoundly(h, messageId, message)
  {
    UpsertTouchesOneMessage(h, messageId, message, now);
    ListerIsFirst(h.keys, h.messages, messageId);
    var after := Upserted(h, messageId, message, now).value.messages;
    var m := after[messageId];
    assert after == h.messages[messageId := m];
    if ParentOf(m).Some? ==> ParentOf(m).value in h.messages {
      LeafKeepsResolvedAcyclic(h.messages, messageId, m);
    } else if ParentOf(m) == Some(messageId) {
      SelfParentCyclic(after, messageId);
    }
  }

  lemma SelfParentCyclic(messages: map<Id, Message>, k: Id)
    requires k in messages && ParentOf(messages[k]) == Some(k)
    ensures k != "" ==> !Acyclic(Links(messages))
  {
    if k != "" {
      assert Links(messages)[k] == Some(k);
    }
  }

  /** On every history with sound parents an upsert that does not raise keeps them sound exactly when
      the parent it names is stored and not at or below the message itself. */
  lemma UpsertSoundIff(h: Hist, messageId: Id, message: Message, now: int)
    requires SoundParents(h) && Upserted(h, messageId, message, now).Some?
    ensures SoundParents(Upserted(h, messageId, message, now).value) <==> UpsertsSoundly(h, messageId, message)
  {
    if messageId in h.messages {
      PatchSoundIff(h, messageId, message, now);
    } else {
      NewSoundIff(h, messageId, message, now);
    }
  }

  // ------------------------------------------------------------------ runs of edits

  /** What clients and the server do to a history: save a copy, stale or not, which merges; add or
      patch one message; delete a message; repair the current id. */
  datatype Edit =
    | Save(incoming: Hist)
    | Upsert(messageId: Id, message: Message, now: int)
    | Delete(messageId: Id)
    | Repair

  ghost predicate Admissible(h: Hist, e: Edit) {
    match e
    case Save(incoming) => SoundParents(incoming)
    case Upsert(messageId, message, now) =>
      Upserted(h, messageId, message, now).Some? ==> UpsertsSoundly(h, messageId, message)
    case Delete(x) => x in h.messages ==> DeletesSoundly(h.messages, x)
    case Repair => true
  }

  function Edited(h: Hist, e: Edit): Hist
    requires Valid(h)
  {
    match e
    case Save(incoming) => Merged(CopyOf(h), CopyOf(incoming))
    case Upsert(id, message, now) =>
      (match Upserted(h, id, message, now)
       case None => h
       case Some(after) => after)
    case Delete(id) => Deleted(h, id)
    case Repair => Repaired(h)
  }

  /** A run: every edit is admissible where it happens, and the states follow one another. */
  ghost predicate IsRun(states: seq<Hist>, edits: seq<Edit>) {
    && |states| == |edits| + 1
    && forall i :: 0 <= i < |edits| ==>
      && Valid(states[i]) && Admissible(states[i], edits[i])
      && states[i + 1] == Edited(states[i], edits[i])
  }

  /** An edit other than a save keeps sound parents sound exactly when it is admissible; a save of a
      sound copy gives a consistent history; deleting from a consistent history and repairing it are
      always admissible and keep it consistent. */
  lemma EditSoundIff(h: Hist, e: Edit)
    requires SoundParents(h)
    ensures !e.Save? ==> (SoundParents(Edited(h, e)) <==> Admissible(h, e))
    ensures e.Save? && Admissible(h, e) ==> SoundParents(Edited(h, e)) && Forest(Edited(h, e))
    ensures (e.Delete? || e.Repair?) && Forest(h) ==> Admissible(h, e) && Forest(Edited(h, e))
  {
    match e
    case Save(incoming) =>
      if SoundParents(incoming) {
        MergeIsForest(h, incoming);
      }
    case Upsert(id, message, now) =>
      if Upserted(h, id, message, now).Some? {
        UpsertSoundIff(h, id, message, now);
      }
    case Delete(id) =>
      if id in h.messages {
        DeleteSoundIff(h, id);
        if Forest(h) {
          DeleteKeepsForest(h, id);
        }
      }
    case Repair =>
  }

  /** Over every run of edits from a history with sound parents the parents stay sound, every save
      leaves a consistent history, and it stays consistent up to the next upsert. */
  lemma {:induction false} RunsStaySound(states: seq<Hist>, edits: seq<Edit>)
    requires IsRun(states, edits) && SoundParents(states[0])
    ensures forall i :: 0 <= i < |states| ==> SoundParents(states[i])
    ensures forall i :: 0 <= i < |edits| && (edits[i].Save? || (!edits[i].Upsert? && Forest(states[i]))) ==>
      Forest(states[i + 1])
  {
    for i := 0 to |edits|
      invariant forall j :: 0 <= j <= i ==> SoundParents(states[j])
      invariant forall j :: 0 <= j < i && (edits[j].Save? || (!edits[j].Upsert? && Forest(states[j]))) ==>
        Forest(states[j + 1])
    {
      EditSoundIff(states[i], edits[i]);
    }
  }
}
