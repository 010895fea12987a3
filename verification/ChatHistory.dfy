/** The history of one chat as the object the chat code edits in place (chats.py), each method
    proved against the functions of the modules above; and what an upsert before a deletion does. */
module ChatHistory {
  import opened Collections
  import opened ParentForest
  import opened Messages
  import opened HistoryMerge
  import opened HistoryDelete
  import opened HistoryPointer
  import opened HistoryUpsert

  const BLANK := Message(Absent, Absent, Absent, Absent, Absent, Absent, Absent, Absent, map[])

  function Present(messages: map<Id, Message>): map<Id, Message> {
    map k | k in messages && messages[k] != BLANK :: messages[k]
  }

  class History {
    var keys: seq<Id>
    var messages: map<Id, Message>
    var currentId: Option<Id>

    constructor (h: Hist)
      ensures View() == h
    {
      keys, messages, currentId := h.keys, h.messages, h.currentId;
    }

    function View(): Hist
      reads this
    {
      Hist(keys, messages, currentId)
    }

    /** Moves the current id off a missing, unusable or compacted message. */
    method RepairCurrentId() returns (changed: bool)
      requires Valid(View())
      modifies this`currentId
      ensures View() == Repaired(old(View()))
      ensures changed <==> currentId != old(currentId)
    {
      if currentId.Some? && currentId.value in messages && Usable(View(), messages[currentId.value]) {
        if Truthy(messages[currentId.value].contextSummary) {
          var last := FindLastDescendant(messages, currentId.value);
          if last != currentId.value {
            currentId := Some(last);
            return true;
          }
        }
        return false;
      }
      var latest := FindLatestLeaf(keys, messages);
      if latest.None? || latest.value == "" || latest == currentId {
        return false;
      }
      currentId := latest;
      return true;
    }

    /** Adds or patches one message; returns the record stored, or None when the search for its
        parent raises, in which case nothing changes. */
    method UpsertMessage(messageId: Id, message: Message, now: int) returns (saved: Option<Message>)
      requires Valid(View())
      modifies this
      ensures match Upserted(old(View()), messageId, message, now)
        case None => saved.None? && View() == old(View())
        case Some(after) => View() == after && saved == Some(after.messages[messageId])
    {
      if messageId in messages {
        messages := messages[messageId := Patched(messages[messageId], message)];
        return Some(messages[messageId]);
      }
      var parentId := ParentOf(message);
      if parentId.None? {
        var lister := SearchLister(keys, messages, messageId);
        match lister
        case Raises => return None;
        case Lists(owner) => parentId := Some(owner);
        case Nobody =>
      }
      var stored := NewMessage(View(), messageId, message, parentId, now);
      keys := keys + [messageId];
      messages := messages[messageId := stored];
      currentId := Some(messageId);
      return Some(stored);
    }

    /** Deletes a message and its direct children, hands the grandchildren to its parent, and
        moves the current id. */
    method DeleteMessage(messageId: Id) returns (deletedIds: set<Id>)
      requires Valid(View())
      modifies this
      ensures View() == Deleted(old(View()), messageId)
      ensures deletedIds == DeletedIds(old(messages), messageId)
    {
      if messageId !in messages {
        return {};
      }
      var parentId := ParentOf(messages[messageId]);
      var childIds := Select(Children(messages[messageId]), messages.Keys);
      var grandIds := CollectGrandchildren(childIds);
      GrandchildMembers(messages, childIds);
      if parentId.Some? && parentId.value in messages {
        var parent := messages[parentId.value];
        var others := Select(Children(parent), Elements(Children(parent)) - {messageId});
        messages := messages[parentId.value := WithChildren(parent, others + grandIds)];
      }
      Regraft(grandIds, parentId);
      deletedIds := {messageId} + Elements(childIds);
      Pop(deletedIds);
      MoveBelow(parentId);
    }

    method CollectGrandchildren(childIds: seq<Id>) returns (grandIds: seq<Id>)
      ensures grandIds == LiveGrandchildren(messages, childIds)
    {
      grandIds := [];
      for i := 0 to |childIds|
        invariant grandIds == LiveGrandchildren(messages, childIds[..i])
      {
        assert childIds[..i + 1][..i] == childIds[..i];
        if childIds[i] in messages {
          var more := Select(Children(messages[childIds[i]]), messages.Keys);
          grandIds := grandIds + more;
        }
      }
      assert childIds[..|childIds|] == childIds;
    }

    method Regraft(grandIds: seq<Id>, parentId: Option<Id>)
      requires forall g :: g in grandIds ==> g in messages
      modifies this`messages
      ensures messages == Regrafted(old(messages), Elements(grandIds), parentId)
    {
      ghost var before := messages;
      assert Regrafted(before, Elements(grandIds[..0]), parentId) == before;
      for i := 0 to |grandIds|
        invariant messages == Regrafted(before, Elements(grandIds[..i]), parentId)
      {
        assert grandIds[i] in grandIds;
        assert Elements(grandIds[..i + 1]) == Elements(grandIds[..i]) + {grandIds[i]};
        messages := messages[grandIds[i] := messages[grandIds[i]].(parentId := ToField(parentId))];
      }
      assert grandIds[..|grandIds|] == grandIds;
    }

    /** Pops the ids one by one, in any order. */
    method Pop(deletedIds: set<Id>)
      requires forall k :: k in messages ==> k in keys
      requires forall k :: k in keys ==> k in messages
      modifies this`messages, this`keys
      ensures messages == old(messages) - deletedIds
      ensures keys == Keep(old(keys), messages.Keys)
    {
      ghost var before, order := messages, keys;
      var todo := deletedIds;
      KeepAll(keys, messages.Keys);
      while todo != {}
        invariant todo <= deletedIds
        invariant messages == before - (deletedIds - todo)
        invariant keys == Keep(order, messages.Keys)
        decreases todo
      {
        var k :| k in todo;
        PopStep(before, order, deletedIds, todo, k);
        todo := todo - {k};
        messages := messages - {k};
        keys := Select(keys, messages.Keys);
      }
      assert deletedIds - {} == deletedIds;
    }

    method MoveBelow(parentId: Option<Id>)
      modifies this`currentId
      ensures currentId == Landing(keys, messages, parentId)
    {
      var current := parentId;
      var childIds: seq<Id>;
      if parentId.None? {
        childIds := Select(keys, set k | k in messages && ParentOf(messages[k]).None?);
      } else {
        childIds := if parentId.value in messages then Children(messages[parentId.value]) else [];
      }
      var visited: set<Id> := {};
      while childIds != [] && childIds[|childIds| - 1] !in visited
        invariant WalkDown(messages, current, childIds, visited) == WalkDown(messages, parentId,
          if parentId.None? then Roots(keys, messages) else NextChildren(messages, parentId.value), {})
        decreases messages.Keys - visited, |childIds|
      {
        ghost var before := visited;
        var next := childIds[|childIds| - 1];
        current := Some(next);
        visited := visited + {next};
        childIds := if next in messages then Children(messages[next]) else [];
        assert next in messages ==> next in messages.Keys - before;
        assert next !in messages ==> messages.Keys - visited == messages.Keys - before;
      }
      currentId := if current.Some? && current.value in messages then current else None;
    }

    /** The ids from a root to `messageId` (backend/open_webui/utils/misc.py, get_message_list). A
        record without any key counts as missing. */
    method GetMessageList(messageId: Id) returns (path: seq<Id>)
      ensures path == Lineage(Links(Present(messages)), messageId, {})
      ensures (forall k :: k in messages ==> messages[k] != BLANK) ==> path == Lineage(Links(messages), messageId, {})
    {
      ghost var links := Links(Present(messages));
      path := [];
      var current := Some(messageId);
      var visited: set<Id> := {};
      while current.Some? && current.value in messages && messages[current.value] != BLANK && current.value !in visited
        invariant Lineage(links, messageId, {}) ==
          (if current.Some? then Lineage(links, current.value, visited) else []) + path
        decreases messages.Keys - visited
      {
        ghost var before := visited;
        visited := visited + {current.value};
        path := [current.value] + path;
        assert current.value in messages.Keys - before;
        current := NamedParent(messages[current.value]);
      }
      assert (forall k :: k in messages ==> messages[k] != BLANK) ==> Present(messages) == messages;
    }
  }

  lemma PopStep(before: map<Id, Message>, order: seq<Id>, gone: set<Id>, todo: set<Id>, k: Id)
    requires k in todo && todo <= gone
    ensures var left := before - (gone - todo);
      && left - {k} == before - (gone - (todo - {k}))
      && Keep(Keep(order, left.Keys), (left - {k}).Keys) == Keep(order, (left - {k}).Keys)
  {
    var left := before - (gone - todo);
    KeepTwice(order, left.Keys, (left - {k}).Keys);
    assert left.Keys * (left - {k}).Keys == (left - {k}).Keys;
  }

  // ------------------------------------------------------------------ an upsert, then a deletion

  /** Deleting the parent of a message just added, before a merge has rebuilt the lists, leaves the
      message naming a parent that is gone. */
  lemma UpsertThenDeleteDangles(h: Hist, messageId: Id, message: Message, now: int, parent: Id)
    requires Forest(h) && messageId != "" && messageId !in h.messages
    requires ParentOf(message) == Some(parent) && parent in h.messages
    requires Upserted(h, messageId, message, now).Some?
    ensures var after := Upserted(h, messageId, message, now).value;
      && Resolved(after.messages)
      && messageId in Deleted(after, parent).messages && parent !in Deleted(after, parent).messages
      && ParentOf(Deleted(after, parent).messages[messageId]) == Some(parent)
  {
    var after := Upserted(h, messageId, message, now).value;
    UpsertAddsOneSidedLink(h, messageId, message, now);
    UpsertTouchesOneMessage(h, messageId, message, now);
    assert after.messages[parent] == h.messages[parent];
    KeepMembers(Children(after.messages[parent]), after.messages.Keys);
    assert messageId !in LiveChildren(after.messages, parent);
    assert messageId in Remaining(after.messages, parent);
    forall c | c in Children(after.messages[parent]) && c in after.messages
      ensures messageId !in Children(after.messages[c])
    {
      assert c in h.messages && after.messages[c] == h.messages[c];
    }
    ParentAfter(after.messages, parent, messageId);
  }

  /** A chat of one message `a`, a reply `b` added to it, and `a` deleted. */
  lemma OneSidedLinkDangles(a: Id, b: Id, m: Message, reply: Message, now: int)
    requires a != b && a != "" && b != "" && reply.parentId == Is(a)
    ensures var h := Hist([a], map[a := m.(parentId := Null, childrenIds := Is([]))], Some(a));
      && Forest(h) && Upserted(h, b, reply, now).Some?
      && var after := Upserted(h, b, reply, now).value;
      && Resolved(after.messages) && !Resolved(Deleted(after, a).messages)
  {
    var h := Hist([a], map[a := m.(parentId := Null, childrenIds := Is([]))], Some(a));
    assert Ranked(Links(h.messages), map[a := 0]);
    UpsertThenDeleteDangles(h, b, reply, now, a);
  }
}
