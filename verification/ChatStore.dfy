/** Chats and their two stored copies of the messages: the history in the chat, and the rows of
    the message table (chats.py, insert_new_chat, update_chat_by_id,
    upsert_message_to_chat_by_id_and_message_id, delete_message_from_chat_by_id_and_message_id). */
module ChatStore {
  import opened Collections
  import opened ParentForest
  import opened Messages
  import opened HistoryMerge
  import opened HistoryDelete
  import opened HistoryPointer
  import opened HistoryUpsert
  import opened ChatHistory
  import opened ChatRows

  datatype Store = Store(chats: map<Id, Hist>, rows: map<string, Row>)

  // ------------------------------------------------------------------ the steps

  /** Rows after writing every message of `h` that has a role. */
  function Backfilled(rows: map<string, Row>, chatId: Id, h: Hist): map<string, Row> {
    var keys := Keep(h.keys, Writable(h.messages));
    KeepMembers(h.keys, Writable(h.messages));
    AllWritten(rows, chatId, keys, h.messages)
  }

  lemma AllWrittenStep(rows: map<string, Row>, chatId: Id, keys: seq<Id>, k: Id, messages: map<Id, Message>)
    requires k in messages && forall x :: x in keys ==> x in messages
    ensures AllWritten(rows, chatId, keys + [k], messages) ==
      Written(AllWritten(rows, chatId, keys, messages), chatId, k, messages[k])
  {
    assert (keys + [k])[..|keys|] == keys;
  }

  function Inserted(s: Store, chatId: Id, h: Hist): Store {
    if chatId in s.chats then s
    else Store(s.chats[chatId := h], Backfilled(s.rows, chatId, h))
  }

  /** A client saves its copy of the history: merge, then write all messages to the table. */
  function Saved(s: Store, chatId: Id, incoming: Copy): Store {
    if chatId !in s.chats then s
    else
      var h := Merged(CopyOf(s.chats[chatId]), incoming);
      Store(s.chats[chatId := h], Backfilled(s.rows, chatId, h))
  }

  function MessageUpserted(s: Store, chatId: Id, messageId: Id, message: Message, now: int): Store
    requires StoreValid(s)
  {
    if chatId !in s.chats then s
    else
      match Upserted(Repaired(s.chats[chatId]), messageId, message, now)
      case None => s
      case Some(h) => Store(s.chats[chatId := h], Written(s.rows, chatId, messageId, h.messages[messageId]))
  }

  function MessageDeleted(s: Store, chatId: Id, messageId: Id): Store
    requires StoreValid(s)
  {
    if chatId !in s.chats then s
    else
      var before := Repaired(s.chats[chatId]);
      var gone := DeletedIds(before.messages, messageId);
      if gone == {} then s.(chats := s.chats[chatId := before])
      else
        var h := Deleted(before, messageId);
        Store(s.chats[chatId := h], RowsWithout(Backfilled(s.rows, chatId, h), chatId, gone))
  }

  /** The parents named but absent from a message map (get_unresolved_parent_ids). */
  function UnresolvedParents(messages: map<Id, Message>): set<Id> {
    set k | k in messages && NamedParent(messages[k]).Some? && NamedParent(messages[k]).value !in messages ::
      NamedParent(messages[k]).value
  }

  function Restricted(messages: map<Id, Message>, ids: set<Id>): map<Id, Message> {
    map k | k in messages && k in ids :: messages[k]
  }

  /** The stored messages that would fill the gaps of what was read. */
  function MissingMessages(read: map<Id, Message>, stored: map<Id, Message>): set<Id> {
    UnresolvedParents(read) * stored.Keys
  }

  /** Rows after writing those messages of `ids` that have a role. */
  function BackfilledIds(rows: map<string, Row>, chatId: Id, h: Hist, ids: set<Id>): map<string, Row> {
    var keys := Keep(h.keys, ids * Writable(h.messages));
    KeepMembers(h.keys, ids * Writable(h.messages));
    AllWritten(rows, chatId, keys, h.messages)
  }

  /** The rows after a read of the message map: gaps found in the rows, or a chat without rows,
      are written back from the stored history. */
  function HealedRows(s: Store, chatId: Id, order: seq<string>): map<string, Row>
    requires forall r :: r in order ==> r in s.rows
  {
    if chatId !in s.chats then s.rows
    else
      var h := s.chats[chatId];
      BackfilledIds(s.rows, chatId, h,
        if order == [] then h.messages.Keys
        else MissingMessages(ReadBack(s.rows, chatId, order).messages, h.messages))
  }

  /** The messages a read returns: the rows' records and the stored messages filling their gaps,
      or the stored history when there is no row. */
  function ReadMessages(s: Store, chatId: Id, order: seq<string>): Option<map<Id, Message>>
    requires forall r :: r in order ==> r in s.rows
  {
    if order != [] then
      var read := ReadBack(s.rows, chatId, order).messages;
      if chatId !in s.chats then Some(read)
      else
        var stored := s.chats[chatId].messages;
        Some(read + Restricted(stored, MissingMessages(read, stored)))
    else if chatId in s.chats then Some(s.chats[chatId].messages)
    else None
  }

  ghost predicate StoreValid(s: Store) {
    forall c :: c in s.chats ==> Valid(s.chats[c])
  }

  class Chats {
    var chats: map<Id, Hist>
    const table: ChatMessageTable

    constructor ()
      ensures View() == Store(map[], map[])
      ensures fresh(table)
    {
      chats := map[];
      table := new ChatMessageTable();
    }

    function View(): Store
      reads this, table
    {
      Store(chats, table.rows)
    }

    method InsertNewChat(chatId: Id, h: Hist) returns (ok: bool)
      requires Valid(h)
      modifies this, table
      ensures View() == Inserted(old(View()), chatId, h)
      ensures ok <==> chatId !in old(chats)
    {
      if chatId in chats {
        return false;
      }
      chats := chats[chatId := h];
      WriteInitialMessages(chatId, h);
      return true;
    }

    /** The messages with a role, written one at a time. */
    method WriteInitialMessages(chatId: Id, h: Hist)
      requires Valid(h)
      modifies table
      ensures table.rows == Backfilled(old(table.rows), chatId, h)
    {
      ghost var before, writable := table.rows, Writable(h.messages);
      for i := 0 to |h.keys|
        invariant forall k :: k in Keep(h.keys[..i], writable) ==> k in h.messages
        invariant table.rows == AllWritten(before, chatId, Keep(h.keys[..i], writable), h.messages)
      {
        var k := h.keys[i];
        assert k in h.keys;
        KeepStep(h.keys, i, writable);
        if Truthy(h.messages[k].role) {
          AllWrittenStep(before, chatId, Keep(h.keys[..i], writable), k, h.messages);
          var _ := table.UpsertMessage(k, chatId, h.messages[k]);
        } else {
          assert Keep(h.keys[..i], writable) + [] == Keep(h.keys[..i], writable);
        }
      }
      assert h.keys[..|h.keys|] == h.keys;
    }

    method Backfill(chatId: Id, h: Hist)
      requires Valid(h)
      modifies table
      ensures table.rows == Backfilled(old(table.rows), chatId, h)
    {
      var keys := Select(h.keys, Writable(h.messages));
      KeepMembers(h.keys, Writable(h.messages));
      KeepDistinct(h.keys, Writable(h.messages));
      var _ := table.UpsertMessages(chatId, keys, h.messages);
    }

    method SaveHistory(chatId: Id, incoming: Copy)
      requires StoreValid(View()) && ValidCopy(incoming)
      modifies this, table
      ensures View() == Saved(old(View()), chatId, incoming)
    {
      if chatId !in chats {
        return;
      }
      var stored := CopyOf(chats[chatId]);
      assert ValidCopy(stored) by {
        CopyIsCopy(chats[chatId]);
      }
      var h := MergeHistory(stored, incoming);
      assert Valid(h) by {
        MergeRebuildsLinks(stored, incoming);
      }
      chats := chats[chatId := h];
      Backfill(chatId, h);
    }

    method UpsertMessage(chatId: Id, messageId: Id, message: Message, now: int)
      requires StoreValid(View())
      modifies this, table
      ensures View() == MessageUpserted(old(View()), chatId, messageId, message, now)
    {
      if chatId !in chats {
        return;
      }
      var history := new History(chats[chatId]);
      var _ := history.RepairCurrentId();
      var saved := history.UpsertMessage(messageId, message, now);
      if saved.None? {
        return;
      }
      chats := chats[chatId := history.View()];
      var _ := table.UpsertMessage(messageId, chatId, saved.value);
    }

    method DeleteMessage(chatId: Id, messageId: Id)
      requires StoreValid(View())
      modifies this, table
      ensures View() == MessageDeleted(old(View()), chatId, messageId)
    {
      if chatId !in chats {
        return;
      }
      var history := new History(chats[chatId]);
      var _ := history.RepairCurrentId();
      DeleteKeepsBodies(history.View(), messageId);
      var deletedIds := history.DeleteMessage(messageId);
      chats := chats[chatId := history.View()];
      if deletedIds == {} {
        return;
      }
      Backfill(chatId, history.View());
      table.DeleteMessageIds(chatId, deletedIds);
    }

    /** The message map for walking a chat: from its rows, with gaps filled and written back from
        the stored history; from the stored history when there is no row. `result` lists the
        chat's rows in the order the database returned them. */
    method GetMessagesMapByChatId(chatId: Id, result: seq<string>) returns (messages: Option<map<Id, Message>>)
      requires StoreValid(View()) && ResultSet(table.rows, chatId, result)
      modifies table
      ensures forall r :: r in result ==> r in old(table.rows)
      ensures messages == ReadMessages(old(View()), chatId, result)
      ensures View() == Store(old(chats), HealedRows(old(View()), chatId, result))
    {
      var read := table.GetMessagesMap(chatId, result);
      if read.Some? {
        messages := Some(read.value.messages);
        var unresolved := UnresolvedParents(read.value.messages);
        if chatId in chats {
          var h := chats[chatId];
          var missing := unresolved * h.messages.Keys;
          if missing != {} {
            messages := Some(read.value.messages + Restricted(h.messages, missing));
          } else {
            assert Restricted(h.messages, missing) == map[];
            assert read.value.messages + map[] == read.value.messages;
          }
          BackfillIds(chatId, h, missing);
        }
        return;
      }
      if chatId !in chats {
        return None;
      }
      messages := Some(chats[chatId].messages);
      BackfillIds(chatId, chats[chatId], chats[chatId].messages.Keys);
    }

    method BackfillIds(chatId: Id, h: Hist, ids: set<Id>)
      requires Valid(h)
      modifies table
      ensures table.rows == BackfilledIds(old(table.rows), chatId, h, ids)
    {
      var keys := Select(h.keys, ids * Writable(h.messages));
      KeepMembers(h.keys, ids * Writable(h.messages));
      KeepDistinct(h.keys, ids * Writable(h.messages));
      var _ := table.UpsertMessages(chatId, keys, h.messages);
    }
  }
}
