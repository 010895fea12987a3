/** The second stored copy of the messages: one row per message, keyed by a composite id, with
    parent links only (backend/open_webui/models/chat_messages.py). */
module ChatRows {
  import opened Collections
  import opened ParentForest
  import opened Messages

  /** A row; `content` stands for the nullable columns copied from the message. */
  datatype Row = Row(chatId: Id, role: string, parentId: Option<Id>, content: Option<string>)

  // ------------------------------------------------------------------ composite ids

  function Composite(chatId: Id, messageId: Id): string {
    chatId + "-" + messageId
  }

  /** The message id of a row: its id without the chat prefix, or the whole id when the prefix is
      not there. */
  function MessageIdOf(chatId: Id, rowId: string): Id {
    if chatId + "-" <= rowId then rowId[|chatId| + 1..] else rowId
  }

  lemma CompositeRoundTrip(chatId: Id, messageId: Id)
    ensures MessageIdOf(chatId, Composite(chatId, messageId)) == messageId
  {
  }

  lemma PrefixedIsComposite(chatId: Id, rowId: string)
    requires chatId + "-" <= rowId
    ensures rowId == Composite(chatId, MessageIdOf(chatId, rowId))
  {
  }

  lemma CompositeInjective(chatId: Id, m: Id, n: Id)
    requires Composite(chatId, m) == Composite(chatId, n)
    ensures m == n
  {
    CompositeRoundTrip(chatId, m);
    CompositeRoundTrip(chatId, n);
  }

  /** Neither chat id, followed by the separator, begins the other. */
  predicate Apart(c: Id, d: Id) {
    !(c + "-" <= d + "-") && !(d + "-" <= c + "-")
  }

  lemma SharedPrefix(c: Id, d: Id, rowId: string)
    requires c + "-" <= rowId && d + "-" <= rowId
    ensures !Apart(c, d)
  {
    if |c| <= |d| {
      assert (d + "-")[..|c| + 1] == rowId[..|c| + 1] == c + "-";
    } else {
      assert (c + "-")[..|d| + 1] == rowId[..|d| + 1] == d + "-";
    }
  }

  /** Two chats can write the same row id exactly when one chat id with its separator begins the
      other. */
  lemma CompositeCollidesIff(c: Id, d: Id)
    ensures (exists m, n :: Composite(c, m) == Composite(d, n)) <==> !Apart(c, d)
  {
    if c + "-" <= d + "-" {
      var m := (d + "-")[|c| + 1..];
      assert Composite(c, m) == d + "-" == Composite(d, "");
    } else if d + "-" <= c + "-" {
      var n := (c + "-")[|d| + 1..];
      assert Composite(c, "") == c + "-" == Composite(d, n);
    }
    forall m, n | Composite(c, m) == Composite(d, n)
      ensures !Apart(c, d)
    {
      SharedPrefix(c, d, Composite(c, m));
    }
  }

  /** Message `b-x` of chat `a` and message `x` of chat `a-b` share a row. */
  lemma CompositeCollision()
    ensures Composite("a", "b-x") == Composite("a-b", "x") && !Apart("a", "a-b")
  {
    CompositeCollidesIff("a", "a-b");
  }

  // ------------------------------------------------------------------ writing

  /** `_apply_message_data`: overwrite only what the payload carries. None stands for the refused
      write of a null role. */
  function Applied(row: Row, data: Message): Option<Row> {
    if data.role.Null? then None
    else Some(Row(
      row.chatId,
      if data.role.Is? then data.role.value else row.role,
      if data.parentId.Absent? then row.parentId else Get(data.parentId),
      if data.content.Absent? then row.content else Get(data.content)))
  }

  /** `_build_message`. */
  function Built(chatId: Id, data: Message): Option<Row> {
    if data.role.Null? then None
    else Some(Row(chatId, if data.role.Is? then data.role.value else "user", Get(data.parentId), Get(data.content)))
  }

  function RowAfter(rows: map<string, Row>, chatId: Id, messageId: Id, data: Message): Option<Row> {
    if Composite(chatId, messageId) in rows then Applied(rows[Composite(chatId, messageId)], data)
    else Built(chatId, data)
  }

  /** One message written; a refused write changes nothing. */
  function Written(rows: map<string, Row>, chatId: Id, messageId: Id, data: Message): map<string, Row> {
    match RowAfter(rows, chatId, messageId, data)
    case None => rows
    case Some(row) => rows[Composite(chatId, messageId) := row]
  }

  /** The messages worth writing: those with a role. */
  function Writable(messages: map<Id, Message>): set<Id> {
    set k | k in messages && Truthy(messages[k].role)
  }

  /** Several messages written in one go. */
  function AllWritten(rows: map<string, Row>, chatId: Id, keys: seq<Id>, messages: map<Id, Message>): map<string, Row>
    requires forall k :: k in keys ==> k in messages
  {
    if keys == [] then rows
    else
      assert forall k :: k in keys[..|keys| - 1] ==> k in keys;
      var front, last := keys[..|keys| - 1], keys[|keys| - 1];
      Written(AllWritten(rows, chatId, front, messages), chatId, last, messages[last])
  }

  function RowsWithout(rows: map<string, Row>, chatId: Id, ids: set<Id>): map<string, Row> {
    map r | r in rows && !(rows[r].chatId == chatId && exists m :: m in ids && r == Composite(chatId, m)) :: rows[r]
  }

  /** Distinct messages, none with a null role. */
  ghost predicate Batch(keys: seq<Id>, messages: map<Id, Message>) {
    && Distinct(keys)
    && (forall k :: k in keys ==> k in messages)
    && (forall k :: k in keys ==> !messages[k].role.Null?)
  }

  lemma BatchFront(keys: seq<Id>, i: nat, messages: map<Id, Message>)
    requires Batch(keys, messages) && i <= |keys|
    ensures Batch(keys[..i], messages)
    ensures forall k :: k in keys[..i] ==> k in keys
    ensures i < |keys| ==> keys[i] in messages && !messages[keys[i]].role.Null? && keys[i] !in keys[..i]
  {
    if i < |keys| {
      assert keys[i] in keys;
    }
  }

  /** One message written, column by column: a null role is refused and changes nothing; a stored row
      keeps its chat and each column the message does not carry; a new row is of the chat, a user's
      unless the message has a role. No other row changes. */
  lemma WrittenColumns(rows: map<string, Row>, chatId: Id, messageId: Id, data: Message)
    ensures var after, r := Written(rows, chatId, messageId, data), chatId + "-" + messageId;
      && after.Keys == (if data.role.Null? then rows.Keys else rows.Keys + {r})
      && (forall x :: x in rows && (x != r || data.role.Null?) ==> after[x] == rows[x])
      && (!data.role.Null? ==>
        var known := r in rows;
        && after[r].chatId == (if known then rows[r].chatId else chatId)
        && after[r].role == (if data.role.Is? then data.role.value else if known then rows[r].role else "user")
        && after[r].parentId == (if data.parentId.Is? then Some(data.parentId.value)
          else if data.parentId.Absent? && known then rows[r].parentId else None)
        && after[r].content == (if data.content.Is? then Some(data.content.value)
          else if data.content.Absent? && known then rows[r].content else None))
  {
  }

  /** Removing ids takes exactly the chat's rows at them. */
  lemma RemovedRows(rows: map<string, Row>, chatId: Id, ids: set<Id>)
    ensures var after := RowsWithout(rows, chatId, ids);
      && (forall r :: r in after ==> r in rows && after[r] == rows[r])
      && (forall k :: k in ids && Composite(chatId, k) in after ==> rows[Composite(chatId, k)].chatId != chatId)
      && (forall r :: r in rows && r !in after ==>
        rows[r].chatId == chatId && exists k :: k in ids && r == Composite(chatId, k))
  {
  }

  lemma OtherComposites(chatId: Id, keys: seq<Id>, k: Id)
    requires k !in keys
    ensures forall x :: x in keys ==> Composite(chatId, x) != Composite(chatId, k)
  {
    forall x | x in keys && Composite(chatId, x) == Composite(chatId, k)
      ensures x in keys && x == k
    {
      CompositeInjective(chatId, x, k);
    }
  }

  ghost predicate TouchesOnly(rows: map<string, Row>, after: map<string, Row>, ids: set<string>) {
    forall r {:trigger r in after} {:trigger r in rows} :: r !in ids ==>
      (r in after <==> r in rows) && (r in rows ==> after[r] == rows[r])
  }

  function CompositesOf(chatId: Id, keys: seq<Id>): set<string> {
    set k | k in keys :: Composite(chatId, k)
  }

  /** Writing distinct messages with roles touches exactly their rows, each as if written alone. */
  lemma {:induction false} AllWrittenEffect(rows: map<string, Row>, chatId: Id, keys: seq<Id>,
      messages: map<Id, Message>)
    requires forall k :: k in keys ==> k in messages
    requires Batch(keys, messages)
    ensures var after := AllWritten(rows, chatId, keys, messages);
      && TouchesOnly(rows, after, CompositesOf(chatId, keys))
      && forall k :: k in keys ==>
        && RowAfter(rows, chatId, k, messages[k]).Some?
        && Composite(chatId, k) in after
        && after[Composite(chatId, k)] == RowAfter(rows, chatId, k, messages[k]).value
  {
    if keys != [] {
      var front, last := keys[..|keys| - 1], keys[|keys| - 1];
      assert keys == front + [last];
      BatchFront(keys, |keys| - 1, messages);
      AllWrittenEffect(rows, chatId, front, messages);
      OtherComposites(chatId, front, last);
      var mid := AllWritten(rows, chatId, front, messages);
      assert Composite(chatId, last) !in CompositesOf(chatId, front);
      assert RowAfter(mid, chatId, last, messages[last]) == RowAfter(rows, chatId, last, messages[last]);
      assert CompositesOf(chatId, keys) == CompositesOf(chatId, front) + {Composite(chatId, last)};
    }
  }

  // ------------------------------------------------------------------ reading

  /** The record rebuilt from a row, before its children list. */
  function Recovered(row: Row, messageId: Id): Message {
    Message(
      Is(messageId),
      if row.parentId.Some? then Is(row.parentId.value) else Absent,
      Absent,
      Is(row.role),
      Absent, Absent, Absent,
      Is(if row.content.Some? then row.content.value else ""),
      map[])
  }

  datatype MessageMap = MessageMap(keys: seq<Id>, messages: map<Id, Message>)

  function NamedBy(messages: map<Id, Message>, p: Id): set<Id> {
    set k | k in messages && NamedParent(messages[k]) == Some(p)
  }

  /** The rows of one chat, in whatever order the database returned them. */
  ghost predicate ResultSet(rows: map<string, Row>, chatId: Id, order: seq<string>) {
    && Distinct(order)
    && forall r :: r in order <==> r in rows && rows[r].chatId == chatId
  }

  /** Every row of the chat carries its prefix. */
  ghost predicate Prefixed(rows: map<string, Row>, chatId: Id) {
    forall r :: r in rows && rows[r].chatId == chatId ==> chatId + "-" <= r
  }

  /** The message ids in the order read; a second row with the same message id fills the same
      place. */
  function StrippedKeys(chatId: Id, order: seq<string>): seq<Id> {
    if order == [] then []
    else WithKey(StrippedKeys(chatId, order[..|order| - 1]), MessageIdOf(chatId, order[|order| - 1]))
  }

  function WithKey(keys: seq<Id>, k: Id): seq<Id> {
    if k in keys then keys else keys + [k]
  }

  /** The records of the rows in `order`, by message id. */
  function Recoveries(rows: map<string, Row>, chatId: Id, order: seq<string>): map<Id, Message>
    requires forall r :: r in order ==> r in rows
  {
    if order == [] then map[]
    else
      var last := order[|order| - 1];
      assert forall r :: r in order[..|order| - 1] ==> r in order;
      Recoveries(rows, chatId, order[..|order| - 1])
        [MessageIdOf(chatId, last) := Recovered(rows[last], MessageIdOf(chatId, last))]
  }

  /** The message map read back: records from the rows, children lists rebuilt from the parents. */
  function ReadBack(rows: map<string, Row>, chatId: Id, order: seq<string>): MessageMap
    requires forall r :: r in order ==> r in rows
  {
    var keys, bare := StrippedKeys(chatId, order), Recoveries(rows, chatId, order);
    MessageMap(keys, map k | k in bare :: WithChildren(bare[k], Keep(keys, NamedBy(bare, k))))
  }

  /** Whatever the row ids: every id read comes once, with a bare record of its own. */
  lemma {:induction false} StrippedKeyed(rows: map<string, Row>, chatId: Id, order: seq<string>)
    requires forall r :: r in order ==> r in rows
    ensures var keys, bare := StrippedKeys(chatId, order), Recoveries(rows, chatId, order);
      && Distinct(keys)
      && (forall k :: k in keys <==> k in bare)
      && (forall k :: k in bare ==> bare[k].childrenIds.Absent?)
  {
    if order != [] {
      var front, last := order[..|order| - 1], order[|order| - 1];
      assert forall r :: r in front ==> r in order;
      StrippedKeyed(rows, chatId, front);
      var k := MessageIdOf(chatId, last);
      assert StrippedKeys(chatId, order) == WithKey(StrippedKeys(chatId, front), k);
      assert Recoveries(rows, chatId, order) == Recoveries(rows, chatId, front)[k := Recovered(rows[last], k)];
    }
  }

  /** With the chat's prefix on every row, the ids are those of the rows and each record is that of
      its own row. */
  lemma {:induction false} RecoveriesByComposite(rows: map<string, Row>, chatId: Id, order: seq<string>)
    requires forall r :: r in order ==> r in rows
    requires forall r :: r in order ==> chatId + "-" <= r
    ensures var bare := Recoveries(rows, chatId, order);
      && (forall k :: k in bare <==> Composite(chatId, k) in order)
      && (forall k :: k in bare ==> bare[k] == Recovered(rows[Composite(chatId, k)], k))
  {
    if order != [] {
      var front, last := order[..|order| - 1], order[|order| - 1];
      assert order == front + [last] && last in order;
      assert forall r :: r in front ==> r in order;
      RecoveriesByComposite(rows, chatId, front);
      var before, id := Recoveries(rows, chatId, front), MessageIdOf(chatId, last);
      PrefixedIsComposite(chatId, last);
      assert Recoveries(rows, chatId, order) == before[id := Recovered(rows[last], id)];
      forall k
        ensures Composite(chatId, k) in order <==> k in before || k == id
      {
        if Composite(chatId, k) == last {
          CompositeInjective(chatId, k, id);
        }
      }
    }
  }

  /** The record gives back what its row holds. */
  ghost predicate Tells(m: Message, k: Id, row: Row) {
    && m.id == Is(k)
    && m.role == Is(row.role)
    && ParentOf(m) == row.parentId
    && m.content == Is(if row.content.Some? then row.content.value else "")
  }

  /** Each children list holds, once each, exactly the messages naming its owner. */
  ghost predicate ListsNamed(messages: map<Id, Message>) {
    forall k {:trigger messages[k]} :: k in messages ==>
      && Distinct(Children(messages[k]))
      && forall c :: c in Children(messages[k]) <==> c in messages && NamedParent(messages[c]) == Some(k)
  }

  /** Whatever the rows: every message read carries a children list that holds each message naming
      it once and nothing else. */
  lemma ReadBackLists(rows: map<string, Row>, chatId: Id, order: seq<string>)
    requires forall r :: r in order ==> r in rows
    ensures var read := ReadBack(rows, chatId, order);
      && Distinct(read.keys)
      && (forall k :: k in read.keys <==> k in read.messages)
      && (forall k :: k in read.messages ==> read.messages[k].childrenIds.Is?)
      && ListsNamed(read.messages)
  {
    StrippedKeyed(rows, chatId, order);
    var keys, bare, read := StrippedKeys(chatId, order), Recoveries(rows, chatId, order), ReadBack(rows, chatId, order);
    WithListsNamed(keys, bare, read.messages);
  }

  lemma WithListsNamed(keys: seq<Id>, bare: map<Id, Message>, messages: map<Id, Message>)
    requires Distinct(keys) && forall k :: k in keys <==> k in bare
    requires messages.Keys == bare.Keys
    requires forall k :: k in bare ==> messages[k] == WithChildren(bare[k], Keep(keys, NamedBy(bare, k)))
    ensures ListsNamed(messages)
  {
    forall k | k in messages
      ensures Distinct(Children(messages[k]))
      ensures forall c :: c in Children(messages[k]) <==> c in messages && NamedParent(messages[c]) == Some(k)
    {
      KeepMembers(keys, NamedBy(bare, k));
      KeepDistinct(keys, NamedBy(bare, k));
      assert forall c :: c in bare ==> NamedParent(messages[c]) == NamedParent(bare[c]);
    }
  }

  /** The id a row is read under: what follows the chat's prefix, or the whole row id without one. */
  ghost predicate ReadUnder(chatId: Id, r: string, k: Id) {
    if chatId + "-" <= r then r == chatId + "-" + k else r == k
  }

  lemma ReadUnderIff(chatId: Id, r: string, k: Id)
    ensures ReadUnder(chatId, r, k) <==> k == MessageIdOf(chatId, r)
  {
    if chatId + "-" <= r {
      PrefixedIsComposite(chatId, r);
      CompositeRoundTrip(chatId, k);
    }
  }

  lemma {:induction false} StrippedIds(chatId: Id, order: seq<string>)
    ensures forall k :: k in StrippedKeys(chatId, order) <==> exists r :: r in order && ReadUnder(chatId, r, k)
    ensures Distinct(order) && (forall r :: r in order ==> chatId + "-" <= r) ==>
      forall j, k :: Before(StrippedKeys(chatId, order), j, k) ==>
        Before(order, Composite(chatId, j), Composite(chatId, k))
  {
    if order != [] {
      var front, last := order[..|order| - 1], order[|order| - 1];
      assert order == front + [last];
      StrippedIds(chatId, front);
      var keys, id := StrippedKeys(chatId, front), MessageIdOf(chatId, last);
      forall k
        ensures k in StrippedKeys(chatId, order) <==> exists r :: r in order && ReadUnder(chatId, r, k)
      {
        ReadUnderIff(chatId, last, k);
        if r :| r in front && ReadUnder(chatId, r, k) {
          assert r in order;
        }
      }
      if Distinct(order) && forall r :: r in order ==> chatId + "-" <= r {
        assert forall r :: r in front ==> r in order;
        assert last in order;
        PrefixedIsComposite(chatId, last);
        forall j, k | Before(StrippedKeys(chatId, order), j, k)
          ensures Before(order, Composite(chatId, j), Composite(chatId, k))
        {
          StrippedPair(chatId, front, last, j, k);
        }
      }
    }
  }

  lemma StrippedPair(chatId: Id, front: seq<string>, last: string, j: Id, k: Id)
    requires forall a, b :: Before(StrippedKeys(chatId, front), a, b) ==>
      Before(front, Composite(chatId, a), Composite(chatId, b))
    requires forall a :: a in StrippedKeys(chatId, front) <==> exists r :: r in front && ReadUnder(chatId, r, a)
    requires (forall r :: r in front ==> chatId + "-" <= r) && chatId + "-" <= last
    requires Before(WithKey(StrippedKeys(chatId, front), MessageIdOf(chatId, last)), j, k)
    ensures Before(front + [last], Composite(chatId, j), Composite(chatId, k))
  {
    var keys, id := StrippedKeys(chatId, front), MessageIdOf(chatId, last);
    PrefixedIsComposite(chatId, last);
    BeforeAppend(keys, [id], j, k);
    BeforeAppend(front, [last], Composite(chatId, j), Composite(chatId, k));
    if !Before(keys, j, k) {
      assert j in keys && k == id;
      var r :| r in front && ReadUnder(chatId, r, j);
    }
  }

  /** The order of what is read: message ids as their rows came, children as their ids. */
  lemma ReadBackOrder(rows: map<string, Row>, chatId: Id, order: seq<string>)
    requires forall r :: r in order ==> r in rows
    ensures var read := ReadBack(rows, chatId, order);
      && (forall k :: k in read.keys <==> exists r :: r in order && ReadUnder(chatId, r, k))
      && (forall p, j, k :: p in read.messages && Before(Children(read.messages[p]), j, k) ==> Before(read.keys, j, k))
      && (Distinct(order) && (forall r :: r in order ==> chatId + "-" <= r) ==>
        forall j, k :: Before(read.keys, j, k) ==> Before(order, Composite(chatId, j), Composite(chatId, k)))
  {
    StrippedIds(chatId, order);
    var keys, bare, read := StrippedKeys(chatId, order), Recoveries(rows, chatId, order), ReadBack(rows, chatId, order);
    forall p, j, k | p in read.messages && Before(Children(read.messages[p]), j, k)
      ensures Before(read.keys, j, k)
    {
      BeforeKeep(keys, NamedBy(bare, p), j, k);
    }
  }

  /** What is read back when every row carries the chat's prefix: exactly the ids with rows, each
      with its row's role, parent and content, and the children lists rebuilt. */
  lemma ReadBackFaithful(rows: map<string, Row>, chatId: Id, order: seq<string>)
    requires ResultSet(rows, chatId, order) && Prefixed(rows, chatId)
    ensures var read := ReadBack(rows, chatId, order);
      && Distinct(read.keys)
      && (forall k :: k in read.keys <==> k in read.messages)
      && (forall k :: k in read.messages <==>
        Composite(chatId, k) in rows && rows[Composite(chatId, k)].chatId == chatId)
      && (forall k :: k in read.messages ==> Tells(read.messages[k], k, rows[Composite(chatId, k)]))
      && ListsNamed(read.messages)
  {
    ReadBackLists(rows, chatId, order);
    RecoveriesByComposite(rows, chatId, order);
  }

  /** Every row carries the prefix of the chat it belongs to. */
  ghost predicate AllPrefixed(rows: map<string, Row>) {
    forall r :: r in rows ==> rows[r].chatId + "-" <= r
  }

  /** The table's own writes and deletions keep every row under its chat's prefix. */
  lemma WritesKeepPrefixes(rows: map<string, Row>, chatId: Id, messageId: Id, data: Message, ids: set<Id>)
    requires AllPrefixed(rows)
    ensures AllPrefixed(Written(rows, chatId, messageId, data))
    ensures AllPrefixed(RowsWithout(rows, chatId, ids))
  {
    var after := Written(rows, chatId, messageId, data);
    forall r | r in after
      ensures after[r].chatId + "-" <= r
    {
      if r == Composite(chatId, messageId) && r !in rows {
        assert after[r].chatId == chatId;
      }
    }
  }

  // ------------------------------------------------------------------ the table

  class ChatMessageTable {
    var rows: map<string, Row>

    constructor ()
      ensures rows == map[]
    {
      rows := map[];
    }

    /** Insert or update one row. */
    method UpsertMessage(messageId: Id, chatId: Id, data: Message) returns (ok: bool)
      modifies this
      ensures rows == Written(old(rows), chatId, messageId, data)
      ensures ok <==> !data.role.Null?
    {
      var id := Composite(chatId, messageId);
      var row := if id in rows then Applied(rows[id], data) else Built(chatId, data);
      if row.None? {
        return false;
      }
      rows := rows[id := row.value];
      return true;
    }

    /** The rows that exist are looked up once, before the loop, and all is committed after it. */
    method UpsertMessages(chatId: Id, keys: seq<Id>, messages: map<Id, Message>) returns (ok: bool)
      requires Distinct(keys) && forall k :: k in keys ==> k in messages
      modifies this
      ensures ok <==> forall k :: k in keys ==> !messages[k].role.Null?
      ensures rows == if ok then AllWritten(old(rows), chatId, keys, messages) else old(rows)
    {
      var existing, written := rows, rows;
      for i := 0 to |keys|
        invariant rows == existing && Batch(keys[..i], messages)
        invariant written == AllWritten(existing, chatId, keys[..i], messages)
      {
        assert keys[..i + 1][..i] == keys[..i] && keys[..i + 1][i] == keys[i];
        assert keys[i] in keys;
        PrefixStep(keys, i);
        var id := Composite(chatId, keys[i]);
        var data := messages[keys[i]];
        var row := if id in existing then Applied(existing[id], data) else Built(chatId, data);
        if row.None? {
          return false;
        }
        NotWrittenYet(existing, chatId, keys[..i + 1], i, messages);
        written := written[id := row.value];
      }
      assert keys[..|keys|] == keys;
      rows := written;
      return true;
    }

    method DeleteMessageIds(chatId: Id, messageIds: set<Id>)
      modifies this
      ensures rows == RowsWithout(old(rows), chatId, messageIds)
    {
      rows := RowsWithout(rows, chatId, messageIds);
    }

    /** Reads the rows back into a message map: strip the ids, recover the records, append each
        message to the list of the parent it names, give the leaves an empty list. */
    method GetMessagesMap(chatId: Id, result: seq<string>) returns (read: Option<MessageMap>)
      requires ResultSet(rows, chatId, result)
      ensures read == if result == [] then None else Some(ReadBack(rows, chatId, result))
    {
      if result == [] {
        return None;
      }
      var keys, bare := RecoverRows(chatId, result);
      StrippedKeyed(rows, chatId, result);
      FilledIsReadBack(rows, chatId, result);
      LinkedAllIsLinked(bare, keys);
      var linked := LinkNamed(keys, bare);
      var messages := FillLeaves(keys, linked);
      return Some(MessageMap(keys, messages));
    }

    method RecoverRows(chatId: Id, result: seq<string>) returns (keys: seq<Id>, bare: map<Id, Message>)
      requires forall r :: r in result ==> r in rows
      ensures keys == StrippedKeys(chatId, result) && bare == Recoveries(rows, chatId, result)
    {
      keys, bare := [], map[];
      for i := 0 to |result|
        invariant forall r :: r in result[..i] ==> r in rows
        invariant keys == StrippedKeys(chatId, result[..i])
        invariant bare == Recoveries(rows, chatId, result[..i])
      {
        assert result[..i + 1][..i] == result[..i];
        assert result[i] in result;
        var messageId := MessageIdOf(chatId, result[i]);
        keys := WithKey(keys, messageId);
        bare := bare[messageId := Recovered(rows[result[i]], messageId)];
        assert forall r :: r in result[..i + 1] ==> r in result;
      }
      assert result[..|result|] == result;
    }
  }

  lemma NotWrittenYet(existing: map<string, Row>, chatId: Id, keys: seq<Id>, i: nat, messages: map<Id, Message>)
    requires i < |keys| && Batch(keys, messages)
    ensures forall k :: k in keys[..i] ==> k in messages
    ensures keys[i] in messages
    ensures RowAfter(AllWritten(existing, chatId, keys[..i], messages), chatId, keys[i], messages[keys[i]]) ==
      RowAfter(existing, chatId, keys[i], messages[keys[i]])
    ensures RowAfter(existing, chatId, keys[i], messages[keys[i]]).Some?
  {
    BatchFront(keys, i, messages);
    AllWrittenEffect(existing, chatId, keys[..i], messages);
    OtherComposites(chatId, keys[..i], keys[i]);
    assert Composite(chatId, keys[i]) !in CompositesOf(chatId, keys[..i]);
  }

  /** Children lists of `keys`; a message none of them names has none. */
  function Linked(bare: map<Id, Message>, keys: seq<Id>): map<Id, Message> {
    map k | k in bare :: LinkedOne(bare[k], Keep(keys, NamedBy(bare, k)))
  }

  function LinkedOne(m: Message, named: seq<Id>): Message {
    if named == [] then m else WithChildren(m, named)
  }

  /** The list created or extended; an id already in it is not added again. */
  function ChildAppended(p: Message, k: Id): Message {
    if !p.childrenIds.Is? then WithChildren(p, [k])
    else if k !in Children(p) then WithChildren(p, Children(p) + [k])
    else p
  }

  lemma ChildAppendedOne(m: Message, named: seq<Id>, k: Id)
    requires m.childrenIds.Absent? && k !in named
    ensures ChildAppended(LinkedOne(m, named), k) == LinkedOne(m, named + [k])
  {
    if named == [] {
      assert named + [k] == [k];
    }
  }

  /** One message appended to the list of the message it names, if that is there. */
  function LinkedFurther(messages: map<Id, Message>, k: Id): map<Id, Message>
    requires k in messages
  {
    var parent := NamedParent(messages[k]);
    if parent.Some? && parent.value in messages
    then messages[parent.value := ChildAppended(messages[parent.value], k)]
    else messages
  }

  lemma LinkedStep(bare: map<Id, Message>, keys: seq<Id>, i: nat)
    requires i < |keys| && Distinct(keys) && keys[i] in bare
    requires forall k :: k in bare ==> bare[k].childrenIds.Absent?
    ensures Linked(bare, keys[..i + 1]) == LinkedFurther(Linked(bare, keys[..i]), keys[i])
  {
    var now, next := Linked(bare, keys[..i]), Linked(bare, keys[..i + 1]);
    var parent := NamedParent(bare[keys[i]]);
    assert NamedParent(now[keys[i]]) == parent;
    PrefixStep(keys, i);
    forall k | k in bare
      ensures next[k] == if parent == Some(k) then ChildAppended(now[k], keys[i]) else now[k]
    {
      var named := Keep(keys[..i], NamedBy(bare, k));
      KeepStep(keys, i, NamedBy(bare, k));
      KeepMembers(keys[..i], NamedBy(bare, k));
      assert named + [] == named;
      assert keys[i] in NamedBy(bare, k) <==> parent == Some(k);
      ChildAppendedOne(bare[k], named, keys[i]);
    }
  }

  method AppendToNamed(messages: map<Id, Message>, k: Id) returns (after: map<Id, Message>)
    requires k in messages
    ensures after == LinkedFurther(messages, k)
  {
    after := messages;
    var parent := NamedParent(messages[k]);
    if parent.Some? && parent.value in messages {
      var p := messages[parent.value];
      if !p.childrenIds.Is? {
        after := messages[parent.value := WithChildren(p, [k])];
      } else if k !in Children(p) {
        after := messages[parent.value := WithChildren(p, Children(p) + [k])];
      }
    }
  }

  /** All keys appended, one after the other. */
  function LinkedAll(messages: map<Id, Message>, keys: seq<Id>): (after: map<Id, Message>)
    requires forall k :: k in keys ==> k in messages
    ensures after.Keys == messages.Keys
  {
    if keys == [] then messages
    else
      assert keys[|keys| - 1] in keys && forall k :: k in keys[..|keys| - 1] ==> k in keys;
      LinkedFurther(LinkedAll(messages, keys[..|keys| - 1]), keys[|keys| - 1])
  }

  lemma {:induction false} LinkedAllIsLinked(bare: map<Id, Message>, keys: seq<Id>)
    requires Distinct(keys) && forall k :: k in keys ==> k in bare
    requires forall k :: k in bare ==> bare[k].childrenIds.Absent?
    ensures LinkedAll(bare, keys) == Linked(bare, keys)
  {
    if keys == [] {
      LinkedNone(bare);
    } else {
      var n := |keys| - 1;
      assert keys[n] in keys && forall k :: k in keys[..n] ==> k in keys;
      LinkedAllIsLinked(bare, keys[..n]);
      LinkedLast(bare, keys);
    }
  }

  lemma LinkedNone(bare: map<Id, Message>)
    ensures Linked(bare, []) == bare
  {
    var none := Linked(bare, []);
    forall k | k in bare
      ensures none[k] == bare[k]
    {
      KeepMembers([], NamedBy(bare, k));
    }
  }

  lemma LinkedLast(bare: map<Id, Message>, keys: seq<Id>)
    requires keys != [] && Distinct(keys) && keys[|keys| - 1] in bare
    requires forall k :: k in bare ==> bare[k].childrenIds.Absent?
    ensures Linked(bare, keys) == LinkedFurther(Linked(bare, keys[..|keys| - 1]), keys[|keys| - 1])
  {
    var n := |keys| - 1;
    LinkedStep(bare, keys, n);
    assert keys[..n + 1] == keys;
  }

  /** Append every message to the list of the message it names, unless it is there. */
  method LinkNamed(keys: seq<Id>, bare: map<Id, Message>) returns (messages: map<Id, Message>)
    requires forall k :: k in keys ==> k in bare
    ensures messages == LinkedAll(bare, keys)
  {
    messages := bare;
    for i := 0 to |keys|
      invariant forall k :: k in keys[..i] ==> k in bare
      invariant messages == LinkedAll(bare, keys[..i])
    {
      assert keys[..i + 1][..i] == keys[..i];
      assert keys[i] in keys;
      messages := AppendToNamed(messages, keys[i]);
      assert forall k :: k in keys[..i + 1] ==> k in keys;
    }
    assert keys[..|keys|] == keys;
  }

  function LeafFilled(m: Message): Message {
    if m.childrenIds.Absent? then WithChildren(m, []) else m
  }

  function Filled(messages: map<Id, Message>): map<Id, Message> {
    map k | k in messages :: LeafFilled(messages[k])
  }

  /** Give the messages nobody named an empty list. */
  method FillLeaves(keys: seq<Id>, linked: map<Id, Message>) returns (messages: map<Id, Message>)
    requires Distinct(keys) && forall k :: k in keys <==> k in linked
    ensures messages == Filled(linked)
  {
    messages := linked;
    ghost var done: set<Id> := {};
    for i := 0 to |keys|
      invariant done == Elements(keys[..i])
      invariant messages.Keys == linked.Keys
      invariant forall k :: k in linked ==> (messages[k] == if k in done then LeafFilled(linked[k]) else linked[k])
    {
      PrefixStep(keys, i);
      assert keys[i] in keys;
      messages := messages[keys[i] := LeafFilled(messages[keys[i]])];
      done := done + {keys[i]};
    }
    assert keys[..|keys|] == keys;
  }

  lemma FilledIsReadBack(rows: map<string, Row>, chatId: Id, order: seq<string>)
    requires forall r :: r in order ==> r in rows
    requires forall k :: k in Recoveries(rows, chatId, order) ==> Recoveries(rows, chatId, order)[k].childrenIds.Absent?
    ensures var keys, bare := StrippedKeys(chatId, order), Recoveries(rows, chatId, order);
      Filled(Linked(bare, keys)) == ReadBack(rows, chatId, order).messages
  {
    var keys, bare := StrippedKeys(chatId, order), Recoveries(rows, chatId, order);
    var filled, read := Filled(Linked(bare, keys)), ReadBack(rows, chatId, order).messages;
    forall k | k in bare
      ensures filled[k] == read[k]
    {
      FilledOne(bare[k], Keep(keys, NamedBy(bare, k)));
    }
  }

  lemma FilledOne(m: Message, named: seq<Id>)
    requires m.childrenIds.Absent?
    ensures LeafFilled(LinkedOne(m, named)) == WithChildren(m, named)
  {
  }
}
