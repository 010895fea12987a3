/** The two stored copies of every chat's messages: when they agree, exactly which inserts, saves,
    upserts and deletes keep them so (chats.py), and what that gives over whole runs. */
module ChatSync {
  import opened Collections
  import opened ParentForest
  import opened Messages
  import opened HistoryMerge
  import opened HistoryDelete
  import opened HistoryPointer
  import opened HistoryUpsert
  import opened ChatRows
  import opened ChatStore

  /** The row is the message's: same role, parent and content. */
  ghost predicate RowFor(row: Row, chatId: Id, m: Message) {
    && row.chatId == chatId
    && m.role == Is(row.role)
    && row.parentId == ParentOf(m)
    && row.content == Get(m.content)
  }

  /** The chat has a row for the id `k`. */
  predicate HasRow(rows: map<string, Row>, chatId: Id, k: Id) {
    Composite(chatId, k) in rows && rows[Composite(chatId, k)].chatId == chatId
  }

  /** At `k`: a message has its row, and an id without a message has none. */
  ghost predicate AgreeAt(rows: map<string, Row>, chatId: Id, messages: map<Id, Message>, k: Id) {
    if k in messages then HasRow(rows, chatId, k) && RowFor(rows[Composite(chatId, k)], chatId, messages[k])
    else !HasRow(rows, chatId, k)
  }

  /** Every message has its row, and every row of the chat is some message's. */
  ghost predicate Mirrored(rows: map<string, Row>, chatId: Id, messages: map<Id, Message>) {
    Prefixed(rows, chatId) && forall k :: AgreeAt(rows, chatId, messages, k)
  }

  /** Both copies agree for every chat, and no row belongs to an unknown one. */
  ghost predicate Agree(s: Store) {
    && (forall c :: c in s.chats ==> Valid(s.chats[c]) && Mirrored(s.rows, c, s.chats[c].messages))
    && (forall r {:trigger s.rows[r]} :: r in s.rows ==> s.rows[r].chatId in s.chats)
  }

  // ------------------------------------------------------------------ one chat's rows

  /** The rows of all other chats are as they were. */
  ghost predicate SameElsewhere(rows: map<string, Row>, after: map<string, Row>, chatId: Id) {
    && (forall r {:trigger rows[r]} :: r in rows && rows[r].chatId != chatId ==> r in after && after[r] == rows[r])
    && (forall r {:trigger after[r]} :: r in after && after[r].chatId != chatId ==> r in rows && after[r] == rows[r])
  }

  lemma MirrorElsewhere(rows: map<string, Row>, after: map<string, Row>, c: Id, d: Id, messages: map<Id, Message>)
    requires SameElsewhere(rows, after, c) && d != c && Mirrored(rows, d, messages)
    ensures Mirrored(after, d, messages)
  {
    forall k
      ensures AgreeAt(after, d, messages, k)
    {
      assert AgreeAt(rows, d, messages, k);
      var r := Composite(d, k);
      assert r in rows ==> rows[r].chatId == d || rows[r].chatId != d;
      assert r in after && after[r].chatId == d ==> r in rows && after[r] == rows[r];
    }
    forall r | r in after && after[r].chatId == d
      ensures d + "-" <= r
    {
      assert r in rows && after[r] == rows[r];
    }
  }

  /** Replacing one chat's history and rows, the other chats' rows untouched, keeps the copies in
      agreement exactly when the chat's own agree. */
  lemma ReplacedAgreeIff(s: Store, c: Id, h: Hist, rows: map<string, Row>)
    requires Agree(s) && (SameElsewhere(s.rows, rows, c) || !Mirrored(rows, c, h.messages))
    ensures Agree(Store(s.chats[c := h], rows)) <==> Valid(h) && Mirrored(rows, c, h.messages)
  {
    var after := Store(s.chats[c := h], rows);
    if Valid(h) && Mirrored(rows, c, h.messages) {
      forall d | d in after.chats
        ensures Valid(after.chats[d]) && Mirrored(rows, d, after.chats[d].messages)
      {
        if d != c {
          MirrorElsewhere(s.rows, rows, c, d, s.chats[d].messages);
        }
      }
      forall r | r in rows
        ensures rows[r].chatId in after.chats
      {
        assert rows[r].chatId != c ==> r in s.rows && rows[r] == s.rows[r];
      }
    } else {
      assert c in after.chats && after.chats[c] == h;
    }
  }

  // ------------------------------------------------------------------ writing a history back

  /** The new record drops no key the old one had a value for. */
  ghost predicate CarriesOver(old': Message, new': Message) {
    && (new'.parentId.Absent? ==> ParentOf(old').None?)
    && (new'.content.Absent? ==> Get(old'.content).None?)
  }

  /** Both records have the same row. */
  ghost predicate SameRow(old': Message, new': Message) {
    old'.role == new'.role && ParentOf(old') == ParentOf(new') && Get(old'.content) == Get(new'.content)
  }

  /** A record over the stored one `old'`, or in a free place: written when it has a role, left alone
      when it has none. */
  ghost predicate Fits(rows: map<string, Row>, c: Id, k: Id, old': Option<Message>, m: Message) {
    match old'
    case None => Truthy(m.role) && Composite(c, k) !in rows
    case Some(o) => if Truthy(m.role) then CarriesOver(o, m) else SameRow(o, m)
  }

  function At(messages: map<Id, Message>, k: Id): Option<Message> {
    if k in messages then Some(messages[k]) else None
  }

  /** What writing a history back leaves in the rows of one of its ids. */
  lemma BackfilledAt(rows: map<string, Row>, c: Id, h: Hist, k: Id)
    requires Valid(h)
    ensures var r, after := Composite(c, k), Backfilled(rows, c, h);
      if k in Writable(h.messages) then r in after && RowAfter(rows, c, k, h.messages[k]) == Some(after[r])
      else (r in after <==> r in rows) && (r in rows ==> after[r] == rows[r])
  {
    var keys := Keep(h.keys, Writable(h.messages));
    KeepMembers(h.keys, Writable(h.messages));
    KeepDistinct(h.keys, Writable(h.messages));
    assert Batch(keys, h.messages);
    AllWrittenEffect(rows, c, keys, h.messages);
    if k !in keys {
      OtherComposites(c, keys, k);
      assert Composite(c, k) !in CompositesOf(c, keys);
    }
  }

  lemma BackfilledElsewhere(rows: map<string, Row>, c: Id, h: Hist, r: string)
    requires Valid(h) && forall k :: k in h.messages ==> r != Composite(c, k)
    ensures r in Backfilled(rows, c, h) <==> r in rows
    ensures r in rows ==> Backfilled(rows, c, h)[r] == rows[r]
  {
    var keys := Keep(h.keys, Writable(h.messages));
    KeepMembers(h.keys, Writable(h.messages));
    KeepDistinct(h.keys, Writable(h.messages));
    assert Batch(keys, h.messages);
    AllWrittenEffect(rows, c, keys, h.messages);
    assert r !in CompositesOf(c, keys);
  }

  /** Over agreeing copies a written history agrees at an id exactly when its record fits there, or
      neither copy has the id. */
  lemma BackfilledAgreeIff(rows: map<string, Row>, c: Id, old': map<Id, Message>, h: Hist, k: Id)
    requires Valid(h) && AgreeAt(rows, c, old', k)
    ensures AgreeAt(Backfilled(rows, c, h), c, h.messages, k) <==>
      if k in h.messages then Fits(rows, c, k, At(old', k), h.messages[k]) else k !in old'
  {
    BackfilledAt(rows, c, h, k);
    if k in h.messages && Composite(c, k) in rows && !HasRow(rows, c, k) {
      assert !HasRow(Backfilled(rows, c, h), c, k);
    }
  }

  /** A history whose records all fit leaves the other chats' rows alone and the chat's own under its
      prefix. */
  lemma BackfilledSameElsewhere(rows: map<string, Row>, c: Id, old': map<Id, Message>, h: Hist)
    requires Valid(h) && Mirrored(rows, c, old')
    requires forall k :: k in h.messages ==> Fits(rows, c, k, At(old', k), h.messages[k])
    ensures SameElsewhere(rows, Backfilled(rows, c, h), c) && Prefixed(Backfilled(rows, c, h), c)
  {
    var after := Backfilled(rows, c, h);
    forall r
      ensures r in rows && rows[r].chatId != c ==> r in after && after[r] == rows[r]
      ensures r in after && after[r].chatId != c ==> r in rows && after[r] == rows[r]
      ensures r in after && after[r].chatId == c ==> c + "-" <= r
    {
      if k :| k in h.messages && r == Composite(c, k) {
        assert AgreeAt(rows, c, old', k);
        BackfilledAgreeIff(rows, c, old', h, k);
      } else {
        BackfilledElsewhere(rows, c, h, r);
      }
    }
  }

  /** The records of the history all fit, and no stored id is missing from it but those that go. */
  ghost predicate AllFit(rows: map<string, Row>, c: Id, old': map<Id, Message>, h: Hist, gone: set<Id>) {
    && (forall k :: k in h.messages ==> Fits(rows, c, k, At(old', k), h.messages[k]))
    && old'.Keys <= h.messages.Keys + gone
  }

  /** Storing a history, writing it back, and removing the rows of the ids that went keeps the copies
      in agreement exactly when all its records fit. */
  lemma WrittenBackAgreeIff(s: Store, c: Id, h: Hist, gone: set<Id>)
    requires Agree(s) && Valid(h) && gone !! h.messages.Keys
    ensures var old' := if c in s.chats then s.chats[c].messages else map[];
      Agree(Store(s.chats[c := h], RowsWithout(Backfilled(s.rows, c, h), c, gone))) <==>
        AllFit(s.rows, c, old', h, gone)
  {
    var old' := if c in s.chats then s.chats[c].messages else map[];
    var written := Backfilled(s.rows, c, h);
    var rows := RowsWithout(written, c, gone);
    StoredMirror(s, c);
    forall k
      ensures AgreeAt(rows, c, h.messages, k) <==>
        if k in h.messages then Fits(s.rows, c, k, At(old', k), h.messages[k]) else k !in old' || k in gone
    {
      assert AgreeAt(s.rows, c, old', k);
      BackfilledAgreeIff(s.rows, c, old', h, k);
      RemovedAgreeAt(written, c, h.messages, gone, k);
    }
    if AllFit(s.rows, c, old', h, gone) {
      BackfilledSameElsewhere(s.rows, c, old', h);
      RemovedSameElsewhere(s.rows, written, c, gone);
    }
    MirroredIffAll(rows, c, h, s.rows, old', gone);
    ReplacedAgreeIff(s, c, h, rows);
  }

  /** A chat's rows against its stored messages; an unknown chat has neither. */
  lemma StoredMirror(s: Store, c: Id)
    requires Agree(s)
    ensures Mirrored(s.rows, c, if c in s.chats then s.chats[c].messages else map[])
  {
  }

  lemma MirroredIffAll(rows: map<string, Row>, c: Id, h: Hist, before: map<string, Row>, old': map<Id, Message>,
      gone: set<Id>)
    requires AllFit(before, c, old', h, gone) ==> Prefixed(rows, c)
    requires forall k :: AgreeAt(rows, c, h.messages, k) <==>
      if k in h.messages then Fits(before, c, k, At(old', k), h.messages[k]) else k !in old' || k in gone
    ensures Mirrored(rows, c, h.messages) <==> AllFit(before, c, old', h, gone)
  {
    if Mirrored(rows, c, h.messages) {
      forall k
        ensures k in h.messages ==> Fits(before, c, k, At(old', k), h.messages[k])
        ensures k in old' ==> k in h.messages || k in gone
      {
        assert AgreeAt(rows, c, h.messages, k);
      }
    }
  }

  lemma RemovedAgreeAt(rows: map<string, Row>, c: Id, messages: map<Id, Message>, gone: set<Id>, k: Id)
    requires gone !! messages.Keys
    ensures AgreeAt(RowsWithout(rows, c, gone), c, messages, k) <==> k in gone || AgreeAt(rows, c, messages, k)
  {
    var r := Composite(c, k);
    if r in rows && rows[r].chatId == c && r !in RowsWithout(rows, c, gone) {
      var m :| m in gone && r == Composite(c, m);
      CompositeInjective(c, k, m);
    }
  }

  lemma RemovedSameElsewhere(before: map<string, Row>, rows: map<string, Row>, c: Id, gone: set<Id>)
    requires SameElsewhere(before, rows, c) && Prefixed(rows, c)
    ensures SameElsewhere(before, RowsWithout(rows, c, gone), c) && Prefixed(RowsWithout(rows, c, gone), c)
  {
  }

  lemma NothingRemoved(rows: map<string, Row>, c: Id)
    ensures RowsWithout(rows, c, {}) == rows
  {
  }

  // ------------------------------------------------------------------ inserts and saves

  /** Inserting a chat keeps the copies in agreement exactly when each of its messages has a role and
      finds its row id free. */
  lemma InsertAgreeIff(s: Store, c: Id, h: Hist)
    requires Agree(s) && c !in s.chats && Valid(h)
    ensures Agree(Inserted(s, c, h)) <==>
      forall k :: k in h.messages ==> Truthy(h.messages[k].role) && Composite(c, k) !in s.rows
  {
    WrittenBackAgreeIff(s, c, h, {});
    NothingRemoved(Backfilled(s.rows, c, h), c);
    assert forall k :: k in h.messages ==>
      (Fits(s.rows, c, k, None, h.messages[k]) <==> Truthy(h.messages[k].role) && Composite(c, k) !in s.rows);
  }

  /** An entry of a saved copy that keeps the copies in agreement: for a stored id a record that
      carries over what is stored, or one without a role that leaves its row as it was; for another
      id a record with a role whose row id is free, or no record. */
  ghost predicate EntryFits(rows: map<string, Row>, c: Id, stored: map<Id, Message>, k: Id, entry: Entry) {
    match entry
    case NotARecord => k !in stored
    case Record(m) => Fits(rows, c, k, At(stored, k), m)
  }

  function Winner(stored: Hist, incoming: Copy, k: Id): Message
    requires k in Records(incoming) + (stored.messages.Keys - incoming.entries.Keys)
  {
    if k in incoming.entries then incoming.entries[k].message else stored.messages[k]
  }

  /** The record a merged message comes from. */
  lemma MergedFrom(stored: Hist, incoming: Copy)
    requires Valid(stored) && ValidCopy(incoming)
    ensures var h := Merged(CopyOf(stored), incoming);
      && Valid(h)
      && h.messages.Keys == Records(incoming) + (stored.messages.Keys - incoming.entries.Keys)
      && forall k :: k in h.messages ==> Unlisted(h.messages[k]) == Unlisted(Winner(stored, incoming, k))
  {
    CopyIsCopy(stored);
    MergeRebuildsLinks(CopyOf(stored), incoming);
    MergeIsIncomingBiased(CopyOf(stored), incoming);
  }

  lemma SameFields(m: Message, n: Message)
    requires Unlisted(m) == Unlisted(n)
    ensures m.role == n.role && m.parentId == n.parentId && m.content == n.content
  {
    assert Unlisted(m).role == Unlisted(n).role && Unlisted(m).parentId == Unlisted(n).parentId;
    assert Unlisted(m).content == Unlisted(n).content;
  }

  lemma MergedFitsIff(rows: map<string, Row>, c: Id, stored: Hist, incoming: Copy, h: Hist)
    requires h.messages.Keys == Records(incoming) + (stored.messages.Keys - incoming.entries.Keys)
    requires forall k :: k in h.messages ==> Unlisted(h.messages[k]) == Unlisted(Winner(stored, incoming, k))
    ensures AllFit(rows, c, stored.messages, h, {}) <==>
      forall k :: k in incoming.entries ==> EntryFits(rows, c, stored.messages, k, incoming.entries[k])
  {
    forall k | k in h.messages
      ensures Fits(rows, c, k, At(stored.messages, k), h.messages[k]) <==>
        (k in incoming.entries ==> EntryFits(rows, c, stored.messages, k, incoming.entries[k]))
    {
      SameFields(h.messages[k], Winner(stored, incoming, k));
    }
    forall k
      ensures k in stored.messages && k !in h.messages <==>
        k in stored.messages && k in incoming.entries && incoming.entries[k].NotARecord?
    {
    }
  }

  /** Saving a copy keeps the copies in agreement exactly when each of its entries fits. */
  lemma SaveAgreeIff(s: Store, c: Id, incoming: Copy)
    requires Agree(s) && c in s.chats && ValidCopy(incoming)
    ensures Agree(Saved(s, c, incoming)) <==>
      forall k :: k in incoming.entries ==> EntryFits(s.rows, c, s.chats[c].messages, k, incoming.entries[k])
  {
    var h := Merged(CopyOf(s.chats[c]), incoming);
    MergedFrom(s.chats[c], incoming);
    MergedFitsIff(s.rows, c, s.chats[c], incoming, h);
    WrittenBackAgreeIff(s, c, h, {});
    NothingRemoved(Backfilled(s.rows, c, h), c);
  }

  // ------------------------------------------------------------------ upserts

  /** Over agreeing copies, writing one record agrees at its id exactly when its role is a text and it
      carries over the stored record or finds the row id free. */
  lemma WrittenAgreeIff(s: Store, c: Id, h: Hist, k: Id)
    requires Agree(s) && c in s.chats && Valid(h) && k in h.messages
    requires h.messages == s.chats[c].messages[k := h.messages[k]]
    ensures var stored, m := s.chats[c].messages, h.messages[k];
      Agree(Store(s.chats[c := h], Written(s.rows, c, k, m))) <==>
        m.role.Is? && if k in stored then CarriesOver(stored[k], m) else Composite(c, k) !in s.rows
  {
    StoredMirror(s, c);
    WrittenMirrorIff(s.rows, c, s.chats[c].messages, h.messages, k);
    ReplacedAgreeIff(s, c, h, Written(s.rows, c, k, h.messages[k]));
  }

  lemma WrittenMirrorIff(rows: map<string, Row>, c: Id, stored: map<Id, Message>, messages: map<Id, Message>, k: Id)
    requires Mirrored(rows, c, stored) && k in messages && messages == stored[k := messages[k]]
    ensures var after, m := Written(rows, c, k, messages[k]), messages[k];
      && (Mirrored(after, c, messages) <==>
        m.role.Is? && if k in stored then CarriesOver(stored[k], m) else Composite(c, k) !in rows)
      && (Mirrored(after, c, messages) ==> SameElsewhere(rows, after, c))
  {
    var after, m := Written(rows, c, k, messages[k]), messages[k];
    assert AgreeAt(rows, c, stored, k);
    forall x | x != k
      ensures AgreeAt(after, c, messages, x)
    {
      assert AgreeAt(rows, c, stored, x);
      if Composite(c, x) == Composite(c, k) {
        CompositeInjective(c, x, k);
      }
    }
    assert AgreeAt(after, c, messages, k) <==>
      m.role.Is? && if k in stored then CarriesOver(stored[k], m) else Composite(c, k) !in rows;
  }

  /** An upsert keeps the copies in agreement exactly when it patches no role to null and a new
      message finds its row id free. */
  lemma UpsertAgreeIff(s: Store, c: Id, messageId: Id, message: Message, now: int)
    requires Agree(s) && StoreValid(s) && c in s.chats
    ensures Agree(MessageUpserted(s, c, messageId, message, now)) <==>
      UpsertFits(s, c, messageId, message, now)
  {
    var before := Repaired(s.chats[c]);
    if Upserted(before, messageId, message, now).Some? {
      var h := Upserted(before, messageId, message, now).value;
      UpsertTouchesOneMessage(before, messageId, message, now);
      assert h.messages == s.chats[c].messages[messageId := h.messages[messageId]];
      assert AgreeAt(s.rows, c, s.chats[c].messages, messageId);
      WrittenAgreeIff(s, c, h, messageId);
    }
  }

  ghost predicate UpsertFits(s: Store, c: Id, messageId: Id, message: Message, now: int)
    requires StoreValid(s) && c in s.chats
  {
    if messageId in s.chats[c].messages then !message.role.Null?
    else Upserted(Repaired(s.chats[c]), messageId, message, now).Some? ==> Composite(c, messageId) !in s.rows
  }

  // ------------------------------------------------------------------ deletions

  /** A message without a role keeps its old row when it is handed to another parent. */
  ghost predicate DeleteFits(messages: map<Id, Message>, x: Id) {
    x in messages ==> forall g :: g in HandedUp(messages, x) ==>
      Truthy(messages[g].role) || ParentOf(messages[g]) == ParentOf(messages[x])
  }

  lemma DeletedFits(rows: map<string, Row>, c: Id, before: Hist, x: Id, k: Id)
    requires Valid(before) && x in before.messages && k in Deleted(before, x).messages
    ensures k in before.messages
    ensures Fits(rows, c, k, At(before.messages, k), Deleted(before, x).messages[k]) <==>
      (k in HandedUp(before.messages, x) ==>
        Truthy(before.messages[k].role) || ParentOf(before.messages[k]) == ParentOf(before.messages[x]))
  {
    DeleteKeepsBodies(before, x);
    var old', new' := before.messages[k], Deleted(before, x).messages[k];
    assert Body(new').role == Body(old').role && Body(new').content == Body(old').content;
    assert new'.parentId ==
      if k in HandedUp(before.messages, x) then ToField(ParentOf(before.messages[x])) else old'.parentId;
  }

  /** A deletion keeps the copies in agreement exactly when every message handed up has a role or
      keeps its parent. */
  lemma DeleteAgreeIff(s: Store, c: Id, x: Id)
    requires Agree(s) && StoreValid(s) && c in s.chats
    ensures Agree(MessageDeleted(s, c, x)) <==> DeleteFits(s.chats[c].messages, x)
  {
    var before := Repaired(s.chats[c]);
    var gone, h := DeletedIds(before.messages, x), Deleted(before, x);
    if x in before.messages {
      DeleteKeepsBodies(before, x);
      forall k | k in h.messages
        ensures Fits(s.rows, c, k, At(before.messages, k), h.messages[k]) <==>
          (k in HandedUp(before.messages, x) ==>
            Truthy(before.messages[k].role) || ParentOf(before.messages[k]) == ParentOf(before.messages[x]))
      {
        DeletedFits(s.rows, c, before, x, k);
      }
      HandedUpSurvive(before.messages, x);
      WrittenBackAgreeIff(s, c, h, gone);
    } else {
      ReplacedAgreeIff(s, c, before, s.rows);
    }
  }

  lemma HandedUpSurvive(messages: map<Id, Message>, x: Id)
    requires x in messages
    ensures HandedUp(messages, x) <= Remaining(messages, x).Keys
  {
    GrandchildMembers(messages, LiveChildren(messages, x));
  }

  // ------------------------------------------------------------------ runs

  datatype Operation =
    | Insert(chatId: Id, history: Hist)
    | Save(chatId: Id, incoming: Copy)
    | Upsert(chatId: Id, messageId: Id, message: Message, now: int)
    | Delete(chatId: Id, messageId: Id)

  /** Inserted histories and saved copies are dictionaries. */
  ghost predicate WellFormed(op: Operation) {
    (op.Insert? ==> Valid(op.history)) && (op.Save? ==> ValidCopy(op.incoming))
  }

  /** What a caller can check before the operation: roles, free row ids, entries that fit. */
  ghost predicate Harmless(s: Store, op: Operation)
    requires StoreValid(s)
  {
    match op
    case Insert(c, h) =>
      c !in s.chats ==>
        forall k :: k in h.messages ==> Truthy(h.messages[k].role) && Composite(c, k) !in s.rows
    case Save(c, incoming) =>
      c in s.chats ==>
        forall k :: k in incoming.entries ==> EntryFits(s.rows, c, s.chats[c].messages, k, incoming.entries[k])
    case Upsert(c, messageId, message, now) =>
      c in s.chats ==> UpsertFits(s, c, messageId, message, now)
    case Delete(c, messageId) =>
      c in s.chats ==> DeleteFits(s.chats[c].messages, messageId)
  }

  function Step(s: Store, op: Operation): Store
    requires StoreValid(s)
  {
    match op
    case Insert(c, h) => Inserted(s, c, h)
    case Save(c, incoming) => Saved(s, c, incoming)
    case Upsert(c, messageId, message, now) => MessageUpserted(s, c, messageId, message, now)
    case Delete(c, messageId) => MessageDeleted(s, c, messageId)
  }

  /** The history an operation stores: an insert the one given, a save the merge of the stored one and
      the copy, an upsert and a deletion the repaired stored one upserted to or deleted from. An
      unknown chat, a taken id and an upsert that raises change nothing; no other chat changes. */
  lemma StepHistories(s: Store, op: Operation)
    requires StoreValid(s)
    ensures var c, after := op.chatId, Step(s, op);
      && (op.Insert? && c in s.chats ==> after == s)
      && (!op.Insert? && c !in s.chats ==> after == s)
      && (op.Insert? && c !in s.chats ==> after.chats == s.chats[c := op.history])
      && (op.Save? && c in s.chats ==> after.chats == s.chats[c := Merged(CopyOf(s.chats[c]), op.incoming)])
      && (op.Upsert? && c in s.chats ==>
        match Upserted(Repaired(s.chats[c]), op.messageId, op.message, op.now)
        case None => after == s
        case Some(h) =>
          after == Store(s.chats[c := h], Written(s.rows, c, op.messageId, h.messages[op.messageId])))
      && (op.Delete? && c in s.chats ==> after.chats == s.chats[c := Deleted(Repaired(s.chats[c]), op.messageId)])
  {
  }

  /** Any insert, save, upsert or delete keeps agreeing copies in agreement exactly when it is
      harmless. */
  lemma StepAgreeIff(s: Store, op: Operation)
    requires Agree(s) && StoreValid(s) && WellFormed(op)
    ensures Agree(Step(s, op)) <==> Harmless(s, op)
  {
    match op
    case Insert(c, h) =>
      if c !in s.chats {
        InsertAgreeIff(s, c, h);
      }
    case Save(c, incoming) =>
      if c in s.chats {
        SaveAgreeIff(s, c, incoming);
      }
    case Upsert(c, messageId, message, now) =>
      if c in s.chats {
        UpsertAgreeIff(s, c, messageId, message, now);
      }
    case Delete(c, messageId) =>
      if c in s.chats {
        DeleteAgreeIff(s, c, messageId);
      }
  }

  ghost predicate IsRun(states: seq<Store>, ops: seq<Operation>) {
    && |states| == |ops| + 1
    && states[0] == Store(map[], map[])
    && forall i :: 0 <= i < |ops| ==>
      && StoreValid(states[i]) && WellFormed(ops[i])
      && states[i + 1] == Step(states[i], ops[i])
  }

  /** Over every run of harmless operations from the empty store the copies agree at every point. */
  lemma {:induction false} RunsAgree(states: seq<Store>, ops: seq<Operation>, n: nat)
    requires IsRun(states, ops) && n <= |ops|
    requires forall i :: 0 <= i < n ==> Harmless(states[i], ops[i])
    ensures Agree(states[n]) && StoreValid(states[n])
  {
    if n > 0 {
      RunsAgree(states, ops, n - 1);
      StepAgreeIff(states[n - 1], ops[n - 1]);
      assert states[n] == Step(states[n - 1], ops[n - 1]);
    }
  }

  /** At every point of every such run, what a chat's rows read back as has exactly the ids, roles,
      parents and contents of its stored history, and each rebuilt children list holds exactly the
      messages naming that parent. */
  lemma RunsReadBackTheHistory(states: seq<Store>, ops: seq<Operation>, n: nat, c: Id, order: seq<string>)
    requires IsRun(states, ops) && n <= |ops| && c in states[n].chats
    requires forall i :: 0 <= i < n ==> Harmless(states[i], ops[i])
    requires ResultSet(states[n].rows, c, order)
    ensures forall r :: r in order ==> r in states[n].rows
    ensures var stored, read := states[n].chats[c].messages, ReadBack(states[n].rows, c, order).messages;
      && read.Keys == stored.Keys
      && forall k :: k in stored ==>
        && read[k].role == stored[k].role
        && ParentOf(read[k]) == ParentOf(stored[k])
        && (stored[k].content.Is? ==> read[k].content == stored[k].content)
        && Distinct(Children(read[k]))
        && forall x :: x in Children(read[k]) <==> x in stored && NamedParent(stored[x]) == Some(k)
  {
    RunsAgree(states, ops, n);
    AgreeingReadsBack(states[n], c, order);
  }

  lemma AgreeingReadsBack(s: Store, c: Id, order: seq<string>)
    requires Agree(s) && c in s.chats && ResultSet(s.rows, c, order)
    ensures forall r :: r in order ==> r in s.rows
    ensures var stored, read := s.chats[c].messages, ReadBack(s.rows, c, order).messages;
      && read.Keys == stored.Keys
      && forall k :: k in stored ==>
        && read[k].role == stored[k].role
        && ParentOf(read[k]) == ParentOf(stored[k])
        && (stored[k].content.Is? ==> read[k].content == stored[k].content)
        && Distinct(Children(read[k]))
        && forall x :: x in Children(read[k]) <==> x in stored && NamedParent(stored[x]) == Some(k)
  {
    StoredMirror(s, c);
    ReadBackFaithful(s.rows, c, order);
    var stored, read := s.chats[c].messages, ReadBack(s.rows, c, order).messages;
    MirrorOfRead(s.rows, c, stored, read);
    ListsOfStored(stored, read);
  }

  /** The lists of what is read, told by the stored parents. */
  lemma ListsOfStored(stored: map<Id, Message>, read: map<Id, Message>)
    requires read.Keys == stored.Keys && ListsNamed(read)
    requires forall k :: k in stored ==> AsStored(read[k], stored[k])
    ensures forall k :: k in stored ==>
      && read[k].role == stored[k].role
      && ParentOf(read[k]) == ParentOf(stored[k])
      && (stored[k].content.Is? ==> read[k].content == stored[k].content)
      && Distinct(Children(read[k]))
      && forall x :: x in Children(read[k]) <==> x in stored && NamedParent(stored[x]) == Some(k)
  {
    forall k | k in stored
      ensures Distinct(Children(read[k]))
      ensures forall x :: x in Children(read[k]) <==> x in stored && NamedParent(stored[x]) == Some(k)
    {
      assert k in read && AsStored(read[k], stored[k]);
      forall x
        ensures x in Children(read[k]) <==> x in stored && NamedParent(stored[x]) == Some(k)
      {
        assert x in stored ==> AsStored(read[x], stored[x]);
      }
    }
  }

  ghost predicate AsStored(read: Message, m: Message) {
    && read.role == m.role
    && ParentOf(read) == ParentOf(m) && NamedParent(read) == NamedParent(m)
    && (m.content.Is? ==> read.content == m.content)
  }

  lemma RowTellsMessage(row: Row, m: Message, read: Message, c: Id, k: Id)
    requires RowFor(row, c, m) && Tells(read, k, row)
    ensures AsStored(read, m)
  {
  }

  lemma MirrorOfRead(rows: map<string, Row>, c: Id, stored: map<Id, Message>, read: map<Id, Message>)
    requires Mirrored(rows, c, stored)
    requires forall k :: k in read <==> Composite(c, k) in rows && rows[Composite(c, k)].chatId == c
    requires forall k :: k in read ==> Tells(read[k], k, rows[Composite(c, k)])
    ensures read.Keys == stored.Keys
    ensures forall k :: k in stored ==> AsStored(read[k], stored[k])
  {
    forall k
      ensures k in read <==> k in stored
    {
      assert AgreeAt(rows, c, stored, k);
    }
    forall k | k in stored
      ensures AsStored(read[k], stored[k])
    {
      assert AgreeAt(rows, c, stored, k);
      RowTellsMessage(rows[Composite(c, k)], stored[k], read[k], c, k);
    }
  }

  /** A chat whose id is apart from all others' finds the row ids of its new messages free. */
  lemma ApartIdsAreFree(s: Store, c: Id, k: Id)
    requires Agree(s) && forall d :: d in s.chats && d != c ==> Apart(c, d)
    requires c in s.chats ==> k !in s.chats[c].messages
    ensures Composite(c, k) !in s.rows
  {
    var r := Composite(c, k);
    StoredMirror(s, c);
    if r in s.rows {
      var d := s.rows[r].chatId;
      assert AgreeAt(s.rows, c, if c in s.chats then s.chats[c].messages else map[], k);
      assert d in s.chats && d + "-" <= r;
      SharedPrefix(c, d, r);
    }
  }

  // ------------------------------------------------------------------ concrete inputs

  /** Saving a copy whose entry for a stored message is no record drops the message and leaves its
      row behind. */
  lemma NonRecordStrandsRow(s: Store, c: Id, incoming: Copy, k: Id)
    requires Agree(s) && c in s.chats && ValidCopy(incoming)
    requires k in s.chats[c].messages && k in incoming.entries && incoming.entries[k].NotARecord?
    ensures var after := Saved(s, c, incoming);
      && c in after.chats && k !in after.chats[c].messages && HasRow(after.rows, c, k)
  {
    assert AgreeAt(s.rows, c, s.chats[c].messages, k);
    MergedFrom(s.chats[c], incoming);
    BackfilledAt(s.rows, c, Merged(CopyOf(s.chats[c]), incoming), k);
  }

  /** A new store with one chat of one message. */
  function OneMessageStore(c: Id, k: Id, m: Message): Store {
    Inserted(Store(map[], map[]), c, OneMessage(k, m))
  }

  function OneMessage(k: Id, m: Message): Hist {
    Hist([k], map[k := m], Some(k))
  }

  lemma OneMessageAgrees(c: Id, k: Id, m: Message)
    requires Truthy(m.role)
    ensures var s := OneMessageStore(c, k, m);
      Agree(s) && s.chats == map[c := OneMessage(k, m)] && HasRow(s.rows, c, k)
  {
    var none := Store(map[], map[]);
    InsertAgreeIff(none, c, OneMessage(k, m));
    var s := Inserted(none, c, OneMessage(k, m));
    assert AgreeAt(s.rows, c, s.chats[c].messages, k);
  }

  lemma SaveStrandsRow(c: Id, k: Id, m: Message)
    requires Truthy(m.role)
    ensures var s, incoming := OneMessageStore(c, k, m), Copy([k], map[k := NotARecord], None);
      Agree(s) && !Agree(Saved(s, c, incoming))
  {
    var s, incoming := OneMessageStore(c, k, m), Copy([k], map[k := NotARecord], None);
    OneMessageAgrees(c, k, m);
    SaveAgreeIff(s, c, incoming);
    assert !EntryFits(s.rows, c, s.chats[c].messages, k, incoming.entries[k]);
  }

  /** Saving a record that lacks the content key leaves the old content in the row. */
  lemma SaveKeepsOldContent(c: Id, k: Id, m: Message)
    requires Truthy(m.role) && m.content.Is?
    ensures var s, incoming := OneMessageStore(c, k, m), Copy([k], map[k := Record(m.(content := Absent))], None);
      Agree(s) && !Agree(Saved(s, c, incoming))
  {
    var s, incoming := OneMessageStore(c, k, m), Copy([k], map[k := Record(m.(content := Absent))], None);
    OneMessageAgrees(c, k, m);
    SaveAgreeIff(s, c, incoming);
    assert !EntryFits(s.rows, c, s.chats[c].messages, k, incoming.entries[k]);
  }

  /** Messages `y` below `x` and `g` below `y`; the role of `g` is patched to the empty text, which
      does no harm, and `x` deleted: `g` moves up, but its row is not written. */
  lemma DeleteKeepsOldParent(c: Id, x: Id, y: Id, g: Id, m: Message, patch: Message, now: int)
    requires x != y && y != g && x != g && Truthy(m.role)
    requires patch.role == Is("") && patch.parentId.Absent? && patch.childrenIds.Absent?
    ensures var s := Inserted(Store(map[], map[]), c, ThreeInARow(x, y, g, m));
      && Agree(s) && StoreValid(s)
      && var patched := MessageUpserted(s, c, g, patch, now);
      && Agree(patched) && StoreValid(patched)
      && !Agree(MessageDeleted(patched, c, x))
  {
    var none, h := Store(map[], map[]), ThreeInARow(x, y, g, m);
    ThreePatched(x, y, g, m, patch);
    InsertAgreeIff(none, c, h);
    var s := Inserted(none, c, h);
    PatchedMessages(s, c, g, patch, now);
    UpsertAgreeIff(s, c, g, patch, now);
    var patched := MessageUpserted(s, c, g, patch, now);
    RolelessHandedUp(patched, c, x, y, g);
  }

  lemma ThreePatched(x: Id, y: Id, g: Id, m: Message, patch: Message)
    requires x != y && y != g && x != g && Truthy(m.role)
    requires patch.role == Is("") && patch.parentId.Absent? && patch.childrenIds.Absent?
    ensures var h := ThreeInARow(x, y, g, m);
      && Valid(h) && (forall k :: k in h.messages ==> Truthy(h.messages[k].role))
      && RolelessBelow(h.messages[g := Patched(h.messages[g], patch)], x, y, g)
  {
  }

  /** `g` below `y` below `x`, `g` without a role. */
  ghost predicate RolelessBelow(messages: map<Id, Message>, x: Id, y: Id, g: Id) {
    && x in messages && y in messages && g in messages && x != y && y != g && x != g
    && Children(messages[x]) == [y] && Children(messages[y]) == [g]
    && !Truthy(messages[g].role) && ParentOf(messages[g]) != ParentOf(messages[x])
  }

  lemma PatchedMessages(s: Store, c: Id, k: Id, patch: Message, now: int)
    requires StoreValid(s) && c in s.chats && k in s.chats[c].messages
    ensures var after := MessageUpserted(s, c, k, patch, now);
      && StoreValid(after) && c in after.chats
      && after.chats[c].messages == s.chats[c].messages[k := Patched(s.chats[c].messages[k], patch)]
  {
  }

  lemma RolelessHandedUp(s: Store, c: Id, x: Id, y: Id, g: Id)
    requires Agree(s) && StoreValid(s) && c in s.chats
    requires RolelessBelow(s.chats[c].messages, x, y, g)
    ensures !Agree(MessageDeleted(s, c, x))
  {
    ThreeHandUp(s.chats[c].messages, x, y, g);
    DeleteAgreeIff(s, c, x);
  }

  function ThreeInARow(x: Id, y: Id, g: Id, m: Message): Hist {
    Hist([x, y, g], map[
      x := m.(parentId := Null, childrenIds := Is([y])),
      y := m.(parentId := Is(x), childrenIds := Is([g])),
      g := m.(parentId := Is(y), childrenIds := Is([]))], Some(g))
  }

  lemma ThreeHandUp(messages: map<Id, Message>, x: Id, y: Id, g: Id)
    requires x in messages && y in messages && g in messages && x != y && y != g && x != g
    requires Children(messages[x]) == [y] && Children(messages[y]) == [g]
    ensures g in HandedUp(messages, x)
  {
    KeepMembers([y], messages.Keys);
    assert y in LiveChildren(messages, x);
    GrandchildMembers(messages, LiveChildren(messages, x));
    assert g in Children(messages[y]);
  }

  /** A chat `a` with a message `b-x`, and a chat `a-b` inserted with a message `x`: its row is taken. */
  lemma InsertFindsRowTaken(m: Message)
    requires Truthy(m.role)
    ensures var s := OneMessageStore("a", "b-x", m);
      Agree(s) && !Agree(Inserted(s, "a-b", OneMessage("x", m)))
  {
    var s := OneMessageStore("a", "b-x", m);
    OneMessageAgrees("a", "b-x", m);
    CompositeCollision();
    assert "a" != "a-b";
    InsertAgreeIff(s, "a-b", OneMessage("x", m));
    assert "x" in OneMessage("x", m).messages;
  }
}
