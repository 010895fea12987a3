/** Repeated reads of a chat whose rows have gaps fill every gap the stored history can fill
    (chats.py, get_messages_map_by_chat_id and backfill_messages_by_chat_id). */
module ChatHealing {
  import opened Collections
  import opened ParentForest
  import opened Messages
  import opened ChatRows
  import opened ChatStore

  /** The chat exists, its rows carry its prefix, and no other chat owns a row id of it. */
  ghost predicate Keyed(s: Store, c: Id) {
    && c in s.chats && Valid(s.chats[c])
    && Prefixed(s.rows, c)
    && forall k :: Composite(c, k) in s.rows ==> s.rows[Composite(c, k)].chatId == c
  }

  /** Stored messages without a row. */
  function WithoutRow(s: Store, c: Id): set<Id>
    requires c in s.chats
  {
    set k | k in s.chats[c].messages && Composite(c, k) !in s.rows
  }

  /** `p` is named by a row of the chat, has no row, and could be written from the history. */
  ghost predicate ResolvableGap(s: Store, c: Id, p: Id)
    requires c in s.chats
  {
    && p != "" && p in WithoutRow(s, c) && Truthy(s.chats[c].messages[p].role)
    && exists r :: r in s.rows && s.rows[r].chatId == c && s.rows[r].parentId == Some(p)
  }

  ghost predicate NoResolvableGap(s: Store, c: Id)
    requires c in s.chats
  {
    forall p :: !ResolvableGap(s, c, p)
  }

  function AfterRead(s: Store, c: Id, order: seq<string>): Store
    requires forall r :: r in order ==> r in s.rows
  {
    Store(s.chats, HealedRows(s, c, order))
  }

  /** A writable message is written by a read of a chat with rows exactly when it is a resolvable
      gap. */
  lemma GapIffMissing(s: Store, c: Id, order: seq<string>, p: Id)
    requires Keyed(s, c) && ResultSet(s.rows, c, order)
    ensures forall r :: r in order ==> r in s.rows
    ensures var stored := s.chats[c].messages;
      p in MissingMessages(ReadBack(s.rows, c, order).messages, stored) * Writable(stored) <==> ResolvableGap(s, c, p)
  {
    ReadBackFaithful(s.rows, c, order);
    UnresolvedIffGap(s, c, ReadBack(s.rows, c, order).messages, p);
  }

  lemma UnresolvedIffGap(s: Store, c: Id, read: map<Id, Message>, p: Id)
    requires Keyed(s, c)
    requires forall k :: k in read <==> Composite(c, k) in s.rows && s.rows[Composite(c, k)].chatId == c
    requires forall k :: k in read ==> ParentOf(read[k]) == s.rows[Composite(c, k)].parentId
    ensures p in MissingMessages(read, s.chats[c].messages) * Writable(s.chats[c].messages) <==> ResolvableGap(s, c, p)
  {
    if ResolvableGap(s, c, p) {
      var r :| r in s.rows && s.rows[r].chatId == c && s.rows[r].parentId == Some(p);
      var k := MessageIdOf(c, r);
      PrefixedIsComposite(c, r);
      assert k in read && NamedParent(read[k]) == Some(p);
    }
    if p in UnresolvedParents(read) {
      var k :| k in read && NamedParent(read[k]) == Some(p) && p !in read;
      assert s.rows[Composite(c, k)].parentId == Some(p);
      assert Composite(c, p) !in s.rows;
    }
  }

  // ------------------------------------------------------------------ what a read returns

  /** The chat has a row for the id `k`. */
  predicate OwnRow(s: Store, c: Id, k: Id) {
    Composite(c, k) in s.rows && s.rows[Composite(c, k)].chatId == c
  }

  /** `k` has no row, but some row of the chat names it as parent and the history holds it. */
  ghost predicate FillsGap(s: Store, c: Id, k: Id) {
    && k != "" && !OwnRow(s, c, k) && c in s.chats && k in s.chats[c].messages
    && exists r :: r in s.rows && s.rows[r].chatId == c && s.rows[r].parentId == Some(k)
  }

  /** What `messages` says of the id `k`: its row's record, listing the rows that name it; or the stored
      message that fills a gap; or nothing. */
  ghost predicate ReadAt(s: Store, c: Id, messages: map<Id, Message>, k: Id) {
    && (k in messages <==> OwnRow(s, c, k) || FillsGap(s, c, k))
    && (OwnRow(s, c, k) && k in messages ==>
      && Tells(messages[k], k, s.rows[Composite(c, k)])
      && Distinct(Children(messages[k]))
      && forall x :: x in Children(messages[k]) <==>
        k != "" && OwnRow(s, c, x) && s.rows[Composite(c, x)].parentId == Some(k))
    && (FillsGap(s, c, k) && k in messages ==> messages[k] == s.chats[c].messages[k])
  }

  /** A read of a chat with rows returns each row's record and the stored messages filling their gaps,
      and nothing else. Without rows it returns the stored messages, and None exactly when the chat
      is unknown too. */
  lemma ReadReturns(s: Store, c: Id, order: seq<string>)
    requires ResultSet(s.rows, c, order) && Prefixed(s.rows, c)
    ensures forall r :: r in order ==> r in s.rows
    ensures var messages := ReadMessages(s, c, order);
      && (messages.None? <==> order == [] && c !in s.chats)
      && (order == [] && c in s.chats ==> messages == Some(s.chats[c].messages))
      && (order != [] ==> messages.Some? && forall k :: ReadAt(s, c, messages.value, k))
  {
    ReadBackFaithful(s.rows, c, order);
    if order != [] {
      var read := ReadBack(s.rows, c, order).messages;
      var stored: map<Id, Message> := if c in s.chats then s.chats[c].messages else map[];
      var messages := ReadMessages(s, c, order).value;
      assert messages == read + Restricted(stored, MissingMessages(read, stored));
      forall k
        ensures ReadAt(s, c, messages, k)
      {
        FilledAt(s, c, read, stored, messages, k);
      }
    }
  }

  lemma FilledAt(s: Store, c: Id, read: map<Id, Message>, stored: map<Id, Message>, messages: map<Id, Message>, k: Id)
    requires Prefixed(s.rows, c) && stored == if c in s.chats then s.chats[c].messages else map[]
    requires forall x :: x in read <==> OwnRow(s, c, x)
    requires forall x :: x in read ==> OwnRow(s, c, x) && Tells(read[x], x, s.rows[Composite(c, x)])
    requires ListsNamed(read) && messages == read + Restricted(stored, MissingMessages(read, stored))
    ensures ReadAt(s, c, messages, k)
  {
    MissingIffGap(s, c, read, stored, k);
    if k in read {
      FaithfulAt(s, c, read, k);
    }
  }

  lemma MissingIffGap(s: Store, c: Id, read: map<Id, Message>, stored: map<Id, Message>, k: Id)
    requires Prefixed(s.rows, c) && stored == if c in s.chats then s.chats[c].messages else map[]
    requires forall x :: x in read <==> OwnRow(s, c, x)
    requires forall x :: x in read ==> OwnRow(s, c, x) && Tells(read[x], x, s.rows[Composite(c, x)])
    ensures k in MissingMessages(read, stored) <==> FillsGap(s, c, k)
  {
    if k in MissingMessages(read, stored) {
      var x :| x in read && NamedParent(read[x]) == Some(k) && k !in read;
      assert s.rows[Composite(c, x)].parentId == Some(k);
    }
    if FillsGap(s, c, k) {
      var r :| r in s.rows && s.rows[r].chatId == c && s.rows[r].parentId == Some(k);
      PrefixedIsComposite(c, r);
      var x := MessageIdOf(c, r);
      assert x in read && NamedParent(read[x]) == Some(k);
    }
  }

  lemma FaithfulAt(s: Store, c: Id, read: map<Id, Message>, k: Id)
    requires forall x :: x in read <==> OwnRow(s, c, x)
    requires forall x :: x in read ==> OwnRow(s, c, x) && Tells(read[x], x, s.rows[Composite(c, x)])
    requires ListsNamed(read) && k in read
    ensures Distinct(Children(read[k]))
    ensures forall x :: x in Children(read[k]) <==>
      k != "" && OwnRow(s, c, x) && s.rows[Composite(c, x)].parentId == Some(k)
  {
  }

  /** The rows of exactly the messages `wanted` were added, each with its message's role, parent and
      content; every other row is as it was. */
  ghost predicate Added(s: Store, c: Id, wanted: set<Id>, rows: map<string, Row>)
    requires c in s.chats
  {
    && (forall r :: r in s.rows ==> r in rows && rows[r] == s.rows[r])
    && (forall r :: r in rows && r !in s.rows ==> r in CompositesAt(c, wanted))
    && forall k :: k in wanted ==>
      && k in s.chats[c].messages && Composite(c, k) in rows
      && var m := s.chats[c].messages[k];
      && m.role.Is? && rows[Composite(c, k)] == Row(c, m.role.value, ParentOf(m), Get(m.content))
  }

  function CompositesAt(c: Id, ids: set<Id>): set<string> {
    set k | k in ids :: Composite(c, k)
  }

  /** Writing some rowless messages with roles adds their rows and touches no other. */
  lemma BackfillAdds(s: Store, c: Id, ids: set<Id>)
    requires Keyed(s, c)
    requires forall k :: k in ids * Writable(s.chats[c].messages) ==> k in WithoutRow(s, c)
    ensures var after := Store(s.chats, BackfilledIds(s.rows, c, s.chats[c], ids));
      && Keyed(after, c)
      && Added(s, c, ids * Writable(s.chats[c].messages), after.rows)
      && WithoutRow(after, c) == WithoutRow(s, c) - ids * Writable(s.chats[c].messages)
  {
    var h, wanted := s.chats[c], ids * Writable(s.chats[c].messages);
    var keys := Keep(h.keys, wanted);
    KeepMembers(h.keys, wanted);
    KeepDistinct(h.keys, wanted);
    assert Batch(keys, h.messages);
    AllWrittenEffect(s.rows, c, keys, h.messages);
    RowsAdded(s, c, keys, wanted, AllWritten(s.rows, c, keys, h.messages));
  }

  lemma RowsAdded(s: Store, c: Id, keys: seq<Id>, wanted: set<Id>, rows: map<string, Row>)
    requires Keyed(s, c) && wanted <= WithoutRow(s, c)
    requires (forall k :: k in keys <==> k in wanted) && wanted <= Writable(s.chats[c].messages)
    requires TouchesOnly(s.rows, rows, CompositesOf(c, keys))
    requires forall k :: k in keys ==>
      && Composite(c, k) in rows
      && RowAfter(s.rows, c, k, s.chats[c].messages[k]) == Some(rows[Composite(c, k)])
    ensures Keyed(Store(s.chats, rows), c)
    ensures Added(s, c, wanted, rows)
    ensures WithoutRow(Store(s.chats, rows), c) == WithoutRow(s, c) - wanted
  {
    forall r | r in CompositesOf(c, keys)
      ensures r !in s.rows && r in rows && rows[r].chatId == c && c + "-" <= r && MessageIdOf(c, r) in wanted
    {
      var k :| k in keys && r == Composite(c, k);
      CompositeRoundTrip(c, k);
    }
    forall k | k in s.chats[c].messages
      ensures Composite(c, k) in rows <==> Composite(c, k) in s.rows || k in wanted
    {
      CompositeRoundTrip(c, k);
    }
  }

  function ResolvableGaps(s: Store, c: Id): set<Id>
    requires c in s.chats
  {
    set p | p in WithoutRow(s, c) && p != "" && Truthy(s.chats[c].messages[p].role) &&
      exists r :: r in s.rows && s.rows[r].chatId == c && s.rows[r].parentId == Some(p)
  }

  /** A read keeps every row as it was, fills exactly the resolvable gaps, and so shrinks the set
      of stored messages without a row whenever there was one. */
  lemma ReadFillsGaps(s: Store, c: Id, order: seq<string>)
    requires Keyed(s, c) && ResultSet(s.rows, c, order) && order != []
    ensures forall r :: r in order ==> r in s.rows
    ensures var after := AfterRead(s, c, order);
      && Keyed(after, c)
      && after.chats == s.chats && Added(s, c, ResolvableGaps(s, c), after.rows)
      && WithoutRow(after, c) == WithoutRow(s, c) - ResolvableGaps(s, c)
      && (forall p :: p in ResolvableGaps(s, c) <==> ResolvableGap(s, c, p))
      && (NoResolvableGap(s, c) ==> after == s)
  {
    var h := s.chats[c];
    GapIffMissing(s, c, order, "");
    var ids := MissingMessages(ReadBack(s.rows, c, order).messages, h.messages);
    forall p
      ensures p in ids * Writable(h.messages) <==> ResolvableGap(s, c, p)
    {
      GapIffMissing(s, c, order, p);
    }
    BackfillAdds(s, c, ids);
    assert ids * Writable(h.messages) == ResolvableGaps(s, c);
    if NoResolvableGap(s, c) {
      assert ids * Writable(h.messages) == {};
      KeepNone(h.keys, ids * Writable(h.messages));
    }
  }

  /** The first read of a chat without rows writes every message with a role, which leaves no
      resolvable gap. */
  lemma FirstReadLeavesNoGap(s: Store, c: Id)
    requires Keyed(s, c) && ResultSet(s.rows, c, [])
    ensures Keyed(AfterRead(s, c, []), c) && NoResolvableGap(AfterRead(s, c, []), c)
    ensures Added(s, c, Writable(s.chats[c].messages), AfterRead(s, c, []).rows)
    ensures WithoutRow(AfterRead(s, c, []), c) == WithoutRow(s, c) - Writable(s.chats[c].messages)
  {
    var h := s.chats[c];
    var none: seq<string> := [];
    assert forall k :: Composite(c, k) in s.rows ==> Composite(c, k) in none;
    BackfillAdds(s, c, h.messages.Keys);
    assert h.messages.Keys * Writable(h.messages) == Writable(h.messages);
  }

  /** A sequence of reads of one chat, the rows coming back in any order each time. */
  ghost predicate Reads(states: seq<Store>, orders: seq<seq<string>>, c: Id) {
    && |states| == |orders| + 1
    && Keyed(states[0], c)
    && forall i :: 0 <= i < |orders| ==>
      && ResultSet(states[i].rows, c, orders[i])
      && (forall r :: r in orders[i] ==> r in states[i].rows)
      && states[i + 1] == AfterRead(states[i], c, orders[i])
  }

  lemma OneRead(s: Store, c: Id, order: seq<string>)
    requires Keyed(s, c) && ResultSet(s.rows, c, order) && forall r :: r in order ==> r in s.rows
    ensures var after := AfterRead(s, c, order);
      && Keyed(after, c)
      && |WithoutRow(after, c)| <= |WithoutRow(s, c)|
      && (NoResolvableGap(after, c) || |WithoutRow(after, c)| < |WithoutRow(s, c)|)
      && (NoResolvableGap(s, c) ==> NoResolvableGap(after, c))
  {
    var after := AfterRead(s, c, order);
    if order == [] {
      FirstReadLeavesNoGap(s, c);
      SubsetSize(WithoutRow(after, c), WithoutRow(s, c));
    } else {
      ReadFillsGaps(s, c, order);
      SubsetSize(WithoutRow(after, c), WithoutRow(s, c));
      if !NoResolvableGap(s, c) {
        var p :| ResolvableGap(s, c, p);
        SubsetSize(WithoutRow(after, c), WithoutRow(s, c) - {p});
      }
    }
  }

  lemma {:induction false} ReadsProgress(states: seq<Store>, orders: seq<seq<string>>, c: Id, n: nat)
    requires Reads(states, orders, c) && n <= |orders|
    ensures Keyed(states[n], c)
    ensures NoResolvableGap(states[n], c) || |WithoutRow(states[n], c)| + n <= |WithoutRow(states[0], c)|
  {
    if n > 0 {
      ReadsProgress(states, orders, c, n - 1);
      assert states[n] == AfterRead(states[n - 1], c, orders[n - 1]);
      OneRead(states[n - 1], c, orders[n - 1]);
    }
  }

  /** After as many reads as there were messages without a row, no resolvable gap remains: every
      parent a row names has its row, is unknown to the history, or has no role there. */
  lemma ReadsConverge(states: seq<Store>, orders: seq<seq<string>>, c: Id)
    requires Reads(states, orders, c) && |orders| >= |WithoutRow(states[0], c)|
    ensures c in states[|orders|].chats
    ensures NoResolvableGap(states[|orders|], c)
  {
    ReadsProgress(states, orders, c, |orders|);
    assert |WithoutRow(states[|orders|], c)| == 0 ==> WithoutRow(states[|orders|], c) == {};
  }
}
