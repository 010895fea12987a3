/** Adding or patching one message of a chat history (chats.py, upsert_message_to_history). */
module HistoryUpsert {
  import opened Collections
  import opened ParentForest
  import opened Messages
  import opened HistoryMerge
  import opened MergeForest

  /** What the search for a message listing `messageId` as a child comes to. A children list that
      is null, not missing, stops it with an exception. */
  datatype Lister = Nobody | Lists(owner: Id) | Raises

  /** Search in key order. */
  function FindLister(keys: seq<Id>, messages: map<Id, Message>, messageId: Id): Lister {
    if keys == [] then Nobody
    else
      var before := FindLister(keys[..|keys| - 1], messages, messageId);
      var k := keys[|keys| - 1];
      if before != Nobody || k !in messages then before
      else if messages[k].childrenIds.Null? then Raises
      else if messageId in Children(messages[k]) then Lists(k)
      else Nobody
  }

  /** The role of a new message: its own, else its output's, else the one answering its parent's. */
  function RoleFor(message: Message, parent: Option<Message>): string {
    if Truthy(message.role) then message.role.value
    else if OutputRole(message).Some? then OutputRole(message).value
    else if parent.Some? && parent.value.role == Is("assistant") then "user"
    else "assistant"
  }

  /** The record stored for a new message below `parentId`. */
  function NewMessage(h: Hist, messageId: Id, message: Message, parentId: Option<Id>, now: int): Message {
    var parent := if parentId.Some? && parentId.value != "" && parentId.value in h.messages
      then Some(h.messages[parentId.value]) else None;
    message.(
      id := if Truthy(message.id) then message.id else Is(messageId),
      parentId := ToField(parentId),
      childrenIds := Is(Children(message)),
      role := Is(RoleFor(message, parent)),
      timestamp := if message.timestamp.Is? && message.timestamp.value != 0 then message.timestamp else Is(now))
  }

  /** The history after an upsert, or None when the search for the parent raises. */
  function Upserted(h: Hist, messageId: Id, message: Message, now: int): Option<Hist> {
    if messageId in h.messages then
      Some(h.(messages := h.messages[messageId := Patched(h.messages[messageId], message)]))
    else
      var lister := if ParentOf(message).Some? then Nobody else FindLister(h.keys, h.messages, messageId);
      if lister.Raises? then None
      else
        var parentId := if lister.Lists? then Some(lister.owner) else ParentOf(message);
        Some(Hist(
          h.keys + [messageId],
          h.messages[messageId := NewMessage(h, messageId, message, parentId, now)],
          Some(messageId)))
  }

  method SearchLister(keys: seq<Id>, messages: map<Id, Message>, messageId: Id) returns (lister: Lister)
    requires forall k :: k in keys ==> k in messages
    ensures lister == FindLister(keys, messages, messageId)
  {
    for i := 0 to |keys|
      invariant FindLister(keys[..i], messages, messageId) == Nobody
    {
      assert keys[i] in keys;
      assert keys[..i + 1][..i] == keys[..i];
      var message := messages[keys[i]];
      if message.childrenIds.Null? {
        FoundStays(keys, i + 1, messages, messageId);
        return Raises;
      }
      if messageId in Children(message) {
        FoundStays(keys, i + 1, messages, messageId);
        return Lists(keys[i]);
      }
    }
    assert keys[..|keys|] == keys;
    return Nobody;
  }

  /** The first hit decides. */
  lemma {:induction false} FoundStays(keys: seq<Id>, i: nat, messages: map<Id, Message>, messageId: Id)
    requires i <= |keys| && FindLister(keys[..i], messages, messageId) != Nobody
    ensures FindLister(keys, messages, messageId) == FindLister(keys[..i], messages, messageId)
    decreases |keys| - i
  {
    if i == |keys| {
      assert keys[..i] == keys;
    } else {
      assert keys[..i + 1][..i] == keys[..i];
      FoundStays(keys, i + 1, messages, messageId);
    }
  }

  // ------------------------------------------------------------------ what an upsert does

  /** The search passes over `k`: its children list is a list or missing, and lacks the id. */
  ghost predicate Passes(messages: map<Id, Message>, k: Id, messageId: Id) {
    k in messages && !messages[k].childrenIds.Null? && messageId !in Children(messages[k])
  }

  /** Position `i` is the first the search does not pass over. */
  ghost predicate StopsAt(keys: seq<Id>, messages: map<Id, Message>, messageId: Id, i: nat) {
    && i < |keys| && keys[i] in messages && !Passes(messages, keys[i], messageId)
    && forall j :: 0 <= j < i ==> Passes(messages, keys[j], messageId)
  }

  /** The search stops at the first children list that is null or names the id, and finds nobody
      exactly when there is none. */
  lemma {:induction false} ListerIsFirst(keys: seq<Id>, messages: map<Id, Message>, messageId: Id)
    requires forall k :: k in keys ==> k in messages
    ensures var lister := FindLister(keys, messages, messageId);
      && (lister.Nobody? <==> forall i :: 0 <= i < |keys| ==> Passes(messages, keys[i], messageId))
      && (lister.Lists? ==>
        exists i: nat ::
          StopsAt(keys, messages, messageId, i) && keys[i] == lister.owner && messageId in Children(messages[keys[i]]))
      && (lister.Raises? ==>
        exists i: nat :: StopsAt(keys, messages, messageId, i) && messages[keys[i]].childrenIds.Null?)
  {
    if keys != [] {
      var front, last := keys[..|keys| - 1], |keys| - 1;
      assert forall x :: x in front ==> x in keys;
      assert keys[last] in keys;
      ListerIsFirst(front, messages, messageId);
      if FindLister(front, messages, messageId) == Nobody {
        assert forall i :: 0 <= i < last ==> Passes(messages, front[i], messageId);
        assert FindLister(keys, messages, messageId) != Nobody ==> StopsAt(keys, messages, messageId, last);
      } else {
        var i: nat :| StopsAt(front, messages, messageId, i)
          && (FindLister(front, messages, messageId).Lists? ==>
            front[i] == FindLister(front, messages, messageId).owner && messageId in Children(messages[front[i]]))
          && (FindLister(front, messages, messageId).Raises? ==> messages[front[i]].childrenIds.Null?);
        assert forall j :: 0 <= j < i && Passes(messages, front[j], messageId) ==> Passes(messages, keys[j], messageId);
        assert StopsAt(keys, messages, messageId, i);
        assert !Passes(messages, keys[i], messageId);
      }
    }
  }

  lemma StopDecides(keys: seq<Id>, messages: map<Id, Message>, messageId: Id, i: nat)
    requires forall k :: k in keys ==> k in messages
    requires StopsAt(keys, messages, messageId, i)
    ensures FindLister(keys, messages, messageId) ==
      if messages[keys[i]].childrenIds.Null? then Raises else Lists(keys[i])
  {
    assert forall j :: 0 <= j < i ==> keys[..i][j] == keys[j] && keys[j] in keys;
    ListerIsFirst(keys[..i], messages, messageId);
    assert keys[..i + 1][..i] == keys[..i];
    FoundStays(keys, i + 1, messages, messageId);
  }

  /** An upsert touches one message. A known id is patched in place and the current id stays; a new
      one is appended, gets a role, an id and a nonzero timestamp, and becomes current. */
  lemma UpsertTouchesOneMessage(h: Hist, messageId: Id, message: Message, now: int)
    requires Valid(h) && Upserted(h, messageId, message, now).Some?
    ensures var after := Upserted(h, messageId, message, now).value;
      && Valid(after)
      && after.messages.Keys == h.messages.Keys + {messageId}
      && (forall k :: k in h.messages && k != messageId ==> after.messages[k] == h.messages[k])
      && (messageId in h.messages ==> after.keys == h.keys && after.currentId == h.currentId)
      && (messageId !in h.messages ==>
        var m := after.messages[messageId];
        && after.keys == h.keys + [messageId] && after.currentId == Some(messageId)
        && m.id.Is? && m.childrenIds.Is? && m.role.Is?
        && (messageId != "" ==> Truthy(m.id))
        && (now != 0 ==> m.timestamp.Is? && m.timestamp.value != 0)
        && Truthy(m.role)
        && m.content == message.content && m.extra == message.extra && m.output == message.output)
  {
    if messageId !in h.messages {
      FirstRoleTruthy(message);
    }
  }

  /** After patching a known id each key the patch carries has the patch's value, null included, and
      every other key the stored one. */
  lemma PatchSetsFields(h: Hist, messageId: Id, message: Message, now: int)
    requires Valid(h) && messageId in h.messages
    ensures Upserted(h, messageId, message, now).Some?
    ensures var old', m := h.messages[messageId], Upserted(h, messageId, message, now).value.messages[messageId];
      && m.id == (if message.id.Absent? then old'.id else message.id)
      && m.parentId == (if message.parentId.Absent? then old'.parentId else message.parentId)
      && m.childrenIds == (if message.childrenIds.Absent? then old'.childrenIds else message.childrenIds)
      && m.role == (if message.role.Absent? then old'.role else message.role)
      && m.timestamp == (if message.timestamp.Absent? then old'.timestamp else message.timestamp)
      && m.output == (if message.output.Absent? then old'.output else message.output)
      && m.contextSummary == (if message.contextSummary.Absent? then old'.contextSummary else message.contextSummary)
      && m.content == (if message.content.Absent? then old'.content else message.content)
      && m.extra.Keys == old'.extra.Keys + message.extra.Keys
      && forall k :: k in m.extra ==> m.extra[k] == if k in message.extra then message.extra[k] else old'.extra[k]
  {
  }

  /** The parent of a new message: the one it names, else the first message listing it, else none. */
  ghost predicate NewParent(h: Hist, messageId: Id, message: Message, parentId: Field<Id>)
    requires Valid(h)
  {
    if message.parentId.Is? then parentId == message.parentId
    else if exists i: nat :: StopsAt(h.keys, h.messages, messageId, i)
    then exists i: nat :: StopsAt(h.keys, h.messages, messageId, i) && parentId == Is(h.keys[i])
    else parentId == Null
  }

  /** The role of a new message: its own nonempty one, else the first nonempty one of its output items,
      else the one answering its parent: the user's below an assistant, the assistant's elsewhere. */
  ghost predicate NewRole(h: Hist, message: Message, parentId: Field<Id>, role: Field<string>) {
    if message.role.Is? && message.role.value != "" then role == message.role
    else if message.output.Is? && exists i: nat :: FirstTruthyAt(message.output.value, i)
    then exists i: nat :: FirstTruthyAt(message.output.value, i) && role == message.output.value[i]
    else
      role == Is(
        if parentId.Is? && parentId.value != "" && parentId.value in h.messages &&
           h.messages[parentId.value].role == Is("assistant")
        then "user" else "assistant")
  }

  /** The record stored for a new message, key by key. */
  lemma NewMessageFields(h: Hist, messageId: Id, message: Message, now: int)
    requires Valid(h) && messageId !in h.messages && Upserted(h, messageId, message, now).Some?
    ensures var m := Upserted(h, messageId, message, now).value.messages[messageId];
      && m.id == (if message.id.Is? && message.id.value != "" then message.id else Is(messageId))
      && NewParent(h, messageId, message, m.parentId)
      && m.childrenIds == (if message.childrenIds.Is? then message.childrenIds else Is([]))
      && NewRole(h, message, m.parentId, m.role)
      && m.timestamp == (if message.timestamp.Is? && message.timestamp.value != 0 then message.timestamp else Is(now))
      && m.content == message.content && m.output == message.output
      && m.contextSummary == message.contextSummary && m.extra == message.extra
  {
    ListerIsFirst(h.keys, h.messages, messageId);
    if message.output.Is? {
      FirstRoleIsFirst(message.output.value);
      forall i: nat, j: nat | FirstTruthyAt(message.output.value, i) && FirstTruthyAt(message.output.value, j)
        ensures i == j
      {
      }
    }
    forall i: nat | StopsAt(h.keys, h.messages, messageId, i)
      ensures ParentOf(message).None? ==> FindLister(h.keys, h.messages, messageId) == Lists(h.keys[i])
    {
      StopDecides(h.keys, h.messages, messageId, i);
    }
  }

  lemma FirstRoleTruthy(m: Message)
    ensures OutputRole(m).Some? ==> OutputRole(m).value != ""
  {
    if m.output.Is? {
      FirstRoleIsFirst(m.output.value);
    }
  }

  /** An upsert raises exactly when the id is new, names no parent, and the first children list
      that is null or names the id is null. */
  lemma UpsertRaisesIff(h: Hist, messageId: Id, message: Message, now: int)
    requires Valid(h)
    ensures Upserted(h, messageId, message, now).None? <==>
      (&& messageId !in h.messages && ParentOf(message).None?
       && exists i: nat :: StopsAt(h.keys, h.messages, messageId, i) && h.messages[h.keys[i]].childrenIds.Null?)
  {
    ListerIsFirst(h.keys, h.messages, messageId);
    forall i: nat | StopsAt(h.keys, h.messages, messageId, i) && h.messages[h.keys[i]].childrenIds.Null?
      ensures FindLister(h.keys, h.messages, messageId).Raises?
    {
      StopDecides(h.keys, h.messages, messageId, i);
    }
  }

  /** One stored message whose children list is null: adding a message that names no parent raises. */
  lemma NullListRaises(k: Id, m: Message, messageId: Id, message: Message, now: int)
    requires k != messageId && message.parentId.Absent?
    ensures Upserted(Hist([k], map[k := m.(childrenIds := Null)], Some(k)), messageId, message, now).None?
  {
    var h := Hist([k], map[k := m.(childrenIds := Null)], Some(k));
    assert StopsAt(h.keys, h.messages, messageId, 0);
    UpsertRaisesIff(h, messageId, message, now);
  }

  /** The parents after adding a message nobody lists. */
  lemma ParentsAfterUpsert(h: Hist, messageId: Id, message: Message, now: int)
    requires Forest(h) && messageId !in h.messages
    requires Upserted(h, messageId, message, now).Some?
    ensures var after := Upserted(h, messageId, message, now).value.messages;
      && after.Keys == h.messages.Keys + {messageId}
      && after == h.messages[messageId := after[messageId]]
      && ParentOf(after[messageId]) == ParentOf(message)
  {
    NobodyLists(h, messageId);
  }

  /** Adding a leaf below an existing node, or as a root, keeps links resolved and acyclic. */
  lemma LeafKeepsResolvedAcyclic(before: map<Id, Message>, k: Id, m: Message)
    requires k !in before && Resolved(before) && Acyclic(Links(before))
    requires ParentOf(m).Some? ==> ParentOf(m).value in before
    ensures Resolved(before[k := m]) && Acyclic(Links(before[k := m]))
  {
    var rank :| Ranked(Links(before), rank);
    var above := if NamedParent(m).Some? && NamedParent(m).value in before then rank[NamedParent(m).value] + 1 else 0;
    var rank', links := rank[k := above], Links(before[k := m]);
    forall x | x in links && links[x].Some? && links[x].value in links
      ensures rank'[links[x].value] < rank'[x]
    {
      if x != k {
        assert links[x] == Links(before)[x];
        assert ParentOf(before[x]) == links[x];
      }
    }
    assert Ranked(links, rank');
  }

  /** Adding a message below an existing one, or as a root, to a consistent history keeps the
      parent links acyclic and resolved. The parent does not list it: only the child-to-parent
      link is written. */
  lemma UpsertAddsOneSidedLink(h: Hist, messageId: Id, message: Message, now: int)
    requires Forest(h) && messageId != "" && messageId !in h.messages
    requires ParentOf(message).Some? ==> ParentOf(message).value in h.messages
    requires Upserted(h, messageId, message, now).Some?
    ensures var after := Upserted(h, messageId, message, now).value;
      && Valid(after) && "" !in after.messages
      && Resolved(after.messages) && Acyclic(Links(after.messages))
      && ParentOf(after.messages[messageId]) == ParentOf(message)
      && (forall k :: k in h.messages ==> messageId !in Children(after.messages[k]))
  {
    var after := Upserted(h, messageId, message, now).value;
    NobodyLists(h, messageId);
    UpsertTouchesOneMessage(h, messageId, message, now);
    ParentsAfterUpsert(h, messageId, message, now);
    LeafKeepsResolvedAcyclic(h.messages, messageId, after.messages[messageId]);
  }

  /** Nobody lists an id a consistent history does not hold, so a new message keeps the parent it
      names. */
  lemma NobodyLists(h: Hist, messageId: Id)
    requires Forest(h) && messageId !in h.messages
    ensures forall k :: k in h.messages ==> messageId !in Children(h.messages[k])
    ensures !FindLister(h.keys, h.messages, messageId).Lists?
  {
    ListerIsFirst(h.keys, h.messages, messageId);
  }

  /** Adding a message below its parent and then merging makes the history consistent again, the
      new message listed by its parent. */
  lemma MergeAfterUpsertIsForest(h: Hist, messageId: Id, message: Message, now: int)
    requires Forest(h) && messageId != "" && messageId !in h.messages
    requires ParentOf(message).Some? ==> ParentOf(message).value in h.messages
    requires Upserted(h, messageId, message, now).Some?
    ensures var after := Upserted(h, messageId, message, now).value;
      var merged := Merged(CopyOf(after), CopyOf(after));
      && Forest(merged)
      && merged.messages.Keys == h.messages.Keys + {messageId}
      && (ParentOf(message).Some? ==> messageId in Children(merged.messages[ParentOf(message).value]))
  {
    var after := Upserted(h, messageId, message, now).value;
    UpsertAddsOneSidedLink(h, messageId, message, now);
    UpsertTouchesOneMessage(h, messageId, message, now);
    SelfMergeLists(after, messageId);
  }

  lemma SelfMergeLists(h: Hist, k: Id)
    requires SoundParents(h) && k in h.messages
    ensures var merged := Merged(CopyOf(h), CopyOf(h));
      && Forest(merged) && merged.messages.Keys == h.messages.Keys
      && (ParentOf(h.messages[k]).Some? ==>
        var p := ParentOf(h.messages[k]).value;
        p in merged.messages && k in Children(merged.messages[p]))
  {
    MergeIsForest(h, h);
    MergedParents(h, h);
    ForestLists(Merged(CopyOf(h), CopyOf(h)), k);
  }

  lemma ForestLists(h: Hist, k: Id)
    requires Forest(h) && k in h.messages
    ensures ParentOf(h.messages[k]).Some? ==>
      var p := ParentOf(h.messages[k]).value;
      p in h.messages && k in Children(h.messages[p])
  {
  }
}
