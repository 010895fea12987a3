/** Chat messages as the JSON records of backend/open_webui/models/chats.py, and the message
    dictionary of one chat with its current id. */
module Messages {
  import opened Collections
  import opened ParentForest

  /** A key of a JSON record: missing, present with null, or present with a value. */
  datatype Field<+T> = Absent | Null | Is(value: T)

  /** What `record.get(key)` yields: a missing key and a null read the same. */
  function Get<T>(f: Field<T>): Option<T> {
    if f.Is? then Some(f.value) else None
  }

  function ToField<T>(o: Option<T>): Field<T> {
    if o.Some? then Is(o.value) else Null
  }

  /** `{**old, **new}` at one key. */
  function Over<T>(old': Field<T>, new': Field<T>): Field<T> {
    if new'.Absent? then old' else new'
  }

  predicate Truthy(f: Field<string>) {
    f.Is? && f.value != ""
  }

  /** The keys the chat code inspects; `extra` holds all others, opaque. `output` lists the role
      of each output item. */
  datatype Message = Message(
    id: Field<Id>,
    parentId: Field<Id>,
    childrenIds: Field<seq<Id>>,
    role: Field<string>,
    timestamp: Field<int>,
    output: Field<seq<Field<string>>>,
    contextSummary: Field<string>,
    content: Field<string>,
    extra: map<string, string>)

  /** `{**old, **new}` on whole records. */
  function Patched(old': Message, new': Message): Message {
    Message(
      Over(old'.id, new'.id),
      Over(old'.parentId, new'.parentId),
      Over(old'.childrenIds, new'.childrenIds),
      Over(old'.role, new'.role),
      Over(old'.timestamp, new'.timestamp),
      Over(old'.output, new'.output),
      Over(old'.contextSummary, new'.contextSummary),
      Over(old'.content, new'.content),
      old'.extra + new'.extra)
  }

  function ParentOf(m: Message): Option<Id> {
    Get(m.parentId)
  }

  /** The parent as the lineage walk and the row table see it: an empty id names nobody. */
  function NamedParent(m: Message): Option<Id> {
    if m.parentId == Is("") then None else Get(m.parentId)
  }

  function Children(m: Message): seq<Id> {
    if m.childrenIds.Is? then m.childrenIds.value else []
  }

  /** The first truthy role among the output items. */
  function OutputRole(m: Message): Option<string> {
    if m.output.Is? then FirstRole(m.output.value) else None
  }

  function FirstRole(roles: seq<Field<string>>): Option<string> {
    if roles == [] then None
    else if Truthy(roles[0]) then Some(roles[0].value)
    else FirstRole(roles[1..])
  }

  /** Position `i` holds the first nonempty role. */
  ghost predicate FirstTruthyAt(roles: seq<Field<string>>, i: nat) {
    i < |roles| && Truthy(roles[i]) && forall j :: 0 <= j < i ==> !Truthy(roles[j])
  }

  /** The role taken from a list of items is the first nonempty one, and none is taken exactly when
      no item has one. */
  lemma {:induction false} FirstRoleIsFirst(roles: seq<Field<string>>)
    ensures FirstRole(roles).Some? ==>
      exists i: nat :: FirstTruthyAt(roles, i) && roles[i] == Is(FirstRole(roles).value)
    ensures FirstRole(roles).None? <==> forall i :: 0 <= i < |roles| ==> !Truthy(roles[i])
  {
    if roles != [] {
      FirstRoleIsFirst(roles[1..]);
      if Truthy(roles[0]) {
        assert FirstTruthyAt(roles, 0);
      } else if FirstRole(roles[1..]).Some? {
        var i: nat :| FirstTruthyAt(roles[1..], i) && roles[1..][i] == Is(FirstRole(roles[1..]).value);
        assert forall j :: 0 < j < |roles| ==> roles[j] == roles[1..][j - 1];
        assert FirstTruthyAt(roles, i + 1);
      } else {
        assert forall j :: 0 < j < |roles| ==> roles[j] == roles[1..][j - 1];
      }
    }
  }

  /** The message with its links left out: what no link repair may change. */
  function Body(m: Message): Message {
    m.(parentId := Absent, childrenIds := Absent)
  }

  /** The message with its children list left out. */
  function Unlisted(m: Message): Message {
    m.(childrenIds := Absent)
  }

  function WithChildren(m: Message, ids: seq<Id>): Message {
    m.(childrenIds := Is(ids))
  }

  lemma UnlistedDetermines(m: Message, n: Message, ids: seq<Id>)
    requires Unlisted(m) == Unlisted(n)
    ensures ParentOf(m) == ParentOf(n)
    ensures WithChildren(m, ids) == WithChildren(n, ids)
  {
    assert Unlisted(m).parentId == Unlisted(n).parentId;
    assert WithChildren(Unlisted(m), ids) == WithChildren(Unlisted(n), ids);
  }

  /** The history of one chat: the message dictionary, in insertion order, and the current id. */
  datatype Hist = Hist(keys: seq<Id>, messages: map<Id, Message>, currentId: Option<Id>)

  ghost predicate Valid(h: Hist) {
    && Distinct(h.keys)
    && forall k :: k in h.keys <==> k in h.messages
  }

  function Links(messages: map<Id, Message>): Parents {
    map k | k in messages :: NamedParent(messages[k])
  }

  /** Every children list names exactly the messages naming its owner, each once. */
  ghost predicate TwoSided(messages: map<Id, Message>) {
    && (forall k {:trigger Children(messages[k])} :: k in messages ==> Distinct(Children(messages[k])))
    && (forall k, c {:trigger c in Children(messages[k])} :: k in messages && c in Children(messages[k]) ==>
      c in messages && ParentOf(messages[c]) == Some(k))
    && (forall c {:trigger ParentOf(messages[c])} ::
      c in messages && ParentOf(messages[c]).Some? && ParentOf(messages[c]).value in messages ==>
        c in Children(messages[ParentOf(messages[c]).value]))
  }

  /** No message names a missing parent. */
  ghost predicate Resolved(messages: map<Id, Message>) {
    forall k {:trigger ParentOf(messages[k])} ::
      k in messages && ParentOf(messages[k]).Some? ==> ParentOf(messages[k]).value in messages
  }

  /** A consistent history: unique nonempty ids, mutually inverse links, no dangling parent, no
      cycle. */
  ghost predicate Forest(h: Hist) {
    && Valid(h)
    && "" !in h.messages
    && TwoSided(h.messages)
    && Resolved(h.messages)
    && Acyclic(Links(h.messages))
  }

  /** `[x for x in ids if x in wanted]`. */
  method Select(ids: seq<Id>, wanted: set<Id>) returns (kept: seq<Id>)
    ensures kept == Keep(ids, wanted)
  {
    kept := [];
    for i := 0 to |ids|
      invariant kept == Keep(ids[..i], wanted)
    {
      KeepStep(ids, i, wanted);
      if ids[i] in wanted {
        kept := kept + [ids[i]];
      }
    }
    assert ids[..|ids|] == ids;
  }
}
