/** The version history of prompts: a table of entries, each naming the entry it was derived
    from (backend/open_webui/models/prompt_history.py). */
module PromptHistory {
  import opened Collections
  import opened ParentForest

  /** `body` stands for the snapshot, author, commit message and creation time. */
  datatype Entry = Entry(promptId: Id, parentId: Option<Id>, body: string)

  function Links(entries: map<Id, Entry>): Parents {
    map k | k in entries :: entries[k].parentId
  }

  /** The entries naming `historyId` as parent, whichever prompt they belong to. */
  function Children(entries: map<Id, Entry>, historyId: Id): set<Id> {
    set k | k in entries && entries[k].parentId == Some(historyId)
  }

  /** The table after deleting `historyId` on behalf of `promptId`. */
  function Spliced(entries: map<Id, Entry>, historyId: Id, promptId: Id): map<Id, Entry> {
    if historyId !in entries || entries[historyId].promptId != promptId then entries
    else
      map k | k in entries && k != historyId ::
        if entries[k].parentId == Some(historyId)
        then entries[k].(parentId := entries[historyId].parentId)
        else entries[k]
  }

  class PromptHistoryTable {
    var entries: map<Id, Entry>

    constructor ()
      ensures entries == map[]
    {
      entries := map[];
    }

    method CreateHistoryEntry(id: Id, promptId: Id, parentId: Option<Id>, body: string)
      requires id !in entries
      modifies this
      ensures entries == old(entries)[id := Entry(promptId, parentId, body)]
    {
      entries := entries[id := Entry(promptId, parentId, body)];
    }

    /** Hands the children of the entry to its own parent, one child at a time, then deletes
        it. An id of another prompt changes nothing. */
    method DeleteHistoryEntry(historyId: Id, promptId: Id) returns (deleted: bool)
      modifies this
      ensures deleted <==> historyId in old(entries) && old(entries)[historyId].promptId == promptId
      ensures entries == Spliced(old(entries), historyId, promptId)
    {
      if historyId !in entries || entries[historyId].promptId != promptId {
        return false;
      }
      ghost var before := entries;
      var entry := entries[historyId];
      var children := Children(entries, historyId);
      var todo := children;
      while todo != {}
        invariant todo <= children
        invariant entries.Keys == before.Keys
        invariant forall k :: k in entries ==>
          (entries[k] == if k in children - todo then before[k].(parentId := entry.parentId) else before[k])
        decreases todo
      {
        var child :| child in todo;
        entries := entries[child := entries[child].(parentId := entry.parentId)];
        todo := todo - {child};
      }
      entries := entries - {historyId};
      return true;
    }
  }

  /** The table after a deletion, entry by entry: an unknown id or one of another prompt changes nothing;
      else exactly the entry goes, the entries naming it name its parent, and all else stays. */
  lemma DeleteLeaves(entries: map<Id, Entry>, historyId: Id, promptId: Id)
    ensures var after := Spliced(entries, historyId, promptId);
      if historyId in entries && entries[historyId].promptId == promptId then
        && after.Keys == entries.Keys - {historyId}
        && forall k :: k in after ==>
          && after[k].promptId == entries[k].promptId && after[k].body == entries[k].body
          && after[k].parentId ==
            if entries[k].parentId == Some(historyId) then entries[historyId].parentId else entries[k].parentId
      else after == entries
  {
  }

  /** The splice is the contraction of the parent relation at the deleted entry. */
  lemma SpliceContracts(entries: map<Id, Entry>, historyId: Id, promptId: Id, rank: map<Id, nat>)
    requires Ranked(Links(entries), rank)
    requires historyId in entries && entries[historyId].promptId == promptId
    ensures Contracts(Links(entries), rank, {historyId}, Links(Spliced(entries, historyId, promptId)))
  {
    var p, q := Links(entries), Links(Spliced(entries, historyId, promptId));
    forall k | k in q
      ensures q[k] == Survivor(p, rank, {historyId}, p[k])
    {
      if p[k] == Some(historyId) {
        assert Survivor(p, rank, {historyId}, p[k]) == Survivor(p, rank, {historyId}, p[historyId]);
      }
    }
  }

  /** Deleting an entry from an acyclic table keeps it acyclic, keeps every other entry's prompt
      and body, and turns each remaining ancestor sequence into the old one with just that entry
      removed. */
  lemma DeleteKeepsLineages(entries: map<Id, Entry>, historyId: Id, promptId: Id)
    requires Acyclic(Links(entries))
    ensures var after := Spliced(entries, historyId, promptId);
      && Acyclic(Links(after))
      && forall k :: k in after ==>
        && k in entries
        && after[k] == entries[k].(parentId := after[k].parentId)
        && Lineage(Links(after), k, {}) == Keep(Lineage(Links(entries), k, {}), after.Keys)
  {
    var after := Spliced(entries, historyId, promptId);
    var p, q := Links(entries), Links(after);
    var rank :| Ranked(p, rank);
    if historyId in entries && entries[historyId].promptId == promptId {
      SpliceContracts(entries, historyId, promptId, rank);
      ContractionRanked(p, rank, {historyId}, q);
      forall k | k in after
        ensures Lineage(q, k, {}) == Keep(Lineage(p, k, {}), after.Keys)
      {
        ContractionLineage(p, rank, {historyId}, q, k);
        assert q.Keys == after.Keys;
      }
    } else {
      forall k | k in after
        ensures Keep(Lineage(p, k, {}), after.Keys) == Lineage(p, k, {})
      {
        KeepAll(Lineage(p, k, {}), after.Keys);
      }
    }
  }

  datatype Operation =
    | Create(id: Id, promptId: Id, parentId: Option<Id>, body: string)
    | Delete(id: Id, promptId: Id)

  /** One table operation; creation draws an id no entry has or names. */
  function Apply(entries: map<Id, Entry>, op: Operation): map<Id, Entry> {
    match op
    case Create(id, promptId, parentId, body) => entries[id := Entry(promptId, parentId, body)]
    case Delete(id, promptId) => Spliced(entries, id, promptId)
  }

  ghost predicate FreshId(entries: map<Id, Entry>, op: Operation) {
    op.Create? ==>
      && op.id !in entries
      && op.parentId != Some(op.id)
      && forall k :: k in entries ==> entries[k].parentId != Some(op.id)
  }

  function Run(entries: map<Id, Entry>, ops: seq<Operation>): map<Id, Entry> {
    if ops == [] then entries else Apply(Run(entries, ops[..|ops| - 1]), ops[|ops| - 1])
  }

  /** No run of creations with fresh ids and deletions ever makes the history cyclic. */
  lemma {:induction false} RunsStayAcyclic(entries: map<Id, Entry>, ops: seq<Operation>)
    requires Acyclic(Links(entries))
    requires forall i :: 0 <= i < |ops| ==> FreshId(Run(entries, ops[..i]), ops[i])
    ensures Acyclic(Links(Run(entries, ops)))
  {
    if ops != [] {
      var last := |ops| - 1;
      forall i | 0 <= i < last
        ensures FreshId(Run(entries, ops[..last][..i]), ops[..last][i])
      {
        assert ops[..last][..i] == ops[..i];
      }
      RunsStayAcyclic(entries, ops[..last]);
      var now := Run(entries, ops[..last]);
      match ops[last]
      case Create(id, promptId, parentId, body) =>
        var rank :| Ranked(Links(now), rank);
        assert FreshId(now, ops[last]);
        var above := if parentId.Some? && parentId.value in now then rank[parentId.value] + 1 else 0;
        var rank', after := rank[id := above], Links(Apply(now, ops[last]));
        forall k | k in after && after[k].Some? && after[k].value in after
          ensures rank'[after[k].value] < rank'[k]
        {
          assert k != id ==> after[k] == Links(now)[k];
        }
        assert Ranked(after, rank');
      case Delete(id, promptId) =>
        DeleteKeepsLineages(now, id, promptId);
    }
  }
}
