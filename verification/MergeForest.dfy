/** Merging two histories with sound parent links gives a consistent one (chats.py, merge_history). */
module MergeForest {
  import opened Collections
  import opened ParentForest
  import opened Messages
  import opened HistoryMerge

  /** Parent links are resolved and acyclic; children lists may be stale. */
  ghost predicate SoundParents(h: Hist) {
    Valid(h) && "" !in h.messages && Resolved(h.messages) && Acyclic(Links(h.messages))
  }

  /** The merged ids are those of both sides, and each message names the parent it names on the
      winning side. */
  lemma MergedParents(a: Hist, b: Hist)
    requires Valid(a) && Valid(b)
    ensures var merged := Merged(CopyOf(a), CopyOf(b)).messages;
      && merged.Keys == a.messages.Keys + b.messages.Keys
      && (forall k :: k in b.messages ==> merged[k].parentId == b.messages[k].parentId)
      && (forall k :: k in a.messages && k !in b.messages ==> merged[k].parentId == a.messages[k].parentId)
  {
    CopyIsCopy(a);
    CopyIsCopy(b);
    MergeIsIncomingBiased(CopyOf(a), CopyOf(b));
    var merged := Merged(CopyOf(a), CopyOf(b)).messages;
    forall k | k in merged
      ensures merged[k].parentId == if k in b.messages then b.messages[k].parentId else a.messages[k].parentId
    {
      assert Unlisted(merged[k]).parentId ==
        Unlisted(if k in b.messages then b.messages[k] else a.messages[k]).parentId;
    }
  }

  /** Parents taken from `b` where it has the message, from `a` elsewhere. */
  ghost predicate Overlays(a: map<Id, Message>, b: map<Id, Message>, merged: map<Id, Message>) {
    && merged.Keys == a.Keys + b.Keys
    && (forall k :: k in b ==> merged[k].parentId == b[k].parentId)
    && (forall k :: k in a && k !in b ==> merged[k].parentId == a[k].parentId)
  }

  lemma OverlaidAt(a: map<Id, Message>, b: map<Id, Message>, merged: map<Id, Message>, k: Id)
    requires Overlays(a, b, merged) && k in merged
    ensures k in b ==> ParentOf(merged[k]) == ParentOf(b[k]) && NamedParent(merged[k]) == NamedParent(b[k])
    ensures k !in b ==> ParentOf(merged[k]) == ParentOf(a[k]) && NamedParent(merged[k]) == NamedParent(a[k])
  {
  }

  lemma OverlayResolved(a: map<Id, Message>, b: map<Id, Message>, merged: map<Id, Message>)
    requires Overlays(a, b, merged) && Resolved(a) && Resolved(b)
    ensures Resolved(merged)
  {
    forall k | k in merged
      ensures ParentOf(merged[k]).Some? ==> ParentOf(merged[k]).value in merged
    {
      OverlaidAt(a, b, merged, k);
    }
  }

  lemma OverlayAcyclic(a: map<Id, Message>, b: map<Id, Message>, merged: map<Id, Message>)
    requires Overlays(a, b, merged)
    requires Acyclic(Links(a)) && Resolved(b) && Acyclic(Links(b))
    ensures Acyclic(Links(merged))
  {
    var lower, upper, whole := Links(a), Links(b), Links(merged);
    forall k | k in whole
      ensures whole[k] == if k in upper then upper[k] else lower[k]
    {
      OverlaidAt(a, b, merged, k);
    }
    ResolvedInside(b);
    OverlaidAcyclic(lower, upper, whole);
  }

  lemma ResolvedInside(messages: map<Id, Message>)
    requires Resolved(messages)
    ensures forall k :: k in Links(messages) && Links(messages)[k].Some? ==> Links(messages)[k].value in Links(messages)
  {
    forall k | k in messages && NamedParent(messages[k]).Some?
      ensures NamedParent(messages[k]).value in messages
    {
      assert ParentOf(messages[k]) == NamedParent(messages[k]);
    }
  }

  /** Merging any copy with sound parents into a history with sound parents, however stale either
      one's lists are and whatever messages the other lacks, gives a consistent history. */
  lemma MergeIsForest(a: Hist, b: Hist)
    requires SoundParents(a) && SoundParents(b)
    ensures Forest(Merged(CopyOf(a), CopyOf(b)))
    ensures Merged(CopyOf(a), CopyOf(b)).messages.Keys == a.messages.Keys + b.messages.Keys
  {
    CopyIsCopy(a);
    CopyIsCopy(b);
    MergeRebuildsLinks(CopyOf(a), CopyOf(b));
    MergedParents(a, b);
    OverlayResolved(a.messages, b.messages, Merged(CopyOf(a), CopyOf(b)).messages);
    OverlayAcyclic(a.messages, b.messages, Merged(CopyOf(a), CopyOf(b)).messages);
  }
}
