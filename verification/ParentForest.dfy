/** Parent relations: every node names at most one parent. Lineages, and what deleting nodes and
    handing their children to the nearest surviving ancestor does to them. */
module ParentForest {
  import opened Collections

  type Id = string

  /** The nodes, each with the parent it names; the parent need not be a node. */
  type Parents = map<Id, Option<Id>>

  /** `rank` grows from every parent to its children. */
  ghost predicate Ranked(p: Parents, rank: map<Id, nat>) {
    && p.Keys <= rank.Keys
    && forall k {:trigger p[k]} :: k in p && p[k].Some? && p[k].value in p ==> rank[p[k].value] < rank[k]
  }

  ghost predicate Acyclic(p: Parents) {
    exists rank :: Ranked(p, rank)
  }

  /** Root-first lineage of `k`: follow parents until one is missing or already `seen`. */
  function Lineage(p: Parents, k: Id, seen: set<Id>): (path: seq<Id>)
    ensures forall x :: x in path ==> x in p
    decreases p.Keys - seen
  {
    if k !in p || k in seen then []
    else
      match p[k]
      case None => [k]
      case Some(q) => Lineage(p, q, seen + {k}) + [k]
  }

  /** On a ranked relation the cycle check of the walk never fires: any two sets of nodes
      already passed give the same lineage. */
  lemma {:induction false} SeenIrrelevant(p: Parents, rank: map<Id, nat>, k: Id, seen: set<Id>, seen': set<Id>)
    requires Ranked(p, rank)
    requires k in p ==> forall x :: x in seen + seen' && x in p ==> rank[k] < rank[x]
    ensures Lineage(p, k, seen) == Lineage(p, k, seen')
    decreases if k in p then rank[k] + 1 else 0
  {
    if k in p && p[k].Some? {
      SeenIrrelevant(p, rank, p[k].value, seen + {k}, seen' + {k});
    }
  }

  /** The lineage of a node is its parent's lineage followed by the node. */
  lemma LineageUnfold(p: Parents, rank: map<Id, nat>, k: Id)
    requires Ranked(p, rank) && k in p
    ensures Lineage(p, k, {}) == (if p[k].Some? then Lineage(p, p[k].value, {}) else []) + [k]
  {
    if p[k].Some? {
      SeenIrrelevant(p, rank, p[k].value, {} + {k}, {});
    }
  }

  /** Every step of a lineage goes from a parent to a child naming it, starting at a node whose
      parent is missing and ending at `k`. */
  lemma {:induction false} LineageIsChain(p: Parents, rank: map<Id, nat>, k: Id)
    requires Ranked(p, rank) && k in p
    ensures var path := Lineage(p, k, {});
      && path != [] && path[|path| - 1] == k
      && (p[path[0]].None? || p[path[0]].value !in p)
      && forall i :: 0 < i < |path| ==> p[path[i]] == Some(path[i - 1])
    decreases rank[k]
  {
    LineageUnfold(p, rank, k);
    if p[k].Some? && p[k].value in p {
      LineageIsChain(p, rank, p[k].value);
    }
  }

  /** On every relation, cyclic ones included: a lineage holds no node twice and none already seen, goes
      from each node to the one it names, and starts where that one is missing or would come twice. */
  lemma {:induction false} LineageWalks(p: Parents, k: Id, seen: set<Id>)
    ensures var path := Lineage(p, k, seen);
      && (path == [] <==> k !in p || k in seen)
      && Distinct(path) && (forall i :: 0 <= i < |path| ==> path[i] in p && path[i] !in seen)
      && (path != [] ==> path[|path| - 1] == k)
      && (forall i {:trigger path[i]} :: 0 < i < |path| ==> p[path[i]] == Some(path[i - 1]))
      && (path != [] && p[path[0]].Some? ==>
        p[path[0]].value !in p || p[path[0]].value in path || p[path[0]].value in seen)
    decreases p.Keys - seen
  {
    if k in p && k !in seen && p[k].Some? {
      LineageWalks(p, p[k].value, seen + {k});
      var above := Lineage(p, p[k].value, seen + {k});
      DistinctAppend(above, [k]);
      assert (above + [k])[|above|] == k;
    }
  }

  /** The nearest node from `o` upwards that is not `gone` (or where the climb leaves the
      relation). */
  ghost function Survivor(p: Parents, rank: map<Id, nat>, gone: set<Id>, o: Option<Id>): Option<Id>
    requires Ranked(p, rank)
    decreases if o.Some? && o.value in p then rank[o.value] + 1 else 0
  {
    if o.Some? && o.value in gone && o.value in p then Survivor(p, rank, gone, p[o.value]) else o
  }

  /** `q` is `p` with the nodes of `gone` cut out and every survivor handed to its nearest
      surviving ancestor. */
  ghost predicate Contracts(p: Parents, rank: map<Id, nat>, gone: set<Id>, q: Parents)
    requires Ranked(p, rank)
  {
    && q.Keys == p.Keys - gone
    && forall k :: k in q ==> q[k] == Survivor(p, rank, gone, p[k])
  }

  lemma {:induction false} SurvivorRank(p: Parents, rank: map<Id, nat>, gone: set<Id>, o: Option<Id>)
    requires Ranked(p, rank)
    ensures var s := Survivor(p, rank, gone, o);
      && (s.Some? && s.value in p ==> s.value !in gone)
      && (s.Some? && s.value in p ==> o.Some? && o.value in p && rank[s.value] <= rank[o.value])
    decreases if o.Some? && o.value in p then rank[o.value] + 1 else 0
  {
    if o.Some? && o.value in gone && o.value in p {
      SurvivorRank(p, rank, gone, p[o.value]);
    }
  }

  /** Cutting nodes out keeps the same ranking, so no cycle can appear. */
  lemma ContractionRanked(p: Parents, rank: map<Id, nat>, gone: set<Id>, q: Parents)
    requires Ranked(p, rank) && Contracts(p, rank, gone, q)
    ensures Ranked(q, rank)
  {
    forall k | k in q && q[k].Some? && q[k].value in q
      ensures rank[q[k].value] < rank[k]
    {
      SurvivorRank(p, rank, gone, p[k]);
    }
  }

  /** The lineage from the nearest survivor is the old lineage without the nodes cut out. */
  lemma {:induction false} SurvivorLineage(p: Parents, rank: map<Id, nat>, gone: set<Id>, q: Parents, o: Option<Id>)
    requires Ranked(p, rank) && Contracts(p, rank, gone, q)
    ensures var s := Survivor(p, rank, gone, o);
      (if s.Some? then Lineage(q, s.value, {}) else []) ==
      Keep(if o.Some? then Lineage(p, o.value, {}) else [], q.Keys)
    decreases if o.Some? && o.value in p then rank[o.value] + 1 else 0
  {
    if o.Some? && o.value in p {
      var k := o.value;
      LineageUnfold(p, rank, k);
      SurvivorLineage(p, rank, gone, q, p[k]);
      var up := if p[k].Some? then Lineage(p, p[k].value, {}) else [];
      assert (up + [k])[..|up + [k]| - 1] == up;
      if k !in gone {
        ContractionRanked(p, rank, gone, q);
        LineageUnfold(q, rank, k);
      }
    }
  }

  /** Every survivor's lineage becomes its old lineage with the nodes cut out dropped. */
  lemma ContractionLineage(p: Parents, rank: map<Id, nat>, gone: set<Id>, q: Parents, k: Id)
    requires Ranked(p, rank) && Contracts(p, rank, gone, q) && k in q
    ensures Ranked(q, rank)
    ensures Lineage(q, k, {}) == Keep(Lineage(p, k, {}), q.Keys)
  {
    ContractionRanked(p, rank, gone, q);
    SurvivorLineage(p, rank, gone, q, Some(k));
  }

  lemma {:induction false} RankBound(rank: map<Id, nat>, ids: set<Id>) returns (bound: nat)
    requires ids <= rank.Keys
    ensures forall k :: k in ids ==> rank[k] < bound
    decreases ids
  {
    if ids == {} {
      bound := 0;
    } else {
      var k :| k in ids;
      var rest := RankBound(rank, ids - {k});
      bound := if rank[k] < rest then rest else rank[k] + 1;
    }
  }

  /** Laying a relation whose parents stay inside it over another: ranking what only the lower one
      has above all of the upper one ranks the whole. */
  lemma OverlaidAcyclic(lower: Parents, upper: Parents, whole: Parents)
    requires Acyclic(lower) && Acyclic(upper)
    requires forall k :: k in upper && upper[k].Some? ==> upper[k].value in upper
    requires whole.Keys == lower.Keys + upper.Keys
    requires forall k :: k in whole ==> whole[k] == if k in upper then upper[k] else lower[k]
    ensures Acyclic(whole)
  {
    var low :| Ranked(lower, low);
    var high :| Ranked(upper, high);
    var bound := RankBound(high, upper.Keys);
    var rank := map k | k in whole :: if k in upper then high[k] else bound + low[k];
    assert Ranked(whole, rank);
  }

  // ------------------------------------------------------------------ naming another parent

  function LineageOf(p: Parents, o: Option<Id>): seq<Id> {
    if o.Some? then Lineage(p, o.value, {}) else []
  }

  /** `q` keeps some nodes of `p`, closed under parents: those of `moved` name `target`, the others
      what they named. */
  ghost predicate Reparented(p: Parents, moved: set<Id>, target: Option<Id>, q: Parents) {
    && moved <= q.Keys <= p.Keys
    && (forall k :: k in q ==> q[k] == if k in moved then target else p[k])
    && (forall k :: k in q && q[k].Some? ==> q[k].value in q)
  }

  ghost predicate Hits(p: Parents, moved: set<Id>, k: Id) {
    exists g :: g in moved && g in Lineage(p, k, {})
  }

  lemma HitsUnfold(p: Parents, rank: map<Id, nat>, moved: set<Id>, k: Id)
    requires Ranked(p, rank) && k in p
    ensures Hits(p, moved, k) <==> k in moved || (p[k].Some? && Hits(p, moved, p[k].value))
  {
    LineageUnfold(p, rank, k);
    if k in moved {
      assert k in Lineage(p, k, {});
    }
    if p[k].Some? && Hits(p, moved, p[k].value) {
      var g :| g in moved && g in Lineage(p, p[k].value, {});
      assert g in Lineage(p, k, {});
    }
  }

  /** Ranking everything below a moved node above all the rest ranks the new relation. */
  lemma ReparentRanked(p: Parents, rank: map<Id, nat>, moved: set<Id>, target: Option<Id>, q: Parents)
    requires Ranked(p, rank) && Reparented(p, moved, target, q)
    requires moved != {} && target.Some? ==> !Hits(p, moved, target.value)
    ensures Acyclic(q)
  {
    var bound := RankBound(rank, p.Keys);
    var below := set k | k in q && Hits(p, moved, k);
    var rank' := map k | k in q :: rank[k] + if k in below then bound else 0;
    forall k | k in q && q[k].Some?
      ensures rank'[q[k].value] < rank'[k]
    {
      HitsUnfold(p, rank, moved, k);
    }
    assert Ranked(q, rank');
  }

  /** Climbing to a moved node passes only nodes that kept their parents, so any ranking of the new
      relation falls on the way. */
  lemma {:induction false} MovedAncestor(p: Parents, rank: map<Id, nat>, moved: set<Id>, target: Option<Id>, q: Parents,
      rank': map<Id, nat>, k: Id)
    returns (g: Id)
    requires Ranked(p, rank) && Reparented(p, moved, target, q) && Ranked(q, rank')
    requires k in q && Hits(p, moved, k)
    ensures g in moved && rank'[g] <= rank'[k]
    decreases rank[k]
  {
    HitsUnfold(p, rank, moved, k);
    if k in moved {
      g := k;
    } else {
      g := MovedAncestor(p, rank, moved, target, q, rank', p[k].value);
    }
  }

  /** Naming another parent keeps a relation acyclic exactly when no moved node is above it. */
  lemma ReparentAcyclicIff(p: Parents, moved: set<Id>, target: Option<Id>, q: Parents)
    requires Acyclic(p) && Reparented(p, moved, target, q)
    ensures Acyclic(q) <==> forall g :: g in moved ==> g !in LineageOf(p, target)
  {
    var rank :| Ranked(p, rank);
    if forall g :: g in moved ==> g !in LineageOf(p, target) {
      ReparentRanked(p, rank, moved, target, q);
    } else {
      var g :| g in moved && g in LineageOf(p, target);
      assert q[g] == target && Hits(p, moved, target.value);
      forall rank'
        ensures !Ranked(q, rank')
      {
        CycleUnranked(p, rank, moved, target, q, rank');
      }
    }
  }

  lemma CycleUnranked(p: Parents, rank: map<Id, nat>, moved: set<Id>, target: Option<Id>, q: Parents,
      rank': map<Id, nat>)
    requires Ranked(p, rank) && Reparented(p, moved, target, q)
    requires target.Some? && target.value in q && Hits(p, moved, target.value)
    ensures !Ranked(q, rank')
  {
    if Ranked(q, rank') {
      var above := MovedAncestor(p, rank, moved, target, q, rank', target.value);
    }
  }
}
