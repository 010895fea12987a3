/** Rebuilding nested configuration values from flattened rows
    (backend/open_webui/models/config.py, _assign_path; the flattening itself is _walk_blob of
    backend/open_webui/migrations/versions/3ff2c63645b8_reshape_config_to_per_key_rows.py). */
module ConfigTree {
  import opened Collections

  /** A value that is no dictionary, or a dictionary; the order of its keys plays no part. */
  datatype Json = Leaf(value: string) | Obj(fields: map<string, Json>)

  type Fields = map<string, Json>

  /** The dictionary under `k`, empty when there is none. */
  function Sub(target: Fields, k: string): Fields {
    if k in target && target[k].Obj? then target[k].fields else map[]
  }

  /** `_assign_path`: create or replace dictionaries along the path, then set the last key. */
  function Assigned(target: Fields, path: seq<string>, value: Json): Fields
    requires path != []
    decreases |path|
  {
    if |path| == 1 then target[path[0] := value]
    else target[path[0] := Obj(Assigned(Sub(target, path[0]), path[1..], value))]
  }

  // ------------------------------------------------------------------ flattening

  /** What stands at a path: nothing when a key on the way is missing or holds no dictionary. */
  function ReadPath(target: Fields, path: seq<string>): Option<Json>
    requires path != []
    decreases |path|
  {
    if path[0] !in target then None
    else if |path| == 1 then Some(target[path[0]])
    else if target[path[0]].Obj? then ReadPath(target[path[0]].fields, path[1..])
    else None
  }

  predicate Above(p: seq<string>, q: seq<string>) {
    p <= q || q <= p
  }

  /** Assigning puts the value at its path, into any dictionary: what was no dictionary on the way gives
      way to an empty one. Nothing changes at any path neither above nor below it. */
  lemma {:induction false} AssignReads(target: Fields, path: seq<string>, value: Json, q: seq<string>)
    requires path != [] && q != []
    ensures ReadPath(Assigned(target, path, value), path) == Some(value)
    ensures !Above(path, q) ==> ReadPath(Assigned(target, path, value), q) == ReadPath(target, q)
    decreases |path|
  {
    if |path| > 1 {
      AssignReads(Sub(target, path[0]), path[1..], value, if |q| > 1 then q[1..] else [""]);
    }
    if q[0] == path[0] {
      TailPrefix(path, q);
      TailPrefix(q, path);
    }
  }

  lemma TailPrefix(p: seq<string>, q: seq<string>)
    requires p != [] && q != [] && p[0] == q[0]
    ensures p <= q <==> p[1..] <= q[1..]
  {
    assert p == [p[0]] + p[1..] && q == [q[0]] + q[1..];
  }

  /** The paths of the rows a value flattens to: one per value that is no dictionary. */
  function Paths(j: Json): set<seq<string>>
    decreases j
  {
    match j
    case Leaf(_) => {[]}
    case Obj(m) => set k, p | k in m && p in Paths(m[k]) :: [k] + p
  }

  /** The value at a path. */
  function At(j: Json, path: seq<string>): Json
    requires path in Paths(j)
    decreases j
  {
    match j
    case Leaf(_) => j
    case Obj(m) =>
      PathSplit(j, path);
      At(m[path[0]], path[1..])
  }

  lemma PathSplit(j: Json, path: seq<string>)
    requires j.Obj? && path in Paths(j)
    ensures path != [] && path[0] in j.fields && path[1..] in Paths(j.fields[path[0]])
  {
    var k, p :| k in j.fields && p in Paths(j.fields[k]) && path == [k] + p;
    assert path[1..] == p;
  }

  /** The value without its empty dictionaries, which leave no row. */
  function Pruned(j: Json): Json
    decreases j
  {
    match j
    case Leaf(_) => j
    case Obj(m) => Obj(map k | k in m && Paths(m[k]) != {} :: Pruned(m[k]))
  }

  /** No dictionary below the top is empty of values. */
  ghost predicate NoEmpty(j: Json)
    decreases j
  {
    j.Obj? ==> forall k :: k in j.fields ==> Paths(j.fields[k]) != {} && NoEmpty(j.fields[k])
  }

  /** Pruning changes nothing exactly when there is nothing to prune. */
  lemma {:induction false} PrunedIsIdentityIff(j: Json)
    ensures Pruned(j) == j <==> NoEmpty(j)
    decreases j
  {
    if j.Obj? {
      var m := j.fields;
      var pruned := Pruned(j).fields;
      forall k | k in m
        ensures Pruned(m[k]) == m[k] <==> NoEmpty(m[k])
      {
        PrunedIsIdentityIff(m[k]);
      }
      if pruned == m {
        forall k | k in m
          ensures Paths(m[k]) != {} && NoEmpty(m[k])
        {
          assert k in pruned && pruned[k] == Pruned(m[k]) == m[k];
        }
      }
      if NoEmpty(j) {
        assert pruned == m;
      }
    }
  }

  // ------------------------------------------------------------------ partial values

  /** What is left of paths through `k`. */
  function Through(paths: set<seq<string>>, k: string): set<seq<string>> {
    set r | r in paths && r != [] && r[0] == k :: r[1..]
  }

  lemma ThroughMember(paths: set<seq<string>>, k: string, p: seq<string>)
    ensures p in Through(paths, k) <==> [k] + p in paths
  {
    if [k] + p in paths {
      assert ([k] + p)[1..] == p;
    }
    if p in Through(paths, k) {
      var r :| r in paths && r != [] && r[0] == k && r[1..] == p;
      assert r == [k] + p;
    }
  }

  lemma ThroughAdded(paths: set<seq<string>>, path: seq<string>, k: string)
    requires path != []
    ensures Through(paths + {path}, k) == Through(paths, k) + (if path[0] == k then {path[1..]} else {})
  {
  }

  /** The part of a dictionary that the rows at `paths` carry. */
  function Part(j: Json, paths: set<seq<string>>): Fields
    requires j.Obj?
    decreases j
  {
    map k | k in j.fields && Through(paths, k) != {} ::
      if j.fields[k].Leaf? then j.fields[k] else Obj(Part(j.fields[k], Through(paths, k)))
  }

  lemma PartOfNothing(j: Json)
    requires j.Obj?
    ensures Part(j, {}) == map[]
  {
    forall k | k in j.fields
      ensures Through({}, k) == {}
    {
    }
  }

  /** The dictionary under a key of a part is the part of the dictionary under that key. */
  lemma SubOfPart(j: Json, paths: set<seq<string>>, k: string)
    requires j.Obj? && k in j.fields && j.fields[k].Obj?
    ensures Sub(Part(j, paths), k) == Part(j.fields[k], Through(paths, k))
  {
    if Through(paths, k) == {} {
      PartOfNothing(j.fields[k]);
    }
  }

  /** A part depends only on what its paths leave under each key. */
  lemma PartAt(j: Json, paths: set<seq<string>>, k: string, left: set<seq<string>>)
    requires j.Obj? && k in j.fields && Through(paths, k) == left
    ensures k in Part(j, paths) <==> left != {}
    ensures left != {} ==>
      Part(j, paths)[k] == if j.fields[k].Leaf? then j.fields[k] else Obj(Part(j.fields[k], left))
  {
  }

  /** One more path changes a part under its first key only. */
  lemma PartElsewhere(j: Json, paths: set<seq<string>>, path: seq<string>, x: string)
    requires j.Obj? && path != [] && x != path[0]
    ensures x in Part(j, paths + {path}) <==> x in Part(j, paths)
    ensures x in Part(j, paths) ==> Part(j, paths + {path})[x] == Part(j, paths)[x]
  {
    ThroughAdded(paths, path, x);
    assert Through(paths + {path}, x) == Through(paths, x);
    if x in j.fields {
      PartAt(j, paths, x, Through(paths, x));
      PartAt(j, paths + {path}, x, Through(paths, x));
    }
  }

  lemma PartAdded(j: Json, paths: set<seq<string>>, path: seq<string>)
    requires j.Obj? && path != [] && path[0] in j.fields
    ensures var k := path[0];
      Part(j, paths + {path}) == Part(j, paths)[k :=
        if j.fields[k].Leaf? then j.fields[k]
        else Obj(Part(j.fields[k], Through(paths, k) + {path[1..]}))]
  {
    var k := path[0];
    ThroughAdded(paths, path, k);
    PartAt(j, paths + {path}, k, Through(paths, k) + {path[1..]});
    forall x | x != k
      ensures x in Part(j, paths + {path}) <==> x in Part(j, paths)
      ensures x in Part(j, paths) ==> Part(j, paths + {path})[x] == Part(j, paths)[x]
    {
      PartElsewhere(j, paths, path, x);
    }
    assert Through(paths, k) + {path[1..]} != {} by {
      assert path[1..] in Through(paths, k) + {path[1..]};
    }
  }

  /** Assigning one more row adds that row to the part. */
  lemma {:induction false} AssignExtendsPart(j: Json, paths: set<seq<string>>, path: seq<string>)
    requires j.Obj? && path in Paths(j)
    ensures path != []
    ensures Assigned(Part(j, paths), path, At(j, path)) == Part(j, paths + {path})
    decreases j
  {
    PathSplit(j, path);
    PartAdded(j, paths, path);
    var k := path[0];
    if |path| == 1 {
      assert path[1..] == [];
      EmptyPathIsLeaf(j.fields[k]);
    } else {
      LongPathIsObj(j.fields[k], path[1..]);
      SubOfPart(j, paths, k);
      AssignExtendsPart(j.fields[k], Through(paths, k), path[1..]);
    }
  }

  lemma EmptyPathIsLeaf(j: Json)
    requires [] in Paths(j)
    ensures j.Leaf? && At(j, []) == j
  {
    if j.Obj? {
      PathSplit(j, []);
      assert false;
    }
  }

  lemma LongPathIsObj(j: Json, path: seq<string>)
    requires path in Paths(j) && path != []
    ensures j.Obj?
  {
  }

  /** The part carried by all rows is the pruned value. */
  lemma {:induction false} WholePartIsPruned(j: Json)
    requires j.Obj?
    ensures Obj(Part(j, Paths(j))) == Pruned(j)
    decreases j
  {
    var m, all := j.fields, Paths(j);
    forall k | k in m
      ensures Through(all, k) == Paths(m[k])
    {
      forall p
        ensures p in Through(all, k) <==> p in Paths(m[k])
      {
        ThroughMember(all, k, p);
        if [k] + p in all {
          PathSplit(j, [k] + p);
          assert ([k] + p)[1..] == p;
        }
      }
    }
    forall k | k in m && m[k].Obj?
      ensures Obj(Part(m[k], Paths(m[k]))) == Pruned(m[k])
    {
      WholePartIsPruned(m[k]);
    }
    assert Part(j, all) == Pruned(j).fields;
  }

  // ------------------------------------------------------------------ rebuilding

  datatype Row = Row(path: seq<string>, value: Json)

  function PathsOf(rows: seq<Row>): set<seq<string>> {
    set r | r in rows :: r.path
  }

  /** Rows of the value, in any order; not necessarily all. */
  ghost predicate RowsFrom(rows: seq<Row>, j: Json) {
    forall r :: r in rows ==> r.path in Paths(j) && r.value == At(j, r.path)
  }

  /** Assign all rows, one after the other. */
  function Rebuilt(start: Fields, rows: seq<Row>): Fields
    requires forall r :: r in rows ==> r.path != []
  {
    if rows == [] then start
    else
      assert forall r :: r in rows[..|rows| - 1] ==> r in rows;
      Assigned(Rebuilt(start, rows[..|rows| - 1]), rows[|rows| - 1].path, rows[|rows| - 1].value)
  }

  lemma RowsHavePaths(rows: seq<Row>, j: Json)
    requires j.Obj? && RowsFrom(rows, j)
    ensures forall r :: r in rows ==> r.path != []
  {
    forall r | r in rows
      ensures r.path != []
    {
      PathSplit(j, r.path);
    }
  }

  /** Starting from the part some rows carry, the result is the part those rows and the assigned
      ones carry, whatever the order. */
  lemma {:induction false} RebuiltIsPart(j: Json, done: set<seq<string>>, rows: seq<Row>)
    requires j.Obj? && RowsFrom(rows, j)
    ensures forall r :: r in rows ==> r.path != []
    ensures Rebuilt(Part(j, done), rows) == Part(j, done + PathsOf(rows))
  {
    RowsHavePaths(rows, j);
    if rows == [] {
      assert done + PathsOf(rows) == done;
    } else {
      var front, last := rows[..|rows| - 1], rows[|rows| - 1];
      assert rows == front + [last];
      assert last in rows && forall r :: r in front ==> r in rows;
      RebuiltIsPart(j, done, front);
      AssignExtendsPart(j, done + PathsOf(front), last.path);
      assert done + PathsOf(rows) == (done + PathsOf(front)) + {last.path};
    }
  }

  /** Flattening a dictionary and assigning its rows back, in any order, gives the dictionary
      without its empty dictionaries; so it gives the same dictionary exactly when it has none. */
  lemma RebuildFromAnyOrder(rows: seq<Row>, j: Json)
    requires j.Obj? && RowsFrom(rows, j) && PathsOf(rows) == Paths(j)
    ensures forall r :: r in rows ==> r.path != []
    ensures Obj(Rebuilt(map[], rows)) == Pruned(j)
    ensures Obj(Rebuilt(map[], rows)) == j <==> NoEmpty(j)
  {
    PartOfNothing(j);
    RebuiltIsPart(j, {}, rows);
    assert {} + PathsOf(rows) == PathsOf(rows);
    WholePartIsPruned(j);
    PrunedIsIdentityIff(j);
  }

  /** A repair cut short and run again on the remaining rows reaches the same value. */
  lemma RebuildResumes(first: seq<Row>, rest: seq<Row>, j: Json)
    requires j.Obj? && RowsFrom(first, j) && RowsFrom(rest, j) && PathsOf(first) + PathsOf(rest) == Paths(j)
    ensures forall r :: r in first ==> r.path != []
    ensures forall r :: r in rest ==> r.path != []
    ensures Obj(Rebuilt(Rebuilt(map[], first), rest)) == Pruned(j)
  {
    PartOfNothing(j);
    RebuiltIsPart(j, {}, first);
    assert {} + PathsOf(first) == PathsOf(first);
    RebuiltIsPart(j, PathsOf(first), rest);
    WholePartIsPruned(j);
  }

  /** An empty dictionary leaves no row to rebuild it from. */
  lemma EmptyDictionaryIsLost(k: string)
    ensures var j := Obj(map[k := Obj(map[])]);
      Paths(j) == {} && Obj(Rebuilt(map[], [])) == Pruned(j) == Obj(map[]) && Pruned(j) != j
  {
    var inner: Fields := map[];
    var j := Obj(map[k := Obj(inner)]);
    assert Paths(Obj(inner)) == {};
    assert Paths(j) == {};
    RebuildFromAnyOrder([], j);
    assert k in j.fields && Paths(j.fields[k]) == {} && !NoEmpty(j);
    PrunedIsIdentityIff(j);
  }
}
