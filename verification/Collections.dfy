/** Sequences of identifiers: the order-keeping selection that every dictionary walk in the
    chat, row and lineage models is specified with. */
module Collections {

  datatype Option<+T> = None | Some(value: T)

  /** No element occurs twice, as in the keys of a dictionary. */
  ghost predicate Distinct<T>(s: seq<T>) {
    forall i, j :: 0 <= i < j < |s| ==> s[i] != s[j]
  }

  /** `s` without the elements outside `wanted`; order and multiplicity are kept. */
  function Keep<T(==)>(s: seq<T>, wanted: set<T>): seq<T> {
    if s == [] then []
    else
      var front := Keep(s[..|s| - 1], wanted);
      if s[|s| - 1] in wanted then front + [s[|s| - 1]] else front
  }

  lemma {:induction false} KeepMembers<T>(s: seq<T>, wanted: set<T>)
    ensures forall x :: x in Keep(s, wanted) <==> x in s && x in wanted
    ensures |Keep(s, wanted)| <= |s|
  {
    if s != [] {
      KeepMembers(s[..|s| - 1], wanted);
      assert s == s[..|s| - 1] + [s[|s| - 1]];
    }
  }

  lemma {:induction false} KeepDistinct<T>(s: seq<T>, wanted: set<T>)
    requires Distinct(s)
    ensures Distinct(Keep(s, wanted))
  {
    if s != [] {
      KeepDistinct(s[..|s| - 1], wanted);
      KeepMembers(s[..|s| - 1], wanted);
    }
  }

  lemma {:induction false} KeepAppend<T>(s: seq<T>, t: seq<T>, wanted: set<T>)
    ensures Keep(s + t, wanted) == Keep(s, wanted) + Keep(t, wanted)
  {
    if t == [] {
      assert s + t == s;
    } else {
      var front := t[..|t| - 1];
      assert (s + t)[..|s + t| - 1] == s + front;
      KeepAppend(s, front, wanted);
    }
  }

  /** Only the selected elements that actually occur in `s` matter. */
  lemma {:induction false} KeepAgree<T>(s: seq<T>, a: set<T>, b: set<T>)
    requires forall x :: x in s ==> (x in a <==> x in b)
    ensures Keep(s, a) == Keep(s, b)
  {
    if s != [] {
      assert s == s[..|s| - 1] + [s[|s| - 1]];
      KeepAgree(s[..|s| - 1], a, b);
    }
  }

  lemma {:induction false} KeepAll<T>(s: seq<T>, wanted: set<T>)
    requires forall x :: x in s ==> x in wanted
    ensures Keep(s, wanted) == s
  {
    if s != [] {
      assert s == s[..|s| - 1] + [s[|s| - 1]];
      KeepAll(s[..|s| - 1], wanted);
    }
  }

  lemma {:induction false} KeepNone<T>(s: seq<T>, wanted: set<T>)
    requires forall x :: x in s ==> x !in wanted
    ensures Keep(s, wanted) == []
  {
    if s != [] {
      assert s == s[..|s| - 1] + [s[|s| - 1]];
      KeepNone(s[..|s| - 1], wanted);
    }
  }

  lemma {:induction false} KeepTwice<T>(s: seq<T>, a: set<T>, b: set<T>)
    ensures Keep(Keep(s, a), b) == Keep(s, a * b)
  {
    if s != [] {
      KeepTwice(s[..|s| - 1], a, b);
      if s[|s| - 1] in a {
        KeepAppend(Keep(s[..|s| - 1], a), [s[|s| - 1]], b);
        assert Keep([s[|s| - 1]], b) == if s[|s| - 1] in b then [s[|s| - 1]] else [] by {
          assert [s[|s| - 1]][..0] == [];
        }
      }
    }
  }

  /** Loops that walk a sequence by index extend a selection one element at a time. */
  lemma KeepStep<T>(s: seq<T>, i: nat, wanted: set<T>)
    requires i < |s|
    ensures Keep(s[..i + 1], wanted) == Keep(s[..i], wanted) + if s[i] in wanted then [s[i]] else []
  {
    assert s[..i + 1][..i] == s[..i];
  }

  lemma DistinctAppend<T>(s: seq<T>, t: seq<T>)
    requires Distinct(s) && Distinct(t)
    requires forall x :: x in s ==> x !in t
    ensures Distinct(s + t)
  {
    forall i, j | 0 <= i < j < |s + t|
      ensures (s + t)[i] != (s + t)[j]
    {
      if i < |s| <= j {
        assert s[i] in s && t[j - |s|] in t;
      }
    }
  }

  /** The elements of a sequence, as a set. */
  function Elements<T(==)>(s: seq<T>): set<T> {
    set x | x in s
  }

  /** Loops that walk distinct keys meet each key once. */
  lemma PrefixStep<T>(s: seq<T>, i: nat)
    requires i < |s| && Distinct(s)
    ensures s[i] !in s[..i]
    ensures Elements(s[..i + 1]) == Elements(s[..i]) + {s[i]}
  {
    assert s[..i + 1] == s[..i] + [s[i]];
  }

  lemma SubsetSize<T>(a: set<T>, b: set<T>)
    requires a <= b
    ensures |a| <= |b|
  {
    assert b == a + (b - a);
  }

  /** Some place of `x` comes before some place of `y`. */
  ghost predicate Before<T>(s: seq<T>, x: T, y: T) {
    exists i, j :: 0 <= i < j < |s| && s[i] == x && s[j] == y
  }

  lemma BeforeAppend<T>(s: seq<T>, t: seq<T>, x: T, y: T)
    ensures Before(s + t, x, y) <==> Before(s, x, y) || Before(t, x, y) || (x in s && y in t)
  {
    var all := s + t;
    if Before(all, x, y) {
      var i, j :| 0 <= i < j < |all| && all[i] == x && all[j] == y;
      if |s| <= i {
        assert t[i - |s|] == x && t[j - |s|] == y;
      }
    }
    if Before(s, x, y) {
      var i, j :| 0 <= i < j < |s| && s[i] == x && s[j] == y;
      assert all[i] == x && all[j] == y;
    }
    if Before(t, x, y) {
      var i, j :| 0 <= i < j < |t| && t[i] == x && t[j] == y;
      assert all[|s| + i] == x && all[|s| + j] == y;
    }
    if x in s && y in t {
      var i :| 0 <= i < |s| && s[i] == x;
      var j :| 0 <= j < |t| && t[j] == y;
      assert all[i] == x && all[|s| + j] == y;
    }
  }

  /** A selection keeps the order of what it keeps. */
  lemma {:induction false} BeforeKeep<T>(s: seq<T>, wanted: set<T>, x: T, y: T)
    ensures Before(Keep(s, wanted), x, y) <==> Before(s, x, y) && x in wanted && y in wanted
  {
    if s != [] {
      var front, last := s[..|s| - 1], s[|s| - 1];
      assert s == front + [last];
      BeforeKeep(front, wanted, x, y);
      KeepMembers(front, wanted);
      BeforeAppend(front, [last], x, y);
      BeforeAppend(Keep(front, wanted), [last], x, y);
    }
  }

  /** Sequences without repetitions are equal when they hold the same elements in the same order. */
  lemma {:induction false} SameOrder<T>(s: seq<T>, t: seq<T>)
    requires Distinct(s) && Distinct(t)
    requires forall x :: x in s <==> x in t
    requires forall x, y :: Before(s, x, y) ==> Before(t, x, y)
    ensures s == t
  {
    if s == [] {
      KeepAll(t, {});
      KeepNone(t, {});
    } else {
      assert s[0] in s && t != [];
      var before, last := s[..|s| - 1], s[|s| - 1];
      assert s == before + [last];
      LastStays(s, t);
      var before' := t[..|t| - 1];
      assert t == before' + [last];
      forall x
        ensures x in before <==> x in before'
      {
        assert x in s <==> x in before || x == last;
        assert x in t <==> x in before' || x == last;
        assert last !in before && last !in before';
      }
      forall x, y | Before(before, x, y)
        ensures Before(before', x, y)
      {
        BeforeAppend(before, [last], x, y);
        BeforeAppend(before', [last], x, y);
      }
      SameOrder(before, before');
    }
  }

  lemma LastStays<T>(s: seq<T>, t: seq<T>)
    requires Distinct(s) && Distinct(t) && s != [] && t != []
    requires forall x :: x in s <==> x in t
    requires forall x, y :: Before(s, x, y) ==> Before(t, x, y)
    ensures t[|t| - 1] == s[|s| - 1]
  {
    assert t[|t| - 1] in t;
    var last, end := s[|s| - 1], t[|t| - 1];
    if end != last {
      LastAfterAll(s, end);
    }
    NothingAfterLast(t, last);
  }

  lemma LastAfterAll<T>(s: seq<T>, x: T)
    requires s != [] && x in s && x != s[|s| - 1]
    ensures Before(s, x, s[|s| - 1])
  {
    var i :| 0 <= i < |s| && s[i] == x;
    assert i < |s| - 1;
  }

  lemma NothingAfterLast<T>(s: seq<T>, x: T)
    requires s != [] && Distinct(s)
    ensures !Before(s, s[|s| - 1], x)
  {
  }

  /** `t` stands in `s` at position `i`. */
  predicate OccursAt(s: string, t: string, i: int) {
    0 <= i && i + |t| <= |s| && s[i..i + |t|] == t
  }
}
