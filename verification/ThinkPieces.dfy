/** What stripping shows of a text, piece by piece, and when the pieces join into a new tag
    (backend/open_webui/main.py, _strip_think_tags). */
module ThinkPieces {
  import opened Collections
  import opened ThinkTags

  /** The stretches of the text outside its spans, in order. */
  function Pieces(s: string, inThink: bool): seq<string>
    decreases |s|
  {
    var i := Find(s, Tag(inThink));
    if i == -1 then (if inThink then [] else [s])
    else (if inThink then [] else [s[..i]]) + Pieces(s[i + |Tag(inThink)|..], !inThink)
  }

  lemma {:induction false} ConcatCons(first: string, rest: seq<string>)
    ensures Concat([first] + rest) == first + Concat(rest)
  {
    if rest == [] {
      assert [first] + rest == [first];
    } else {
      var front, last := rest[..|rest| - 1], rest[|rest| - 1];
      ConcatCons(first, front);
      assert ([first] + rest)[..|rest|] == [first] + front;
    }
  }

  /** The result is the pieces put together. */
  lemma {:induction false} VisibleIsPieces(s: string, inThink: bool)
    ensures Visible(s, inThink) == Concat(Pieces(s, inThink))
    decreases |s|
  {
    var i := Find(s, Tag(inThink));
    if i != -1 {
      var rest := s[i + |Tag(inThink)|..];
      VisibleIsPieces(rest, !inThink);
      if inThink {
        assert [] + Pieces(rest, !inThink) == Pieces(rest, !inThink);
      } else {
        ConcatCons(s[..i], Pieces(rest, !inThink));
      }
    } else if !inThink {
      ConcatCons(s, []);
      assert [s] + [] == [s];
    }
  }

  ghost predicate TagFree(pieces: seq<string>) {
    forall n :: 0 <= n < |pieces| ==> !Occurs(pieces[n], OPEN_TAG)
  }

  lemma NoTagBefore(s: string, i: nat)
    requires i <= |s| && forall j :: OccursAt(s, OPEN_TAG, j) ==> i <= j
    ensures !Occurs(s[..i], OPEN_TAG)
  {
    forall j
      ensures !OccursAt(s[..i], OPEN_TAG, j)
    {
      if 0 <= j && j + |OPEN_TAG| <= i {
        OccursInAppend(s[..i], s[i..], OPEN_TAG, j);
        assert s[..i] + s[i..] == s;
      }
    }
  }

  /** No piece holds an opening tag: only joining pieces can make one. */
  lemma {:induction false} PiecesTagFree(s: string, inThink: bool)
    ensures TagFree(Pieces(s, inThink))
    decreases |s|
  {
    var i := Find(s, Tag(inThink));
    if i != -1 {
      PiecesTagFree(s[i + |Tag(inThink)|..], !inThink);
      if !inThink {
        NoTagBefore(s, i);
      }
    }
  }

  // ------------------------------------------------------------------ tags across joints

  /** A proper beginning of the tag ends `left`, and the rest of it begins `right`. */
  ghost predicate Straddles(left: string, right: string) {
    exists j :: 0 < j < |OPEN_TAG| && EndsWith(left, OPEN_TAG[..j]) && OPEN_TAG[j..] <= right
  }

  predicate EndsWith(s: string, t: string) {
    |t| <= |s| && s[|s| - |t|..] == t
  }

  /** An opening tag straddles a joint: what comes before some piece ends in the beginning of the
      tag, and the piece begins with the rest. */
  ghost predicate TagAtJoint(pieces: seq<string>) {
    exists n :: 0 <= n < |pieces| && Straddles(Concat(pieces[..n]), pieces[n])
  }

  /** An occurrence in a text put together lies on one side or straddles the joint. */
  lemma OccursAcross(left: string, right: string)
    ensures Occurs(left + right, OPEN_TAG) <==>
      Occurs(left, OPEN_TAG) || Occurs(right, OPEN_TAG) || Straddles(left, right)
  {
    var all := left + right;
    if Occurs(all, OPEN_TAG) {
      var i :| OccursAt(all, OPEN_TAG, i);
      OccurrenceLies(left, right, i);
    }
    if Occurs(left, OPEN_TAG) {
      var i :| OccursAt(left, OPEN_TAG, i);
      assert all[i..i + |OPEN_TAG|] == left[i..i + |OPEN_TAG|];
      assert OccursAt(all, OPEN_TAG, i);
    }
    if Occurs(right, OPEN_TAG) {
      var i :| OccursAt(right, OPEN_TAG, i);
      assert all[|left| + i..|left| + i + |OPEN_TAG|] == right[i..i + |OPEN_TAG|];
      assert OccursAt(all, OPEN_TAG, |left| + i);
    }
    if Straddles(left, right) {
      var j :| 0 < j < |OPEN_TAG| && EndsWith(left, OPEN_TAG[..j]) && OPEN_TAG[j..] <= right;
      StraddleOccurs(left, right, OPEN_TAG, j);
    }
  }

  lemma OccurrenceLies(left: string, right: string, i: int)
    requires OccursAt(left + right, OPEN_TAG, i)
    ensures Occurs(left, OPEN_TAG) || Occurs(right, OPEN_TAG) || Straddles(left, right)
  {
    var all, n := left + right, |OPEN_TAG|;
    if i + n <= |left| {
      assert left[i..i + n] == all[i..i + n];
      assert OccursAt(left, OPEN_TAG, i);
    } else if |left| <= i {
      assert right[i - |left|..i - |left| + n] == all[i..i + n];
      assert OccursAt(right, OPEN_TAG, i - |left|);
    } else {
      var j := |left| - i;
      CutOccurrence(left, right, OPEN_TAG, i);
      assert EndsWith(left, OPEN_TAG[..j]) && OPEN_TAG[j..] <= right;
    }
  }

  lemma CutOccurrence(left: string, right: string, tag: string, i: int)
    requires OccursAt(left + right, tag, i) && i < |left| < i + |tag|
    ensures var j := |left| - i; EndsWith(left, tag[..j]) && tag[j..] <= right
  {
    var all, j := left + right, |left| - i;
    assert all[i..i + |tag|] == tag;
    assert left[i..] == all[i..|left|] == tag[..j];
    assert |left| - |tag[..j]| == i;
    assert right[..|tag| - j] == all[|left|..i + |tag|] == tag[j..];
  }

  lemma StraddleOccurs(left: string, right: string, tag: string, j: nat)
    requires j < |tag| && EndsWith(left, tag[..j]) && tag[j..] <= right
    ensures Occurs(left + right, tag)
  {
    var all, i := left + right, |left| - j;
    assert all[i..i + |tag|] == left[i..] + right[..|tag| - j];
    assert tag == tag[..j] + tag[j..];
    assert OccursAt(all, tag, i);
  }

  lemma {:induction false} ConcatTagIff(pieces: seq<string>)
    requires TagFree(pieces)
    ensures Occurs(Concat(pieces), OPEN_TAG) <==> TagAtJoint(pieces)
  {
    if pieces != [] {
      var front, last := pieces[..|pieces| - 1], pieces[|pieces| - 1];
      ConcatTagIff(front);
      OccursAcross(Concat(front), last);
      JointsOfFront(front, last);
      assert pieces == front + [last];
    }
  }

  lemma JointsOfFront(front: seq<string>, last: string)
    ensures TagAtJoint(front + [last]) <==> TagAtJoint(front) || Straddles(Concat(front), last)
  {
    var pieces := front + [last];
    assert pieces[..|front|] == front && pieces[|front|] == last;
    forall n | 0 <= n < |front|
      ensures pieces[..n] == front[..n] && pieces[n] == front[n]
    {
    }
    if TagAtJoint(pieces) {
      var n :| 0 <= n < |pieces| && Straddles(Concat(pieces[..n]), pieces[n]);
      assert n < |front| ==> Straddles(Concat(front[..n]), front[n]);
    }
    if TagAtJoint(front) {
      var n :| 0 <= n < |front| && Straddles(Concat(front[..n]), front[n]);
      assert Straddles(Concat(pieces[..n]), pieces[n]);
    }
  }

  /** The stripped text holds an opening tag exactly when one straddles a joint of the pieces. */
  lemma CleanHoldsTagIff(s: string)
    ensures Occurs(Clean(s), OPEN_TAG) <==> TagAtJoint(Pieces(s, false))
  {
    VisibleIsPieces(s, false);
    PiecesTagFree(s, false);
    ConcatTagIff(Pieces(s, false));
  }

  /** Stripping a stripped text again changes nothing exactly when no tag straddles a joint of the
      pieces. */
  lemma CleanIdempotentIff(s: string)
    ensures Clean(Clean(s)) == Clean(s) <==> !TagAtJoint(Pieces(s, false))
  {
    CleanHoldsTagIff(s);
    CleanIsIdentityIff(Clean(s));
  }

  // ------------------------------------------------------------------ what stripping is

  lemma OnlyFirstIsAngle(tag: string, j: int)
    requires tag in {OPEN_TAG, CLOSE_TAG} && 0 < j < |tag|
    ensures tag[0] == '<' && tag[j] != '<'
  {
  }

  /** After a text without the tag, the tag is first found where the text ends: no tag overlaps
      another. */
  lemma FindAfterTagFree(a: string, tag: string, rest: string)
    requires tag in {OPEN_TAG, CLOSE_TAG} && !Occurs(a, tag)
    ensures Find(a + tag + rest, tag) == |a|
  {
    var s := a + tag + rest;
    assert s[|a|..|a| + |tag|] == tag;
    assert OccursAt(s, tag, |a|);
    forall i | 0 <= i < |a|
      ensures !OccursAt(s, tag, i)
    {
      if i + |tag| <= |a| {
        assert !OccursAt(a, tag, i);
        assert s[i..i + |tag|] == a[i..i + |tag|];
      } else {
        OnlyFirstIsAngle(tag, |a| - i);
        assert s[|a|] == tag[0];
        assert i + |tag| <= |s| ==> s[i..i + |tag|][|a| - i] == s[|a|];
      }
    }
  }

  lemma NotFound(s: string, tag: string)
    requires tag != "" && !Occurs(s, tag)
    ensures Find(s, tag) == -1
  {
  }

  /** The equations of stripping: a text without opening tag stays; a span goes, up to the leftmost
      closing tag after the leftmost opening one, and stripping goes on behind it; an unclosed span
      takes the rest. They leave no choice for any text. */
  lemma CleanEquations(a: string, b: string, rest: string)
    requires !Occurs(a, "<think>") && !Occurs(b, "</think>")
    ensures Clean(a) == a
    ensures Clean(a + "<think>" + b + "</think>" + rest) == a + Clean(rest)
    ensures Clean(a + "<think>" + b) == a
  {
    CleanIsIdentityIff(a);
    NotFound(b, CLOSE_TAG);
    OneSpan(a, b + CLOSE_TAG + rest);
    assert a + OPEN_TAG + (b + CLOSE_TAG + rest) == a + OPEN_TAG + b + CLOSE_TAG + rest;
    FindAfterTagFree(b, CLOSE_TAG, rest);
    VisibleAtTag(b + CLOSE_TAG + rest, true, |b|, rest) by {
      assert (b + CLOSE_TAG + rest)[|b| + 8..] == rest;
    }
    assert "" + Clean(rest) == Clean(rest);
    OneSpan(a, b);
    VisibleWithoutTag(b, true);
    assert a + "" == a;
  }

  lemma OneSpan(a: string, inside: string)
    requires !Occurs(a, OPEN_TAG)
    ensures Clean(a + OPEN_TAG + inside) == a + Visible(inside, true)
  {
    var s := a + OPEN_TAG + inside;
    FindAfterTagFree(a, OPEN_TAG, inside);
    assert s[|a| + 7..] == inside && s[..|a|] == a;
    VisibleAtTag(s, false, |a|, inside);
  }
}
