/** Removing `<think>...</think>` spans from text that arrives in chunks
    (backend/open_webui/main.py, _strip_think_tags and _flush_think_tags). */
module ThinkTags {
  import opened Collections

  const OPEN_TAG := "<think>"
  const CLOSE_TAG := "</think>"

  /** The tag that ends the current side: the closing tag inside a span, the opening one outside. */
  function Tag(inThink: bool): (tag: string)
    ensures |tag| == if inThink then 8 else 7
  {
    if inThink then CLOSE_TAG else OPEN_TAG
  }

  // ------------------------------------------------------------------ finding a tag

  ghost predicate Occurs(s: string, tag: string) {
    exists i :: OccursAt(s, tag, i)
  }

  /** `s.find(tag)`: the first occurrence at or after `from`, or -1. */
  function FindFrom(s: string, tag: string, from: nat): (i: int)
    requires from <= |s| && tag != ""
    ensures i == -1 || (from <= i && OccursAt(s, tag, i))
    ensures forall j :: from <= j && OccursAt(s, tag, j) ==> 0 <= i <= j
    decreases |s| - from
  {
    if from + |tag| > |s| then -1
    else if s[from..from + |tag|] == tag then from
    else FindFrom(s, tag, from + 1)
  }

  function Find(s: string, tag: string): (i: int)
    requires tag != ""
    ensures i == -1 || OccursAt(s, tag, i)
    ensures forall j :: OccursAt(s, tag, j) ==> 0 <= i <= j
  {
    FindFrom(s, tag, 0)
  }

  // ------------------------------------------------------------------ the one-shot meaning

  /** Text counts outside a span only. */
  function Shown(text: string, inThink: bool): string {
    if inThink then "" else text
  }

  /** The text without its spans, reading from outside (`inThink` false) or inside one: keep up to
      the leftmost opening tag, drop up to the leftmost closing tag after it, and so on; an
      unclosed span drops the rest. */
  function Visible(s: string, inThink: bool): string
    decreases |s|
  {
    var i := Find(s, Tag(inThink));
    if i == -1 then Shown(s, inThink)
    else Shown(s[..i], inThink) + Visible(s[i + |Tag(inThink)|..], !inThink)
  }

  function Clean(s: string): string {
    Visible(s, false)
  }

  /** Whether the text ends inside a span. */
  function EndsInside(s: string, inThink: bool): bool
    decreases |s|
  {
    var i := Find(s, Tag(inThink));
    if i == -1 then inThink else EndsInside(s[i + |Tag(inThink)|..], !inThink)
  }

  // ------------------------------------------------------------------ occurrences across a cut

  lemma OccursInAppend(s: string, rest: string, tag: string, i: int)
    requires 0 <= i && i + |tag| <= |s|
    ensures OccursAt(s + rest, tag, i) <==> OccursAt(s, tag, i)
  {
    assert (s + rest)[i..i + |tag|] == s[i..i + |tag|];
  }

  lemma OccursInSuffix(s: string, tag: string, cut: nat, i: int)
    requires cut <= |s| && cut <= i
    ensures OccursAt(s[cut..], tag, i - cut) <==> OccursAt(s, tag, i)
  {
    if i + |tag| <= |s| {
      assert s[cut..][i - cut..i - cut + |tag|] == s[i..i + |tag|];
    }
  }

  /** A first occurrence is where it was when more text follows. */
  lemma FindInAppend(s: string, rest: string, tag: string)
    requires tag != "" && Find(s, tag) != -1
    ensures Find(s + rest, tag) == Find(s, tag)
  {
    var i := Find(s, tag);
    OccursInAppend(s, rest, tag, i);
    var j := Find(s + rest, tag);
    OccursInAppend(s, rest, tag, j);
  }

  /** Where no tag is complete yet, all but the last |tag|-1 characters can be let go: a tag that
      more text completes starts in the tail. */
  lemma FindAfterRelease(s: string, rest: string, tag: string, cut: nat)
    requires tag != "" && Find(s, tag) == -1
    requires cut == 0 || cut + |tag| <= |s| + 1
    requires cut <= |s|
    ensures Find(s + rest, tag) ==
      if Find(s[cut..] + rest, tag) == -1 then -1 else cut + Find(s[cut..] + rest, tag)
  {
    var whole, tail := s + rest, s[cut..] + rest;
    assert whole[cut..] == tail;
    forall i | OccursAt(whole, tag, i)
      ensures cut <= i && OccursAt(tail, tag, i - cut)
    {
      if i + |tag| <= |s| {
        OccursInAppend(s, rest, tag, i);
      }
      OccursInSuffix(whole, tag, cut, i);
    }
    forall j | OccursAt(tail, tag, j)
      ensures OccursAt(whole, tag, cut + j)
    {
      OccursInSuffix(whole, tag, cut, cut + j);
    }
  }

  // ------------------------------------------------------------------ one chunk

  /** What scanning a buffer gives: text let go, text withheld, and the side of the span. */
  datatype Scanned = Scanned(out: string, buffer: string, inThink: bool)

  /** The length that can be let go when no complete tag is in sight. */
  function SafeLength(buffer: string, inThink: bool): (cut: nat)
    ensures cut <= |buffer|
  {
    if |buffer| < |Tag(inThink)| then 0 else |buffer| - (|Tag(inThink)| - 1)
  }

  function Scan(buffer: string, inThink: bool): Scanned
    decreases |buffer|
  {
    var i := Find(buffer, Tag(inThink));
    if i == -1 then
      var cut := SafeLength(buffer, inThink);
      Scanned(Shown(buffer[..cut], inThink), buffer[cut..], inThink)
    else
      var rest := Scan(buffer[i + |Tag(inThink)|..], !inThink);
      Prepended(Shown(buffer[..i], inThink), rest)
  }

  function Prepended(text: string, s: Scanned): Scanned {
    s.(out := text + s.out)
  }

  lemma PrependedTwice(a: string, b: string, s: Scanned)
    ensures Prepended(a, Prepended(b, s)) == Prepended(a + b, s)
  {
    assert a + (b + s.out) == (a + b) + s.out;
  }

  lemma ScanRelease(buffer: string, inThink: bool)
    requires Find(buffer, Tag(inThink)) == -1
    ensures var cut := SafeLength(buffer, inThink);
      Scan(buffer, inThink) == Scanned(Shown(buffer[..cut], inThink), buffer[cut..], inThink)
  {
  }

  lemma ScanAtTag(buffer: string, inThink: bool)
    requires Find(buffer, Tag(inThink)) != -1
    ensures var i := Find(buffer, Tag(inThink));
      Scan(buffer, inThink) == Prepended(Shown(buffer[..i], inThink), Scan(buffer[i + |Tag(inThink)|..], !inThink))
  {
  }

  class ThinkState {
    var buffer: string
    var inThink: bool

    constructor ()
      ensures buffer == "" && !inThink
    {
      buffer, inThink := "", false;
    }

    /** One chunk: release what is certainly visible, withhold what a tag may still claim. */
    method StripThinkTags(text: string) returns (out: string)
      modifies this
      ensures Scanned(out, buffer, inThink) == Scan(old(buffer) + text, old(inThink))
    {
      var rest, inside := buffer + text, inThink;
      out := "";
      ghost var whole := Scan(rest, inside);
      assert whole == Prepended(out, whole) by {
        assert "" + whole.out == whole.out;
      }
      while true
        invariant whole == Prepended(out, Scan(rest, inside))
        decreases |rest|
      {
        var i := Find(rest, Tag(inside));
        if i == -1 {
          ScanRelease(rest, inside);
          var cut := SafeLength(rest, inside);
          if !inside {
            out := out + rest[..cut];
          } else {
            assert out + "" == out;
          }
          buffer, inThink := rest[cut..], inside;
          return;
        }
        ScanAtTag(rest, inside);
        PrependedTwice(out, Shown(rest[..i], inside), Scan(rest[i + |Tag(inside)|..], !inside));
        if !inside {
          out := out + rest[..i];
        } else {
          assert out + "" == out;
        }
        rest := rest[i + |Tag(inside)|..];
        inside := !inside;
      }
    }

    /** Releases the withheld text, unless a span is open, once the text is known to be complete. */
    method FlushThinkTags() returns (tail: string)
      modifies this
      ensures tail == Shown(old(buffer), old(inThink))
      ensures buffer == "" && inThink == old(inThink)
    {
      if inThink {
        buffer := "";
        return "";
      }
      tail := buffer;
      buffer := "";
    }
  }

  /** Stripping a complete text (_strip_think_tags_from_response): one chunk, then the flush. */
  method StripWhole(content: string) returns (stripped: string)
    ensures stripped == Clean(content)
  {
    var state := new ThinkState();
    var out := state.StripThinkTags(content);
    var tail := state.FlushThinkTags();
    stripped := out + tail;
    assert "" + content == content;
    ScanThenFlush(content, false);
  }

  // ------------------------------------------------------------------ what a chunk preserves

  lemma ShortHasNoTag(s: string, inThink: bool)
    requires |s| < |Tag(inThink)|
    ensures Find(s, Tag(inThink)) == -1
    ensures Visible(s, inThink) == Shown(s, inThink) && EndsInside(s, inThink) == inThink
  {
  }

  /** The withheld text is too short to hold a whole tag. */
  lemma {:induction false} ScanWithholdsShort(buffer: string, inThink: bool)
    ensures var s := Scan(buffer, inThink);
      && |s.buffer| < |Tag(s.inThink)|
      && Visible(s.buffer, s.inThink) == Shown(s.buffer, s.inThink)
      && EndsInside(s.buffer, s.inThink) == s.inThink
    decreases |buffer|
  {
    var i := Find(buffer, Tag(inThink));
    if i != -1 {
      ScanAtTag(buffer, inThink);
      ScanWithholdsShort(buffer[i + |Tag(inThink)|..], !inThink);
    } else {
      ScanRelease(buffer, inThink);
      ShortHasNoTag(Scan(buffer, inThink).buffer, inThink);
    }
  }

  /** A complete tag acts alike whatever follows. */
  lemma TagPreserves(buffer: string, rest: string, inThink: bool)
    requires Find(buffer, Tag(inThink)) != -1
    ensures var i := Find(buffer, Tag(inThink));
      var after := buffer[i + |Tag(inThink)|..];
      && Visible(buffer + rest, inThink) == Shown(buffer[..i], inThink) + Visible(after + rest, !inThink)
      && EndsInside(buffer + rest, inThink) == EndsInside(after + rest, !inThink)
  {
    var i, n := Find(buffer, Tag(inThink)), |Tag(inThink)|;
    FindInAppend(buffer, rest, Tag(inThink));
    assert (buffer + rest)[i + n..] == buffer[i + n..] + rest;
    assert (buffer + rest)[..i] == buffer[..i];
  }

  /** Letting go of the safe part does not change what follows. */
  lemma ReleasePreserves(buffer: string, rest: string, inThink: bool)
    requires Find(buffer, Tag(inThink)) == -1
    ensures var cut := SafeLength(buffer, inThink);
      && Visible(buffer + rest, inThink) == Shown(buffer[..cut], inThink) + Visible(buffer[cut..] + rest, inThink)
      && EndsInside(buffer + rest, inThink) == EndsInside(buffer[cut..] + rest, inThink)
  {
    var cut := SafeLength(buffer, inThink);
    FindAfterRelease(buffer, rest, Tag(inThink), cut);
    assert buffer + rest == buffer[..cut] + (buffer[cut..] + rest);
    PrefixShown(buffer + rest, buffer[..cut], buffer[cut..] + rest, inThink);
  }

  lemma VisibleAtTag(s: string, inThink: bool, i: nat, after: string)
    requires Find(s, Tag(inThink)) == i && after == s[i + |Tag(inThink)|..]
    ensures Visible(s, inThink) == Shown(s[..i], inThink) + Visible(after, !inThink)
    ensures EndsInside(s, inThink) == EndsInside(after, !inThink)
  {
    VisibleUnfolds(s, inThink);
    EndsInsideUnfolds(s, inThink);
  }

  lemma VisibleUnfolds(s: string, inThink: bool)
    requires Find(s, Tag(inThink)) != -1
    ensures var i := Find(s, Tag(inThink));
      Visible(s, inThink) == Shown(s[..i], inThink) + Visible(s[i + |Tag(inThink)|..], !inThink)
  {
  }

  lemma EndsInsideUnfolds(s: string, inThink: bool)
    requires Find(s, Tag(inThink)) != -1
    ensures EndsInside(s, inThink) == EndsInside(s[Find(s, Tag(inThink)) + |Tag(inThink)|..], !inThink)
  {
  }

  /** Text before the first tag is shown or dropped as a whole. */
  lemma PrefixShown(whole: string, a: string, b: string, inThink: bool)
    requires whole == a + b
    requires var j := Find(b, Tag(inThink)); Find(whole, Tag(inThink)) == if j == -1 then -1 else |a| + j
    ensures Visible(whole, inThink) == Shown(a, inThink) + Visible(b, inThink)
    ensures EndsInside(whole, inThink) == EndsInside(b, inThink)
  {
    var j, n := Find(b, Tag(inThink)), |Tag(inThink)|;
    if j != -1 {
      var after := b[j + n..];
      DropThrough(a, b, j, n);
      VisibleAtTag(b, inThink, j, after);
      VisibleAtTag(whole, inThink, |a| + j, after);
      ShownSplit(a, b[..j], inThink);
      Associates(Shown(a, inThink), Shown(b[..j], inThink), Visible(after, !inThink));
    } else {
      VisibleWithoutTag(whole, inThink);
      VisibleWithoutTag(b, inThink);
      ShownSplit(a, b, inThink);
    }
  }

  lemma VisibleWithoutTag(s: string, inThink: bool)
    requires Find(s, Tag(inThink)) == -1
    ensures Visible(s, inThink) == Shown(s, inThink) && EndsInside(s, inThink) == inThink
  {
  }

  lemma ShownSplit(a: string, b: string, inThink: bool)
    ensures Shown(a + b, inThink) == Shown(a, inThink) + Shown(b, inThink)
  {
  }

  lemma DropThrough(a: string, b: string, j: nat, n: nat)
    requires j + n <= |b|
    ensures (a + b)[|a| + j + n..] == b[j + n..]
    ensures (a + b)[..|a| + j] == a + b[..j]
  {
  }

  /** A chunk keeps the meaning of everything that may follow: what is visible of the buffer and
      any continuation is what was let go, then what is visible of the withheld text and the
      continuation. */
  lemma {:induction false} ScanPreserves(buffer: string, rest: string, inThink: bool)
    ensures var s := Scan(buffer, inThink);
      && Visible(buffer + rest, inThink) == s.out + Visible(s.buffer + rest, s.inThink)
      && EndsInside(buffer + rest, inThink) == EndsInside(s.buffer + rest, s.inThink)
    decreases |buffer|
  {
    var i := Find(buffer, Tag(inThink));
    if i != -1 {
      var after := buffer[i + |Tag(inThink)|..];
      TagPreserves(buffer, rest, inThink);
      ScanPreserves(after, rest, !inThink);
      var s := Scan(after, !inThink);
      Associates(Shown(buffer[..i], inThink), s.out, Visible(s.buffer + rest, s.inThink));
    } else {
      ReleasePreserves(buffer, rest, inThink);
    }
  }

  lemma Associates(a: string, b: string, c: string)
    ensures a + (b + c) == (a + b) + c
  {
  }

  lemma ScanThenFlush(buffer: string, inThink: bool)
    ensures var s := Scan(buffer, inThink);
      s.out + Shown(s.buffer, s.inThink) == Visible(buffer, inThink)
  {
    ScanPreserves(buffer, "", inThink);
    ScanWithholdsShort(buffer, inThink);
    assert buffer + "" == buffer;
    var s := Scan(buffer, inThink);
    assert s.buffer + "" == s.buffer;
  }

  // ------------------------------------------------------------------ any chunking

  function Concat(chunks: seq<string>): string {
    if chunks == [] then "" else Concat(chunks[..|chunks| - 1]) + chunks[|chunks| - 1]
  }

  /** The text let go by a run over chunks, and the state it leaves. */
  function Fed(chunks: seq<string>): Scanned {
    if chunks == [] then Scanned("", "", false)
    else
      var before := Fed(chunks[..|chunks| - 1]);
      var s := Scan(before.buffer + chunks[|chunks| - 1], before.inThink);
      s.(out := before.out + s.out)
  }

  /** At every point of every run: for any continuation, the text let go is a prefix of the final
      result and the rest of the result is what the state makes of the continuation. */
  lemma {:induction false} FedPreserves(chunks: seq<string>, rest: string)
    ensures var s := Fed(chunks);
      && Clean(Concat(chunks) + rest) == s.out + Visible(s.buffer + rest, s.inThink)
      && EndsInside(Concat(chunks) + rest, false) == EndsInside(s.buffer + rest, s.inThink)
  {
    if chunks == [] {
      assert Concat(chunks) + rest == rest;
      assert "" + rest == rest;
    } else {
      var front, last := chunks[..|chunks| - 1], chunks[|chunks| - 1];
      var before := Fed(front);
      FedPreserves(front, last + rest);
      Associates(Concat(front), last, rest);
      Associates(before.buffer, last, rest);
      ScanPreserves(before.buffer + last, rest, before.inThink);
      var s := Scan(before.buffer + last, before.inThink);
      Associates(before.out, s.out, Visible(s.buffer + rest, s.inThink));
    }
  }

  lemma FedWithholdsShort(chunks: seq<string>)
    ensures var s := Fed(chunks);
      && |s.buffer| < |Tag(s.inThink)|
      && Visible(s.buffer, s.inThink) == Shown(s.buffer, s.inThink)
      && EndsInside(s.buffer, s.inThink) == s.inThink
  {
    if chunks != [] {
      var before := Fed(chunks[..|chunks| - 1]);
      ScanWithholdsShort(before.buffer + chunks[|chunks| - 1], before.inThink);
    } else {
      ScanWithholdsShort("", false);
    }
  }

  /** For every split of a text into chunks, what is let go and the final flush together are the
      one-shot result: chunk boundaries do not matter. */
  lemma ChunkingIrrelevant(chunks: seq<string>)
    ensures var s := Fed(chunks);
      && s.out + Shown(s.buffer, s.inThink) == Clean(Concat(chunks))
      && s.inThink == EndsInside(Concat(chunks), false)
  {
    FedPreserves(chunks, "");
    FedWithholdsShort(chunks);
    assert Concat(chunks) + "" == Concat(chunks);
    assert Fed(chunks).buffer + "" == Fed(chunks).buffer;
  }

  /** What has been let go is a prefix of the final result under every continuation; it lags the
      result for the text so far by at most six characters, by none inside a span. */
  lemma EmittedIsPrefixWithBoundedLag(chunks: seq<string>, more: string)
    ensures Fed(chunks).out <= Clean(Concat(chunks) + more)
    ensures Fed(chunks).out <= Clean(Concat(chunks))
    ensures |Clean(Concat(chunks))| - |Fed(chunks).out| <= 6
    ensures EndsInside(Concat(chunks), false) ==> Fed(chunks).out == Clean(Concat(chunks))
  {
    FedPreserves(chunks, more);
    FedWithholdsShort(chunks);
    ChunkingIrrelevant(chunks);
  }

  // ------------------------------------------------------------------ what the result is

  lemma {:induction false} VisibleShrinks(s: string, inThink: bool)
    ensures |Visible(s, inThink)| <= |s|
    ensures Find(s, Tag(inThink)) != -1 ==> |Visible(s, inThink)| < |s|
    decreases |s|
  {
    var i := Find(s, Tag(inThink));
    if i != -1 {
      VisibleShrinks(s[i + |Tag(inThink)|..], !inThink);
    }
  }

  /** A text passes unchanged exactly when it has no opening tag. */
  lemma CleanIsIdentityIff(s: string)
    ensures Clean(s) == s <==> !Occurs(s, OPEN_TAG)
  {
    VisibleShrinks(s, false);
    if Find(s, OPEN_TAG) != -1 {
      assert OccursAt(s, OPEN_TAG, Find(s, OPEN_TAG));
    }
  }

  /** Stripping is not idempotent: what surrounds a span can join into a new opening tag. */
  lemma CleanCanContainTag()
    ensures var s := "<thi" + OPEN_TAG + CLOSE_TAG + "nk>";
      Clean(s) == OPEN_TAG && Occurs(Clean(s), OPEN_TAG) && Clean(Clean(s)) == ""
  {
    var s := "<thi" + OPEN_TAG + CLOSE_TAG + "nk>";
    assert s[4..11] == OPEN_TAG;
    assert OccursAt(s, OPEN_TAG, 4);
    forall j | OccursAt(s, OPEN_TAG, j)
      ensures j >= 4
    {
      assert s[j..j + 7][4] == 'n';
      assert s[j + 4] == 'n';
    }
    assert Find(s, OPEN_TAG) == 4;
    var t := s[11..];
    assert t == CLOSE_TAG + "nk>";
    assert t[0..8] == CLOSE_TAG;
    assert OccursAt(t, CLOSE_TAG, 0);
    assert Find(t, CLOSE_TAG) == 0;
    assert t[8..] == "nk>";
    assert Find("nk>", OPEN_TAG) == -1;
    assert Visible(t, true) == "nk>";
    assert s[..4] + "nk>" == OPEN_TAG;
    assert OPEN_TAG[0..7] == OPEN_TAG;
    assert OccursAt(OPEN_TAG, OPEN_TAG, 0);
    assert OPEN_TAG[7..] == "";
    assert Visible("", true) == "";
  }
}
