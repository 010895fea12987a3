/** Stripping a stream of completion events with one choice each
    (backend/open_webui/main.py, _strip_think_tags_from_stream). */
module ThinkStream {
  import opened ThinkTags

  /** The content key of an event: missing, present with something that is no text (a null, say),
      or a text. */
  datatype Content = Missing | NotText | Text(text: string)

  /** A line that is no JSON, a completion event, or the end marker. */
  datatype Event = Raw(line: string) | Data(content: Content, finish: bool) | Done

  function TextIn(c: Content): string {
    if c.Text? then c.text else ""
  }

  /** All content text of a stream, in order. */
  function TextOf(events: seq<Event>): string {
    if events == [] then ""
    else TextOf(events[..|events| - 1]) + EventText(events[|events| - 1])
  }

  function EventText(e: Event): string {
    if e.Data? then TextIn(e.content) else ""
  }

  // ------------------------------------------------------------------ the loop

  /** The withheld text as an event of its own, when there is any. */
  function TailEvent(tail: string): seq<Event> {
    if tail == "" then [] else [Data(Text(tail), false)]
  }

  /** One event: what is sent on, the state afterwards, and whether appending the withheld text to
      a content that is no text raises. */
  datatype Handled = Handled(out: seq<Event>, buffer: string, inThink: bool, raised: bool)

  function Handle(e: Event, buffer: string, inThink: bool): Handled {
    match e
    case Raw(_) => Handled([e], buffer, inThink, false)
    case Done => Handled(TailEvent(Shown(buffer, inThink)) + [Done], "", inThink, false)
    case Data(content, finish) =>
      var s := if content.Text? then Scan(buffer + content.text, inThink) else Scanned("", buffer, inThink);
      var stripped := if content.Text? then Text(s.out) else content;
      if !finish then Handled([Data(stripped, false)], s.buffer, s.inThink, false)
      else
        var tail := Shown(s.buffer, s.inThink);
        if tail == "" then Handled([Data(stripped, true)], "", s.inThink, false)
        else if stripped.NotText? then Handled([], "", s.inThink, true)
        else Handled([Data(Text(TextIn(stripped) + tail), true)], "", s.inThink, false)
  }

  /** The whole stream: the events sent before the end or before the first exception. */
  function Streamed(events: seq<Event>, buffer: string, inThink: bool): Handled {
    if events == [] then Handled(TailEvent(Shown(buffer, inThink)), "", inThink, false)
    else
      var h := Handle(events[0], buffer, inThink);
      if h.raised then h
      else
        var rest := Streamed(events[1..], h.buffer, h.inThink);
        SentBefore(h.out, rest)
  }

  method HandleEvent(state: ThinkState, e: Event) returns (out: seq<Event>, raised: bool)
    modifies state
    ensures Handled(out, state.buffer, state.inThink, raised) == Handle(e, old(state.buffer), old(state.inThink))
  {
    out, raised := [], false;
    match e
    case Raw(_) =>
      out := [e];
    case Done =>
      var tail := state.FlushThinkTags();
      if tail != "" {
        out := [Data(Text(tail), false)];
      }
      out := out + [Done];
    case Data(content, finish) =>
      var stripped := content;
      if content.Text? {
        var s := state.StripThinkTags(content.text);
        stripped := Text(s);
      }
      if finish {
        var tail := state.FlushThinkTags();
        if tail != "" {
          if stripped.NotText? {
            raised := true;
            return;
          }
          stripped := Text(TextIn(stripped) + tail);
        }
      }
      out := [Data(stripped, finish)];
  }

  method StripStream(events: seq<Event>) returns (out: seq<Event>, raised: bool)
    ensures out == Streamed(events, "", false).out
    ensures raised == Streamed(events, "", false).raised
  {
    var state := new ThinkState();
    ghost var whole := Streamed(events, "", false);
    out, raised := [], false;
    for i := 0 to |events|
      invariant fresh(state)
      invariant whole == SentBefore(out, Streamed(events[i..], state.buffer, state.inThink))
    {
      ghost var before := out;
      assert events[i..][1..] == events[i + 1..];
      var sent;
      sent, raised := HandleEvent(state, events[i]);
      if raised {
        assert out + [] == out;
        return;
      }
      out := out + sent;
      SentTwice(before, sent, Streamed(events[i + 1..], state.buffer, state.inThink));
    }
    assert events[|events|..] == [];
    var tail := state.FlushThinkTags();
    if tail != "" {
      out := out + [Data(Text(tail), false)];
    }
  }

  function SentBefore(sent: seq<Event>, h: Handled): Handled {
    h.(out := sent + h.out)
  }

  lemma SentTwice(a: seq<Event>, b: seq<Event>, h: Handled)
    ensures SentBefore(a, SentBefore(b, h)) == SentBefore(a + b, h)
  {
    assert a + (b + h.out) == (a + b) + h.out;
  }

  // ------------------------------------------------------------------ what the stream means

  /** The reference: text collects until a finish event, the end marker or the end of the stream,
      and each such stretch is shown as a whole, starting on the side of the span where the one
      before ended. */
  function Expected(events: seq<Event>, pending: string, inThink: bool): string {
    if events == [] then Visible(pending, inThink)
    else
      var e := events[0];
      var text := pending + EventText(e);
      if e.Done? || (e.Data? && e.finish)
      then Visible(text, inThink) + Expected(events[1..], "", EndsInside(text, inThink))
      else Expected(events[1..], text, inThink)
  }

  /** Visible text after the last closed span. */
  function Trailing(s: string, inThink: bool): string
    decreases |s|
  {
    var i := Find(s, Tag(inThink));
    if i == -1 then Shown(s, inThink) else Trailing(s[i + |Tag(inThink)|..], !inThink)
  }

  /** Some finish event carries a content that is no text while visible text is pending after the
      last closed span. */
  function MeetsBadFinish(events: seq<Event>, pending: string, inThink: bool): bool {
    if events == [] then false
    else
      var e := events[0];
      var text := pending + EventText(e);
      if e.Done? || (e.Data? && e.finish)
      then (e.Data? && e.content.NotText? && Trailing(text, inThink) != "") ||
           MeetsBadFinish(events[1..], "", EndsInside(text, inThink))
      else MeetsBadFinish(events[1..], text, inThink)
  }

  // ------------------------------------------------------------------ the loop means the reference

  lemma {:induction false} TextOfAppend(a: seq<Event>, b: seq<Event>)
    ensures TextOf(a + b) == TextOf(a) + TextOf(b)
  {
    if b == [] {
      assert a + b == a;
    } else {
      assert (a + b)[..|a + b| - 1] == a + b[..|b| - 1];
      TextOfAppend(a, b[..|b| - 1]);
    }
  }

  lemma TextOfOne(e: Event)
    ensures TextOf([e]) == EventText(e)
  {
    assert [e][..0] == [];
    assert "" + EventText(e) == EventText(e);
  }

  lemma TextOfTail(tail: string)
    ensures TextOf(TailEvent(tail)) == tail
    ensures TextOf(TailEvent(tail) + [Done]) == tail
  {
    if tail != "" {
      TextOfOne(Data(Text(tail), false));
    }
    TextOfAppend(TailEvent(tail), [Done]);
    TextOfOne(Done);
    assert tail + "" == tail;
  }

  /** `q` stands for `p` once `o` has been sent: whatever follows, the rest is the same. */
  ghost predicate StandsFor(p: string, t: bool, o: string, q: string, u: bool) {
    forall r: string ::
      && Visible(p + r, t) == o + Visible(q + r, u)
      && EndsInside(p + r, t) == EndsInside(q + r, u)
  }

  lemma StandsForLonger(p: string, t: bool, o: string, q: string, u: bool, x: string)
    requires StandsFor(p, t, o, q, u)
    ensures StandsFor(p + x, t, o, q + x, u)
  {
    forall r: string
      ensures Visible((p + x) + r, t) == o + Visible((q + x) + r, u)
      ensures EndsInside((p + x) + r, t) == EndsInside((q + x) + r, u)
    {
      Associates(p, x, r);
      Associates(q, x, r);
      assert Visible(p + (x + r), t) == o + Visible(q + (x + r), u);
    }
  }

  lemma {:induction false} ExpectedShift(events: seq<Event>, p: string, t: bool, o: string, q: string, u: bool)
    requires StandsFor(p, t, o, q, u)
    ensures Expected(events, p, t) == o + Expected(events, q, u)
  {
    if events == [] {
      assert p + "" == p && q + "" == q;
      assert Visible(p + "", t) == o + Visible(q + "", u);
    } else {
      var e, x := events[0], EventText(events[0]);
      StandsForLonger(p, t, o, q, u, x);
      if e.Done? || (e.Data? && e.finish) {
        assert Visible(p + x, t) == o + Visible(q + x, u);
        Associates(o, Visible(q + x, u), Expected(events[1..], "", EndsInside(q + x, u)));
      } else {
        ExpectedShift(events[1..], p + x, t, o, q + x, u);
      }
    }
  }

  lemma ScanStandsFor(buffer: string, inThink: bool)
    ensures var s := Scan(buffer, inThink); StandsFor(buffer, inThink, s.out, s.buffer, s.inThink)
  {
    var s := Scan(buffer, inThink);
    forall r: string
      ensures Visible(buffer + r, inThink) == s.out + Visible(s.buffer + r, s.inThink)
      ensures EndsInside(buffer + r, inThink) == EndsInside(s.buffer + r, s.inThink)
    {
      ScanPreserves(buffer, r, inThink);
    }
  }

  /** Withheld text holds no complete tag. */
  ghost predicate Short(buffer: string, inThink: bool) {
    |buffer| < |Tag(inThink)|
  }

  lemma ShortText(buffer: string, inThink: bool)
    requires Short(buffer, inThink)
    ensures Visible(buffer, inThink) == Shown(buffer, inThink)
    ensures EndsInside(buffer, inThink) == inThink
    ensures Trailing(buffer, inThink) == Shown(buffer, inThink)
  {
  }

  lemma ScannedFacts(text: string, inThink: bool)
    ensures var s := Scan(text, inThink);
      && Short(s.buffer, s.inThink)
      && s.out + Shown(s.buffer, s.inThink) == Visible(text, inThink)
      && EndsInside(text, inThink) == s.inThink
  {
    ScanWithholdsShort(text, inThink);
    ScanThenFlush(text, inThink);
    ScanPreserves(text, "", inThink);
    var s := Scan(text, inThink);
    assert text + "" == text && s.buffer + "" == s.buffer;
  }

  lemma ExpectedCons(e: Event, rest: seq<Event>, pending: string, inThink: bool, text: string)
    requires text == pending + EventText(e)
    ensures Expected([e] + rest, pending, inThink) ==
      if e.Done? || (e.Data? && e.finish)
      then Visible(text, inThink) + Expected(rest, "", EndsInside(text, inThink))
      else Expected(rest, text, inThink)
  {
    assert ([e] + rest)[1..] == rest;
  }

  lemma FinishSends(s: Scanned)
    ensures var tail := Shown(s.buffer, s.inThink);
      TextOf([if tail == "" then Data(Text(s.out), true) else Data(Text(s.out + tail), true)]) == s.out + tail
  {
    var tail := Shown(s.buffer, s.inThink);
    assert s.out + "" == s.out;
    TextOfOne(if tail == "" then Data(Text(s.out), true) else Data(Text(s.out + tail), true));
  }

  lemma HandledTextEvent(text: string, finish: bool, rest: seq<Event>, buffer: string, inThink: bool)
    ensures var e := Data(Text(text), finish);
      var h := Handle(e, buffer, inThink);
      && !h.raised && Short(h.buffer, h.inThink)
      && Expected([e] + rest, buffer, inThink) == TextOf(h.out) + Expected(rest, h.buffer, h.inThink)
  {
    var e := Data(Text(text), finish);
    var s := Scan(buffer + text, inThink);
    ScannedFacts(buffer + text, inThink);
    ExpectedCons(e, rest, buffer, inThink, buffer + text);
    if finish {
      FinishSends(s);
    } else {
      TextOfOne(Data(Text(s.out), false));
      ScanStandsFor(buffer + text, inThink);
      ExpectedShift(rest, buffer + text, inThink, s.out, s.buffer, s.inThink);
    }
  }

  lemma HandledOtherEvent(e: Event, rest: seq<Event>, buffer: string, inThink: bool)
    requires Short(buffer, inThink) && EventText(e) == "" && !(e.Data? && e.content.Text?)
    requires !Handle(e, buffer, inThink).raised
    ensures var h := Handle(e, buffer, inThink);
      && Short(h.buffer, h.inThink)
      && Expected([e] + rest, buffer, inThink) == TextOf(h.out) + Expected(rest, h.buffer, h.inThink)
  {
    var h := Handle(e, buffer, inThink);
    assert buffer + "" == buffer;
    ExpectedCons(e, rest, buffer, inThink, buffer);
    ShortText(buffer, inThink);
    match e
    case Raw(_) => TextOfOne(e);
    case Done => TextOfTail(Shown(buffer, inThink));
    case Data(content, finish) =>
      TextOfOne(h.out[0]);
      assert "" + Shown(buffer, inThink) == Shown(buffer, inThink);
  }

  /** One event, without an exception: what is sent now, and the reference for what follows. */
  lemma HandledText(e: Event, rest: seq<Event>, buffer: string, inThink: bool)
    requires Short(buffer, inThink) && !Handle(e, buffer, inThink).raised
    ensures var h := Handle(e, buffer, inThink);
      && Short(h.buffer, h.inThink)
      && Expected([e] + rest, buffer, inThink) == TextOf(h.out) + Expected(rest, h.buffer, h.inThink)
  {
    if e.Data? && e.content.Text? {
      HandledTextEvent(e.content.text, e.finish, rest, buffer, inThink);
    } else {
      HandledOtherEvent(e, rest, buffer, inThink);
    }
  }

  /** Without an exception the text sent is the reference's; up to an exception it is a prefix. */
  lemma {:induction false} StreamedText(events: seq<Event>, buffer: string, inThink: bool)
    requires Short(buffer, inThink)
    ensures var h := Streamed(events, buffer, inThink);
      && (!h.raised ==> TextOf(h.out) == Expected(events, buffer, inThink))
      && TextOf(h.out) <= Expected(events, buffer, inThink)
  {
    if events == [] {
      ShortText(buffer, inThink);
      TextOfTail(Shown(buffer, inThink));
    } else {
      var h := Handle(events[0], buffer, inThink);
      if h.raised {
        assert TextOf(h.out) == "";
      } else {
        assert events == [events[0]] + events[1..];
        HandledText(events[0], events[1..], buffer, inThink);
        StreamedText(events[1..], h.buffer, h.inThink);
        TextOfAppend(h.out, Streamed(events[1..], h.buffer, h.inThink).out);
      }
    }
  }

  /** The text a whole stream sends on is the reference's, whatever its chunking, as long as
      nothing raises. */
  lemma StreamMeansExpected(events: seq<Event>)
    ensures var h := Streamed(events, "", false);
      && (!h.raised ==> TextOf(h.out) == Expected(events, "", false))
      && TextOf(h.out) <= Expected(events, "", false)
  {
    StreamedText(events, "", false);
  }

  // ------------------------------------------------------------------ one flush

  // ------------------------------------------------------------------ the events sent

  /** `f` is `e` sent on: a line that is no event unchanged, an event with its finish flag and a
      content of its kind. Only a finish event without content may gain one, the withheld text. */
  ghost predicate Relayed(e: Event, f: Event) {
    match e
    case Raw(_) => f == e
    case Done => f == Done
    case Data(content, finish) =>
      f.Data? && f.finish == finish &&
      match content
      case NotText => f.content == NotText
      case Text(_) => f.content.Text?
      case Missing => f.content == Missing || (finish && f.content.Text?)
  }

  /** Withheld text sent as an event of its own. */
  ghost predicate IsTail(f: Event) {
    f.Data? && !f.finish && f.content.Text? && f.content.text != ""
  }

  /** The events received, sent on one for one and in order, with at most one tail directly before
      each end marker and, when `ended`, at the end. */
  ghost predicate Relays(received: seq<Event>, sent: seq<Event>, ended: bool) {
    if received == [] then sent == [] || (ended && |sent| == 1 && IsTail(sent[0]))
    else
      || (sent != [] && Relayed(received[0], sent[0]) && Relays(received[1..], sent[1..], ended))
      || (received[0].Done? && |sent| >= 2 && IsTail(sent[0]) && sent[1] == Done &&
          Relays(received[1..], sent[2..], ended))
  }

  lemma HandleRelays(e: Event, rest: seq<Event>, buffer: string, inThink: bool, sent: seq<Event>, ended: bool)
    requires !Handle(e, buffer, inThink).raised && Relays(rest, sent, ended)
    ensures Relays([e] + rest, Handle(e, buffer, inThink).out + sent, ended)
  {
    var out := Handle(e, buffer, inThink).out;
    assert ([e] + rest)[1..] == rest;
    if |out| == 1 {
      assert (out + sent)[1..] == sent;
    } else {
      assert (out + sent)[2..] == sent;
    }
  }

  /** When nothing raises the stream relays its events, end markers included. An exception comes at a
      finish event whose content is no text, after the events before it were relayed. */
  lemma {:induction false} StreamedRelays(events: seq<Event>, buffer: string, inThink: bool)
    ensures var h := Streamed(events, buffer, inThink);
      && (!h.raised ==> Relays(events, h.out, true))
      && (h.raised ==>
        exists n :: 0 <= n < |events| && events[n] == Data(NotText, true) && Relays(events[..n], h.out, false))
  {
    if events != [] {
      var e, rest := events[0], events[1..];
      var h := Handle(e, buffer, inThink);
      assert events == [e] + rest;
      if h.raised {
        assert events[..0] == [];
        assert Streamed(events, buffer, inThink).out == [];
      } else {
        StreamedRelays(rest, h.buffer, h.inThink);
        var after := Streamed(rest, h.buffer, h.inThink);
        if after.raised {
          var n :| 0 <= n < |rest| && rest[n] == Data(NotText, true) && Relays(rest[..n], after.out, false);
          HandleRelays(e, rest[..n], buffer, inThink, after.out, false);
          assert events[..n + 1] == [e] + rest[..n] && events[n + 1] == rest[n];
        } else {
          HandleRelays(e, rest, buffer, inThink, after.out, true);
        }
      }
    }
  }

  /** A whole stream, from its start. */
  lemma StreamRelays(events: seq<Event>)
    ensures var h := Streamed(events, "", false);
      && (!h.raised ==> Relays(events, h.out, true))
      && (h.raised ==>
        exists n :: 0 <= n < |events| && events[n] == Data(NotText, true) && Relays(events[..n], h.out, false))
  {
    StreamedRelays(events, "", false);
  }

  /** No content text follows the first finish event or end marker. */
  function TextEndsAtFlush(events: seq<Event>): bool {
    if events == [] then true
    else if events[0].Done? || (events[0].Data? && events[0].finish) then TextOf(events[1..]) == ""
    else TextEndsAtFlush(events[1..])
  }

  lemma TextOfCons(events: seq<Event>)
    requires events != []
    ensures TextOf(events) == EventText(events[0]) + TextOf(events[1..])
  {
    assert events == [events[0]] + events[1..];
    TextOfAppend([events[0]], events[1..]);
    TextOfOne(events[0]);
  }

  lemma {:induction false} ExpectedWithoutText(events: seq<Event>, inThink: bool)
    requires TextOf(events) == ""
    ensures Expected(events, "", inThink) == ""
  {
    ShortText("", inThink);
    if events != [] {
      TextOfCons(events);
      assert EventText(events[0]) == "" && TextOf(events[1..]) == "";
      assert "" + EventText(events[0]) == "";
      ExpectedWithoutText(events[1..], inThink);
    }
  }

  lemma {:induction false} ExpectedOnce(events: seq<Event>, pending: string, inThink: bool)
    requires TextEndsAtFlush(events)
    ensures Expected(events, pending, inThink) == Visible(pending + TextOf(events), inThink)
  {
    if events == [] {
      assert pending + "" == pending;
    } else {
      TextOfCons(events);
      var text := pending + EventText(events[0]);
      Associates(pending, EventText(events[0]), TextOf(events[1..]));
      if events[0].Done? || (events[0].Data? && events[0].finish) {
        ExpectedWithoutText(events[1..], EndsInside(text, inThink));
        assert text + "" == text;
        assert Visible(text, inThink) + "" == Visible(text, inThink);
      } else {
        ExpectedOnce(events[1..], text, inThink);
      }
    }
  }

  /** A stream with no content after its finish event sends on exactly the stripped text: the
      withheld tail is sent once, at the finish, the end marker or the end, whichever is first. */
  lemma SingleFinishStream(events: seq<Event>)
    requires TextEndsAtFlush(events)
    ensures var h := Streamed(events, "", false); !h.raised ==> TextOf(h.out) == Clean(TextOf(events))
  {
    StreamMeansExpected(events);
    ExpectedOnce(events, "", false);
    assert "" + TextOf(events) == TextOf(events);
  }

  // ------------------------------------------------------------------ exceptions

  /** `q` has visible trailing text exactly when `p` has, whatever follows. */
  ghost predicate TrailsAlike(p: string, t: bool, q: string, u: bool) {
    forall r: string ::
      && (Trailing(p + r, t) != "" <==> Trailing(q + r, u) != "")
      && EndsInside(p + r, t) == EndsInside(q + r, u)
  }

  lemma TrailingAtTag(s: string, inThink: bool, i: nat, after: string)
    requires Find(s, Tag(inThink)) == i && after == s[i + |Tag(inThink)|..]
    ensures Trailing(s, inThink) == Trailing(after, !inThink)
  {
  }

  lemma ReleaseTrails(buffer: string, rest: string, inThink: bool)
    requires Find(buffer, Tag(inThink)) == -1
    ensures var cut := SafeLength(buffer, inThink);
      Trailing(buffer + rest, inThink) != "" <==> Trailing(buffer[cut..] + rest, inThink) != ""
  {
    var cut := SafeLength(buffer, inThink);
    FindAfterRelease(buffer, rest, Tag(inThink), cut);
    var a, b := buffer[..cut], buffer[cut..] + rest;
    assert buffer + rest == a + b;
    SplitTrails(buffer + rest, a, b, inThink);
  }

  lemma SplitTrails(whole: string, a: string, b: string, inThink: bool)
    requires whole == a + b && (a != "" ==> b != "")
    requires var j := Find(b, Tag(inThink)); Find(whole, Tag(inThink)) == if j == -1 then -1 else |a| + j
    ensures Trailing(whole, inThink) != "" <==> Trailing(b, inThink) != ""
  {
    var j, n := Find(b, Tag(inThink)), |Tag(inThink)|;
    if j != -1 {
      DropThrough(a, b, j, n);
      TrailingAtTag(b, inThink, j, b[j + n..]);
      TrailingAtTag(whole, inThink, |a| + j, b[j + n..]);
    }
  }

  lemma TagTrails(buffer: string, rest: string, inThink: bool)
    requires Find(buffer, Tag(inThink)) != -1
    ensures Trailing(buffer + rest, inThink) ==
      Trailing(buffer[Find(buffer, Tag(inThink)) + |Tag(inThink)|..] + rest, !inThink)
  {
    var i, n := Find(buffer, Tag(inThink)), |Tag(inThink)|;
    FindInAppend(buffer, rest, Tag(inThink));
    assert (buffer + rest)[i + n..] == buffer[i + n..] + rest;
    TrailingAtTag(buffer + rest, inThink, i, buffer[i + n..] + rest);
  }

  lemma {:induction false} ScanTrails(buffer: string, rest: string, inThink: bool)
    ensures var s := Scan(buffer, inThink);
      Trailing(buffer + rest, inThink) != "" <==> Trailing(s.buffer + rest, s.inThink) != ""
    decreases |buffer|
  {
    if Find(buffer, Tag(inThink)) != -1 {
      ScanAtTag(buffer, inThink);
      TagTrails(buffer, rest, inThink);
      ScanTrails(buffer[Find(buffer, Tag(inThink)) + |Tag(inThink)|..], rest, !inThink);
    } else {
      ScanRelease(buffer, inThink);
      ReleaseTrails(buffer, rest, inThink);
    }
  }

  lemma ScanTrailsAlike(buffer: string, inThink: bool)
    ensures var s := Scan(buffer, inThink); TrailsAlike(buffer, inThink, s.buffer, s.inThink)
  {
    var s := Scan(buffer, inThink);
    forall r: string
      ensures Trailing(buffer + r, inThink) != "" <==> Trailing(s.buffer + r, s.inThink) != ""
      ensures EndsInside(buffer + r, inThink) == EndsInside(s.buffer + r, s.inThink)
    {
      ScanTrails(buffer, r, inThink);
      ScanPreserves(buffer, r, inThink);
    }
  }

  lemma {:induction false} BadFinishShift(events: seq<Event>, p: string, t: bool, q: string, u: bool)
    requires TrailsAlike(p, t, q, u)
    ensures MeetsBadFinish(events, p, t) == MeetsBadFinish(events, q, u)
  {
    if events != [] {
      var x := EventText(events[0]);
      assert Trailing(p + x, t) != "" <==> Trailing(q + x, u) != "";
      forall r: string
        ensures Trailing((p + x) + r, t) != "" <==> Trailing((q + x) + r, u) != ""
        ensures EndsInside((p + x) + r, t) == EndsInside((q + x) + r, u)
      {
        Associates(p, x, r);
        Associates(q, x, r);
        assert Trailing(p + (x + r), t) != "" <==> Trailing(q + (x + r), u) != "";
      }
      BadFinishShift(events[1..], p + x, t, q + x, u);
    }
  }

  lemma {:induction false} RaisesIffFrom(events: seq<Event>, buffer: string, inThink: bool)
    requires Short(buffer, inThink)
    ensures Streamed(events, buffer, inThink).raised <==> MeetsBadFinish(events, buffer, inThink)
  {
    if events != [] {
      var e := events[0];
      var h := Handle(e, buffer, inThink);
      ShortText(buffer, inThink);
      var text := buffer + EventText(e);
      if e.Data? && e.content.Text? {
        var s := Scan(text, inThink);
        ScanWithholdsShort(text, inThink);
        ScanTrailsAlike(text, inThink);
        assert text + "" == text && s.buffer + "" == s.buffer;
        assert EndsInside(text + "", inThink) == EndsInside(s.buffer + "", s.inThink);
        if e.finish {
          RaisesIffFrom(events[1..], "", s.inThink);
        } else {
          RaisesIffFrom(events[1..], s.buffer, s.inThink);
          BadFinishShift(events[1..], text, inThink, s.buffer, s.inThink);
        }
      } else {
        assert text == buffer;
        if !h.raised {
          RaisesIffFrom(events[1..], h.buffer, h.inThink);
        }
      }
    }
  }

  /** A stream raises exactly when a finish event carries a content that is no text, a null say,
      while visible text is pending after the last closed span. */
  lemma StreamRaisesIff(events: seq<Event>)
    ensures Streamed(events, "", false).raised <==> MeetsBadFinish(events, "", false)
  {
    RaisesIffFrom(events, "", false);
  }

  /** "hi", withheld as a possible tag, and a finish whose content is null: the stream raises. */
  lemma NullFinishRaises()
    ensures Streamed([Data(Text("hi"), false), Data(NotText, true)], "", false).raised
  {
    var events := [Data(Text("hi"), false), Data(NotText, true)];
    assert events[1..] == [Data(NotText, true)];
    assert "" + "hi" == "hi" && "hi" + "" == "hi";
    ShortText("hi", false);
    StreamRaisesIff(events);
  }
}
