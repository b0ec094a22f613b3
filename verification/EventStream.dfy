// Event stream framing: the printer on the Go side (writeSSE in internal/api/audit_stream.go) and the
// incremental reader on the browser side (web/src/lib/sse.ts).
module EventStream {
  import opened Text

  datatype Event = Event(name: string, data: string)

  const EVENT_FIELD: string := "event: "
  const DATA_FIELD: string := "data: "

  function Printed(e: Event): string {
    EVENT_FIELD + e.name + ['\n'] + (DATA_FIELD + e.data) + ['\n', '\n']
  }

  function PrintedAll(es: seq<Event>): string {
    if es == [] then "" else Printed(es[0]) + PrintedAll(es[1..])
  }

  // buffer.indexOf("\n\n")
  function BoundaryIn(s: string): (i: int)
    ensures -1 <= i && (i >= 0 ==> i + 2 <= |s|)
  {
    if |s| < 2 then -1
    else if s[0] == '\n' && s[1] == '\n' then 0
    else
      var i := BoundaryIn(s[1..]);
      if i < 0 then -1 else i + 1
  }

  // The last event line and the last data line of a frame win.
  function Fields(lines: seq<string>, name: string, data: string): Event {
    if lines == [] then Event(name, data)
    else if EVENT_FIELD <= lines[0] then Fields(lines[1..], lines[0][|EVENT_FIELD|..], data)
    else if DATA_FIELD <= lines[0] then Fields(lines[1..], name, lines[0][|DATA_FIELD|..])
    else Fields(lines[1..], name, data)
  }

  // A frame without data is not an event.
  function Dispatched(frame: string): seq<Event> {
    var e := Fields(Split(frame, '\n'), "message", "");
    if e.data == "" then [] else [e]
  }

  // The events of all complete frames, and what is left after the last of them.
  datatype Reading = Reading(events: seq<Event>, rest: string)

  function ReadAll(s: string): Reading
    decreases |s|
  {
    var i := BoundaryIn(s);
    if i < 0 then Reading([], s)
    else
      var later := ReadAll(s[i + 2..]);
      Reading(Dispatched(s[..i]) + later.events, later.rest)
  }

  method DispatchFrame(frame: string) returns (out: seq<Event>)
    ensures out == Dispatched(frame)
  {
    var event, data := "message", "";
    var lines := Split(frame, '\n');
    for k := 0 to |lines|
      invariant Fields(lines, "message", "") == Fields(lines[k..], event, data)
    {
      var line := lines[k];
      assert lines[k..][1..] == lines[k + 1..];
      if EVENT_FIELD <= line {
        event := line[|EVENT_FIELD|..];
      } else if DATA_FIELD <= line {
        data := line[|DATA_FIELD|..];
      }
    }
    assert lines[|lines|..] == [];
    return if data != "" then [Event(event, data)] else [];
  }

  function Flatten<T>(chunks: seq<seq<T>>): seq<T> {
    if chunks == [] then [] else Flatten(chunks[..|chunks| - 1]) + chunks[|chunks| - 1]
  }

  // A streaming decoder of characters: what it holds back between reads, and what each byte adds.
  datatype Decoder<!S, !B> = Decoder(start: S, step: (S, B) -> (S, string))

  function Decode<S, B>(d: Decoder<S, B>, s: S, bytes: seq<B>): (S, string) {
    if bytes == [] then (s, "")
    else
      var before := Decode(d, s, bytes[..|bytes| - 1]);
      var last := d.step(before.0, bytes[|bytes| - 1]);
      (last.0, before.1 + last.1)
  }

  // A character cut in two by a read is put together by the next.
  lemma {:induction false} DecodeResumes<S, B>(d: Decoder<S, B>, s: S, a: seq<B>, b: seq<B>)
    ensures var first := Decode(d, s, a);
      var second := Decode(d, first.0, b);
      Decode(d, s, a + b) == (second.0, first.1 + second.1)
  {
    if b == [] {
      assert a + b == a;
      assert Decode(d, s, a).1 + "" == Decode(d, s, a).1;
    } else {
      var n := |b| - 1;
      DecodeResumes(d, s, a, b[..n]);
      var first := Decode(d, s, a);
      var middle := Decode(d, first.0, b[..n]);
      Associative(first.1, middle.1, d.step(middle.0, b[n]).1);
      assert (a + b)[..|a| + n] == a + b[..n] && (a + b)[|a| + n] == b[n];
    }
  }

  // However the bytes are cut into reads, the events are those of the whole text.
  method ReadEventStream<S, B>(d: Decoder<S, B>, chunks: seq<seq<B>>) returns (events: seq<Event>)
    ensures events == ReadAll(Decode(d, d.start, Flatten(chunks)).1).events
  {
    events := [];
    var buffer, state := "", d.start;
    ghost var text := "";
    for k := 0 to |chunks|
      invariant Decode(d, d.start, Flatten(chunks[..k])) == (state, text)
      invariant ReadAll(text) == Reading(events, buffer)
    {
      assert chunks[..k + 1][..k] == chunks[..k];
      DecodeResumes(d, d.start, Flatten(chunks[..k]), chunks[k]);
      var more := Decode(d, state, chunks[k]);
      ResumeWithMore(text, more.1);
      state, text := more.0, text + more.1;
      events, buffer := Drain(events, buffer + more.1);
    }
    assert chunks[..|chunks|] == chunks;
  }

  // Takes every complete frame off the front of the buffer.
  method Drain(events0: seq<Event>, buffer0: string) returns (events: seq<Event>, buffer: string)
    ensures events == events0 + ReadAll(buffer0).events && buffer == ReadAll(buffer0).rest
  {
    events, buffer := events0, buffer0;
    ghost var all := Reading(events + ReadAll(buffer).events, ReadAll(buffer).rest);
    var boundary := BoundaryIn(buffer);
    while boundary != -1
      invariant boundary == BoundaryIn(buffer)
      invariant all == Reading(events + ReadAll(buffer).events, ReadAll(buffer).rest)
      decreases |buffer|
    {
      ReadFirst(buffer, boundary);
      Associative(events, Dispatched(buffer[..boundary]), ReadAll(buffer[boundary + 2..]).events);
      var frame := buffer[..boundary];
      buffer := buffer[boundary + 2..];
      var more := DispatchFrame(frame);
      events := events + more;
      boundary := BoundaryIn(buffer);
    }
  }

  lemma {:induction false} BoundaryStays(s: string, t: string)
    requires BoundaryIn(s) >= 0
    ensures BoundaryIn(s + t) == BoundaryIn(s)
  {
    assert (s + t)[1..] == s[1..] + t;
    if !(s[0] == '\n' && s[1] == '\n') {
      BoundaryStays(s[1..], t);
    }
  }

  lemma ReadFirst(s: string, i: nat)
    requires BoundaryIn(s) == i
    ensures ReadAll(s).events == Dispatched(s[..i]) + ReadAll(s[i + 2..]).events && ReadAll(s).rest == ReadAll(s[i + 2..]).rest
  {
  }

  lemma Associative<T>(a: seq<T>, b: seq<T>, c: seq<T>)
    ensures a + (b + c) == (a + b) + c
  {
  }

  // Reading what is left of a prefix together with what follows it.
  lemma {:induction false} ResumeWithMore(s: string, t: string)
    ensures ReadAll(s + t).events == ReadAll(s).events + ReadAll(ReadAll(s).rest + t).events
    ensures ReadAll(s + t).rest == ReadAll(ReadAll(s).rest + t).rest
    decreases |s|
  {
    var i := BoundaryIn(s);
    if i >= 0 {
      var later := s[i + 2..];
      ResumeWithMore(later, t);
      FirstFrameStays(s, t, i);
      ReadFirst(s, i);
      Associative(Dispatched(s[..i]), ReadAll(later).events, ReadAll(ReadAll(later).rest + t).events);
    } else {
      assert ReadAll(s) == Reading([], s);
    }
  }

  lemma FirstFrameStays(s: string, t: string, i: nat)
    requires BoundaryIn(s) == i
    ensures ReadAll(s + t).events == Dispatched(s[..i]) + ReadAll(s[i + 2..] + t).events
    ensures ReadAll(s + t).rest == ReadAll(s[i + 2..] + t).rest
  {
    BoundaryStays(s, t);
    ReadFirst(s + t, i);
    assert (s + t)[..i] == s[..i] && (s + t)[i + 2..] == s[i + 2..] + t;
  }

  // What one frame can carry.
  predicate Carriable(e: Event) {
    '\n' !in e.name && '\n' !in e.data && e.data != ""
  }

  lemma {:induction false} FirstBoundary(s: string, t: string)
    requires forall k :: 0 <= k < |s| - 1 ==> !(s[k] == '\n' && s[k + 1] == '\n')
    requires s == "" || s[|s| - 1] != '\n'
    ensures BoundaryIn(s + ['\n', '\n'] + t) == |s|
  {
    var whole := s + ['\n', '\n'] + t;
    if s != [] {
      assert whole[1..] == s[1..] + ['\n', '\n'] + t;
      FirstBoundary(s[1..], t);
      assert whole[0] == s[0] && (|s| > 1 ==> whole[1] == s[1]);
    }
  }

  function Frame(e: Event): string {
    EVENT_FIELD + e.name + ['\n'] + (DATA_FIELD + e.data)
  }

  lemma FrameEnds(e: Event, t: string)
    requires Carriable(e)
    ensures BoundaryIn(Printed(e) + t) == |Frame(e)|
  {
    var f, g := EVENT_FIELD + e.name, DATA_FIELD + e.data;
    assert '\n' !in f && '\n' !in g;
    var s := f + ['\n'] + g;
    forall k | 0 <= k < |s| ensures s[k] == '\n' ==> k == |f| {
      assert k < |f| ==> s[k] in f;
      assert k > |f| ==> s[k] == g[k - |f| - 1] && s[k] in g;
    }
    FirstBoundary(s, t);
    assert Printed(e) + t == s + ['\n', '\n'] + t;
  }

  lemma FrameSays(e: Event)
    requires Carriable(e)
    ensures Dispatched(Frame(e)) == [e]
  {
    var f, g := EVENT_FIELD + e.name, DATA_FIELD + e.data;
    assert '\n' !in f && '\n' !in g;
    SplitFirst(f, '\n', g);
    IndexOfFirst(g, '\n', []);
    assert Split(Frame(e), '\n') == [f, g];
    FieldsOfBoth(e, f, g);
  }

  lemma FieldsOfBoth(e: Event, f: string, g: string)
    requires f == EVENT_FIELD + e.name && g == DATA_FIELD + e.data
    ensures Fields([f, g], "message", "") == e
  {
    assert f[|EVENT_FIELD|..] == e.name && g[|DATA_FIELD|..] == e.data;
    assert !(EVENT_FIELD <= g) by {
      assert g[0] == 'd' && EVENT_FIELD[0] == 'e';
    }
    assert [f, g][1..] == [g] && [g][1..] == [];
    assert Fields([g], e.name, "") == Fields([], e.name, e.data) == e;
  }

  lemma {:induction false} ReadUndoesPrint(es: seq<Event>)
    requires forall e :: e in es ==> Carriable(e)
    ensures ReadAll(PrintedAll(es)) == Reading(es, "")
  {
    if es == [] {
      assert BoundaryIn("") == -1;
    } else {
      var rest := PrintedAll(es[1..]);
      ReadUndoesPrint(es[1..]);
      FrameEnds(es[0], rest);
      FrameSays(es[0]);
      var s, i := Printed(es[0]) + rest, |Frame(es[0])|;
      ReadFirst(s, i);
      assert s[..i] == Frame(es[0]) && s[i + 2..] == rest;
      assert es == [es[0]] + es[1..];
    }
  }

  lemma {:induction false} FieldsCarriable(lines: seq<string>, name: string, data: string)
    requires '\n' !in name && '\n' !in data && forall line :: line in lines ==> '\n' !in line
    ensures '\n' !in Fields(lines, name, data).name && '\n' !in Fields(lines, name, data).data
  {
    if lines != [] {
      assert lines[0] in lines;
      FieldsCarriable(lines[1..], if EVENT_FIELD <= lines[0] then lines[0][|EVENT_FIELD|..] else name,
        if !(EVENT_FIELD <= lines[0]) && DATA_FIELD <= lines[0] then lines[0][|DATA_FIELD|..] else data);
    }
  }

  // Whatever is received, only carriable events are delivered.
  lemma {:induction false} DeliveredAreCarriable(s: string)
    ensures forall e :: e in ReadAll(s).events ==> Carriable(e)
    decreases |s|
  {
    var i := BoundaryIn(s);
    if i >= 0 {
      DeliveredAreCarriable(s[i + 2..]);
      FieldsCarriable(Split(s[..i], '\n'), "message", "");
    }
  }

  // Decoding undoes encoding, however the bytes arrive, exactly for carriable events.
  lemma RoundTripIffCarriable<S, B>(es: seq<Event>, d: Decoder<S, B>, chunks: seq<seq<B>>)
    requires Decode(d, d.start, Flatten(chunks)).1 == PrintedAll(es)
    ensures ReadAll(Decode(d, d.start, Flatten(chunks)).1).events == es <==> forall e :: e in es ==> Carriable(e)
  {
    if forall e :: e in es ==> Carriable(e) {
      ReadUndoesPrint(es);
    }
    DeliveredAreCarriable(PrintedAll(es));
  }
}
