// What a browser's own EventSource would make of the stream: sections 9.2.5 and 9.2.6 of the WHATWG
// HTML standard, against the printer and the hand-written reader.
module StandardStream {
  import opened Text
  import opened EventStream

  // A line ends in CR, LF or CR LF.
  function LineEnd(s: string): (i: int)
    ensures -1 <= i < |s|
    ensures i >= 0 ==> (s[i] == '\r' || s[i] == '\n') && '\r' !in s[..i] && '\n' !in s[..i]
    ensures i < 0 ==> '\r' !in s && '\n' !in s
  {
    if s == "" then -1
    else if s[0] == '\r' || s[0] == '\n' then 0
    else
      var i := LineEnd(s[1..]);
      assert i >= 0 ==> s[..i + 1] == [s[0]] + s[1..][..i];
      if i < 0 then -1 else i + 1
  }

  function AfterEnd(s: string, i: nat): (next: nat)
    requires i < |s|
    ensures i < next <= |s|
  {
    if s[i] == '\r' && i + 1 < |s| && s[i + 1] == '\n' then i + 2 else i + 1
  }

  // The lines that are ended. One cut off by the end of the stream belongs to no complete event.
  function Lines(s: string): (lines: seq<string>)
    ensures forall line :: line in lines ==> '\r' !in line && '\n' !in line
    decreases |s|
  {
    var i := LineEnd(s);
    if i < 0 then [] else [s[..i]] + Lines(s[AfterEnd(s, i)..])
  }

  // The event type buffer and the data buffer.
  datatype Buffers = Buffers(name: string, data: string)

  const EMPTY := Buffers("", "")

  function FieldName(line: string): string {
    var i := IndexOf(line, ':');
    if i < 0 then line else line[..i]
  }

  // What follows the first colon, without one leading space.
  function FieldValue(line: string): string {
    var i := IndexOf(line, ':');
    if i < 0 then "" else TrimPrefix(line[i + 1..], ' ')
  }

  // Comments, which have an empty field name, and fields of other names leave the buffers alone.
  function Process(b: Buffers, line: string): Buffers {
    if FieldName(line) == "event" then b.(name := FieldValue(line))
    else if FieldName(line) == "data" then b.(data := b.data + FieldValue(line) + ['\n'])
    else b
  }

  function Dispatch(b: Buffers): seq<Event> {
    if b.data == "" then []
    else
      var last := |b.data| - 1;
      [Event(if b.name == "" then "message" else b.name, if b.data[last] == '\n' then b.data[..last] else b.data)]
  }

  function Interpret(lines: seq<string>, b: Buffers): seq<Event> {
    if lines == [] then []
    else if lines[0] == "" then Dispatch(b) + Interpret(lines[1..], EMPTY)
    else Interpret(lines[1..], Process(b, lines[0]))
  }

  function StandardRead(s: string): seq<Event> {
    Interpret(Lines(s), EMPTY)
  }

  // What the standard can deliver, whatever it is sent.
  predicate Deliverable(e: Event) {
    e.name != "" && '\r' !in e.name && '\r' !in e.data
  }

  lemma {:induction false} DeliveredAreDeliverable(lines: seq<string>, b: Buffers)
    requires '\r' !in b.name && '\r' !in b.data && forall line :: line in lines ==> '\r' !in line
    ensures forall e :: e in Interpret(lines, b) ==> Deliverable(e)
  {
    if lines != [] {
      assert lines[0] in lines;
      if lines[0] == "" {
        DeliveredAreDeliverable(lines[1..], EMPTY);
      } else {
        DeliveredAreDeliverable(lines[1..], Process(b, lines[0]));
      }
    }
  }

  lemma {:induction false} LineEndFirst(line: string, rest: string)
    requires '\r' !in line && '\n' !in line
    ensures LineEnd(line + ['\n'] + rest) == |line|
  {
    var s := line + ['\n'] + rest;
    if line == "" {
      assert s[0] == '\n';
    } else {
      assert s[0] == line[0] && s[1..] == line[1..] + ['\n'] + rest;
      LineEndFirst(line[1..], rest);
    }
  }

  lemma FirstLine(line: string, rest: string)
    requires '\r' !in line && '\n' !in line
    ensures Lines(line + ['\n'] + rest) == [line] + Lines(rest)
  {
    var s := line + ['\n'] + rest;
    LineEndFirst(line, rest);
    assert s[|line|] == '\n' && AfterEnd(s, |line|) == |line| + 1;
    assert s[..|line|] == line && s[|line| + 1..] == rest;
  }

  lemma Regroup<T>(a: seq<T>, b: seq<T>, x: T, rest: seq<T>)
    ensures a + [x] + b + [x, x] + rest == a + [x] + (b + [x] + ([] + [x] + rest))
  {
  }

  lemma RegroupThree<T>(a: T, b: T, c: T, rest: seq<T>)
    ensures [a, b, c] + rest == [a] + ([b] + ([c] + rest))
  {
  }

  lemma ThreeLines(f: string, g: string, rest: string)
    requires '\r' !in f && '\n' !in f && '\r' !in g && '\n' !in g
    ensures Lines(f + ['\n'] + g + ['\n', '\n'] + rest) == [f, g, ""] + Lines(rest)
  {
    Regroup(f, g, '\n', rest);
    RegroupThree(f, g, "", Lines(rest));
    FirstLine("", rest);
    FirstLine(g, "" + ['\n'] + rest);
    FirstLine(f, g + ['\n'] + ("" + ['\n'] + rest));
  }

  lemma FieldReads(field: string, value: string, line: string)
    requires line == field + ": " + value && ':' !in field
    ensures FieldName(line) == field && FieldValue(line) == value
  {
    assert line == field + [':'] + ([' '] + value);
    IndexOfFirst(field, ':', [' '] + value);
    assert line[|field| + 1..] == [' '] + value;
  }

  lemma PrintedIsRead(e: Event, rest: string)
    requires Deliverable(e) && '\n' !in e.name && '\n' !in e.data
    ensures StandardRead(Printed(e) + rest) == [e] + StandardRead(rest)
  {
    var f, g := EVENT_FIELD + e.name, DATA_FIELD + e.data;
    ThreeLines(f, g, rest);
    PrintedFields(e);
    InterpretsOne(e, f, g, Lines(rest));
  }

  lemma PrintedFields(e: Event)
    ensures FieldName(EVENT_FIELD + e.name) == "event" && FieldValue(EVENT_FIELD + e.name) == e.name
    ensures FieldName(DATA_FIELD + e.data) == "data" && FieldValue(DATA_FIELD + e.data) == e.data
  {
    assert EVENT_FIELD == "event" + ": " && DATA_FIELD == "data" + ": ";
    FieldReads("event", e.name, EVENT_FIELD + e.name);
    FieldReads("data", e.data, DATA_FIELD + e.data);
  }

  lemma InterpretLine(line: string, later: seq<string>, b: Buffers)
    ensures Interpret([line] + later, b) == if line == "" then Dispatch(b) + Interpret(later, EMPTY) else Interpret(later, Process(b, line))
  {
    assert ([line] + later)[1..] == later;
  }

  lemma DispatchWhole(e: Event)
    requires e.name != ""
    ensures Dispatch(Buffers(e.name, e.data + ['\n'])) == [e]
  {
    assert (e.data + ['\n'])[..|e.data|] == e.data;
  }

  lemma InterpretsOne(e: Event, f: string, g: string, later: seq<string>)
    requires f != "" && g != "" && e.name != ""
    requires FieldName(f) == "event" && FieldValue(f) == e.name && FieldName(g) == "data" && FieldValue(g) == e.data
    ensures Interpret([f, g, ""] + later, EMPTY) == [e] + Interpret(later, EMPTY)
  {
    var blank := [""] + later;
    RegroupThree(f, g, "", later);
    InterpretLine(f, [g] + blank, EMPTY);
    InterpretLine(g, blank, Buffers(e.name, ""));
    InterpretLine("", later, Buffers(e.name, e.data + ['\n']));
    DispatchWhole(e);
    BothFields(e, f, g);
  }

  lemma BothFields(e: Event, f: string, g: string)
    requires FieldName(f) == "event" && FieldValue(f) == e.name && FieldName(g) == "data" && FieldValue(g) == e.data
    ensures Process(EMPTY, f) == Buffers(e.name, "") && Process(Buffers(e.name, ""), g) == Buffers(e.name, e.data + ['\n'])
  {
    assert "" + e.data + ['\n'] == e.data + ['\n'];
  }

  lemma {:induction false} PrintedAreRead(es: seq<Event>)
    requires forall e :: e in es ==> Deliverable(e) && '\n' !in e.name && '\n' !in e.data
    ensures StandardRead(PrintedAll(es)) == es
  {
    if es == [] {
      assert Lines("") == [];
    } else {
      var first, rest := es[0], es[1..];
      assert first in es && es == [first] + rest;
      PrintedAreRead(rest);
      PrintedIsRead(first, PrintedAll(rest));
    }
  }

  // On events of one line each the standard gives back what was printed exactly when none has a
  // carriage return, which it takes for a line end, or an empty name, which it calls "message".
  lemma StandardReadsPrintedIff(es: seq<Event>)
    requires forall e :: e in es ==> '\n' !in e.name && '\n' !in e.data
    ensures StandardRead(PrintedAll(es)) == es <==> forall e :: e in es ==> Deliverable(e)
  {
    if forall e :: e in es ==> Deliverable(e) {
      PrintedAreRead(es);
    } else {
      DeliveredAreDeliverable(Lines(PrintedAll(es)), EMPTY);
    }
  }

  // So on whatever the reader gets through whole, an EventSource would deliver the same events under
  // exactly that condition.
  lemma ReadersAgreeIff(es: seq<Event>)
    requires forall e :: e in es ==> Carriable(e)
    ensures StandardRead(PrintedAll(es)) == ReadAll(PrintedAll(es)).events <==> forall e :: e in es ==> Deliverable(e)
  {
    ReadUndoesPrint(es);
    StandardReadsPrintedIff(es);
  }

  // The two differ on an event whose data is empty: the standard delivers it, the reader drops it.
  lemma EmptyDataIsDelivered(name: string)
    requires Deliverable(Event(name, "")) && '\n' !in name
    ensures StandardRead(Printed(Event(name, ""))) == [Event(name, "")]
    ensures ReadAll(Printed(Event(name, ""))).events != [Event(name, "")]
  {
    var es := [Event(name, "")];
    assert es[1..] == [] && PrintedAll(es) == Printed(es[0]) + "" == Printed(es[0]);
    StandardReadsPrintedIff(es);
    DeliveredAreCarriable(Printed(es[0]));
    assert !Carriable(es[0]);
  }
}
