/** The live-update stream: the frames the server writes, the line reader of the load
    harness, and the event-stream parser of the WHATWG HTML Standard, section 9.2.6.
    A char stands for one byte of the stream. */
module Sse {
  import opened Basics
  import Texts

  // ---- the writer ----

  datatype Frame = Event(name: string, payload: string) | Keepalive

  function Text(f: Frame): string {
    match f
    case Event(name, payload) => "event: " + name + "\n" + "data: " + payload + "\n\n"
    case Keepalive => ": keepalive\n\n"
  }

  function Stream(fs: seq<Frame>): string {
    if fs == [] then "" else Text(fs[0]) + Stream(fs[1..])
  }

  predicate OneLine(s: string) {
    '\n' !in s && '\r' !in s
  }

  predicate WellFormed(f: Frame) {
    f.Event? ==> OneLine(f.name) && OneLine(f.payload)
  }

  predicate AllWellFormed(fs: seq<Frame>) {
    forall f | f in fs :: WellFormed(f)
  }

  function FrameLines(f: Frame): seq<string> {
    match f
    case Event(name, payload) => ["event: " + name, "data: " + payload, ""]
    case Keepalive => [": keepalive", ""]
  }

  function StreamLines(fs: seq<Frame>): seq<string> {
    if fs == [] then [] else FrameLines(fs[0]) + StreamLines(fs[1..])
  }

  // ---- lines ----

  const MAX_LINE: nat := 0x10_0000

  /** Lines as bufio.ScanLines yields them: a last line without its newline counts only if
      it is not empty, and a carriage return before the newline is dropped. */
  function Lines(stream: string): seq<string> {
    var parts := Texts.Split(stream, '\n');
    var n := |parts| - 1;
    parts[..n] + if parts[n] == "" then [] else [parts[n]]
  }

  function DropCR(line: string): string {
    if line != "" && line[|line| - 1] == '\r' then line[..|line| - 1] else line
  }

  /** A line that does not fit the scanner's buffer with its newline ends the scan. */
  predicate Fits(line: string) {
    |line| < MAX_LINE
  }

  function Scanned(lines: seq<string>): seq<string> {
    if lines == [] || !Fits(lines[0]) then [] else [DropCR(lines[0])] + Scanned(lines[1..])
  }

  lemma LineBreak(line: string, rest: string)
    requires '\n' !in line
    ensures Texts.Split(line + "\n" + rest, '\n') == [line] + Texts.Split(rest, '\n')
  {
    Texts.SplitConcat(line, '\n', rest);
    Texts.SplitWhole(line, '\n');
  }

  lemma ThreeBreaks(a: string, b: string, rest: string)
    requires '\n' !in a && '\n' !in b
    ensures Texts.Split(a + "\n" + b + "\n\n" + rest, '\n') == [a, b, ""] + Texts.Split(rest, '\n')
  {
    var end := "" + "\n" + rest;
    assert a + "\n" + b + "\n\n" + rest == a + "\n" + (b + "\n" + end);
    LineBreak(a, b + "\n" + end);
    LineBreak(b, end);
    LineBreak("", rest);
  }

  lemma FrameSplits(f: Frame, rest: string)
    requires WellFormed(f)
    ensures Texts.Split(Text(f) + rest, '\n') == FrameLines(f) + Texts.Split(rest, '\n')
  {
    match f
    case Event(name, payload) =>
      var a, b := "event: " + name, "data: " + payload;
      assert Text(f) == a + "\n" + b + "\n\n";
      ThreeBreaks(a, b, rest);
    case Keepalive =>
      assert Text(f) + rest == ": keepalive" + "\n" + ("" + "\n" + rest);
      LineBreak(": keepalive", "" + "\n" + rest);
      LineBreak("", rest);
  }

  lemma {:induction false} StreamSplits(fs: seq<Frame>)
    requires AllWellFormed(fs)
    ensures Texts.Split(Stream(fs), '\n') == StreamLines(fs) + [""]
  {
    if fs == [] {
      assert Texts.Split("", '\n') == [""];
    } else {
      assert fs[0] in fs && forall f | f in fs[1..] :: f in fs;
      StreamSplits(fs[1..]);
      FrameSplits(fs[0], Stream(fs[1..]));
    }
  }

  lemma StreamIsItsLines(fs: seq<Frame>)
    requires AllWellFormed(fs)
    ensures Lines(Stream(fs)) == StreamLines(fs)
  {
    StreamSplits(fs);
    var parts := Texts.Split(Stream(fs), '\n');
    assert parts[..|parts| - 1] == StreamLines(fs);
  }

  // ---- the reader ----

  /** Each line with its newline. */
  function Terminated(lines: seq<string>): string {
    if lines == [] then "" else lines[0] + "\n" + Terminated(lines[1..])
  }

  lemma {:induction false} TerminatedIsJoined(parts: seq<string>)
    requires parts != []
    ensures Texts.Join(parts, '\n') == Terminated(parts[..|parts| - 1]) + parts[|parts| - 1]
  {
    if |parts| > 1 {
      TerminatedIsJoined(parts[1..]);
      var front := parts[..|parts| - 1];
      assert front[1..] == parts[1..][..|parts[1..]| - 1] && front[0] == parts[0];
      assert parts[0] + ['\n'] == parts[0] + "\n";
      Regroup(parts[0] + "\n", Terminated(front[1..]), parts[|parts| - 1]);
    }
  }

  lemma Regroup(a: string, b: string, c: string)
    ensures a + (b + c) == a + b + c
  {
  }

  /** Any stream is its lines, each with its newline, but for a last one that has none and is
      not empty; a carriage return before a newline is no part of what is scanned. */
  lemma LinesExactly(stream: string)
    ensures forall l | l in Lines(stream) :: '\n' !in l
    ensures stream == Terminated(Lines(stream))
      || (Lines(stream) != [] && Lines(stream)[|Lines(stream)| - 1] != ""
          && stream == Terminated(Lines(stream)[..|Lines(stream)| - 1]) + Lines(stream)[|Lines(stream)| - 1])
  {
    var parts := Texts.Split(stream, '\n');
    var n := |parts| - 1;
    TerminatedIsJoined(parts);
    assert forall l | l in Lines(stream) :: l in parts;
    if parts[n] == "" {
      assert Lines(stream) == parts[..n];
      assert Terminated(parts[..n]) + "" == Terminated(parts[..n]);
    } else {
      assert Lines(stream) == parts[..n] + [parts[n]] && Lines(stream)[..n] == parts[..n];
    }
  }

  lemma DropCRExactly(line: string)
    ensures DropCR(line + "\r") == line
    ensures line == "" || line[|line| - 1] != '\r' ==> DropCR(line) == line
  {
    assert (line + "\r")[..|line|] == line;
  }

  predicate HasPrefix(s: string, p: string) {
    p <= s
  }

  datatype Reading = Reading(event: string, payloads: seq<string>, bytes: nat)

  /** What the reader has after one more line. */
  function Take(r: Reading, line: string): Reading {
    var r' := r.(bytes := r.bytes + |line| + 1);
    if HasPrefix(line, "event: ") then r'.(event := line[7..])
    else if HasPrefix(line, "data: ") && r.event == "monitor" then r'.(payloads := r.payloads + [line[6..]])
    else r'
  }

  function ReadAll(r: Reading, lines: seq<string>): Reading
    decreases |lines|
  {
    if lines == [] then r else ReadAll(Take(r, lines[0]), lines[1..])
  }

  const START := Reading("", [], 0)

  /** The payloads that parse, and those of them for a monitor nobody subscribed to. */
  function Parsed(payloads: seq<string>, monitorOf: string -> Option<string>): seq<string> {
    if payloads == [] then []
    else
      var id := monitorOf(payloads[|payloads| - 1]);
      Parsed(payloads[..|payloads| - 1], monitorOf) + if id.Some? then [id.value] else []
  }

  function Foreign(ids: seq<string>, want: set<string>): seq<string> {
    if ids == [] then []
    else Foreign(ids[..|ids| - 1], want) + if ids[|ids| - 1] in want then [] else [ids[|ids| - 1]]
  }

  lemma {:induction false} ReadSnoc(r: Reading, lines: seq<string>, line: string)
    ensures ReadAll(r, lines + [line]) == Take(ReadAll(r, lines), line)
    decreases |lines|
  {
    if lines == [] {
      assert lines + [line] == [line] && [line][1..] == [];
    } else {
      assert (lines + [line])[1..] == lines[1..] + [line];
      ReadSnoc(Take(r, lines[0]), lines[1..], line);
    }
  }

  /** harness/http.go readStream, over the lines the scanner yields. */
  method ReadStream(lines: seq<string>, monitorOf: string -> Option<string>, want: set<string>)
    returns (updates: nat, foreign: nat, bytes: nat)
    ensures var r := ReadAll(START, lines);
      && updates == |Parsed(r.payloads, monitorOf)|
      && foreign == |Foreign(Parsed(r.payloads, monitorOf), want)|
      && bytes == r.bytes
  {
    updates, foreign, bytes := 0, 0, 0;
    var event := "";
    ghost var r := START;
    for n := 0 to |lines|
      invariant r == ReadAll(START, lines[..n]) && event == r.event && bytes == r.bytes
      invariant updates == |Parsed(r.payloads, monitorOf)| && foreign == |Foreign(Parsed(r.payloads, monitorOf), want)|
    {
      var line := lines[n];
      assert lines[..n + 1] == lines[..n] + [line];
      ReadSnoc(START, lines[..n], line);
      ghost var before := r;
      r := Take(r, line);
      bytes := bytes + |line| + 1;
      if HasPrefix(line, "event: ") {
        event := line[7..];
      } else if HasPrefix(line, "data: ") && event == "monitor" {
        var id := monitorOf(line[6..]);
        OneMorePayload(before.payloads, line[6..], monitorOf, want);
        if id == None {
          continue;
        }
        updates := updates + 1;
        if id.value !in want {
          foreign := foreign + 1;
        }
      }
    }
    assert lines[..|lines|] == lines;
  }

  lemma OneMorePayload(payloads: seq<string>, p: string, monitorOf: string -> Option<string>, want: set<string>)
    ensures var ids := Parsed(payloads, monitorOf);
      && Parsed(payloads + [p], monitorOf) == (if monitorOf(p).Some? then ids + [monitorOf(p).value] else ids)
      && (monitorOf(p).Some? ==> |Foreign(ids + [monitorOf(p).value], want)| == |Foreign(ids, want)| + if monitorOf(p).value in want then 0 else 1)
  {
    assert (payloads + [p])[..|payloads + [p]| - 1] == payloads;
    var ids := Parsed(payloads, monitorOf);
    if monitorOf(p).Some? {
      var more := ids + [monitorOf(p).value];
      assert more[..|more| - 1] == ids;
    }
  }

  predicate Parses(p: string, monitorOf: string -> Option<string>) {
    monitorOf(p).Some?
  }

  predicate Unwanted(p: string, monitorOf: string -> Option<string>, want: set<string>) {
    monitorOf(p).Some? && monitorOf(p).value !in want
  }

  /** What the first count is: the payloads that parse. */
  lemma {:induction false} UpdatesExactly(payloads: seq<string>, monitorOf: string -> Option<string>)
    ensures |Parsed(payloads, monitorOf)| == |set k | 0 <= k < |payloads| && Parses(payloads[k], monitorOf)|
  {
    var parse := set k | 0 <= k < |payloads| && Parses(payloads[k], monitorOf);
    if payloads == [] {
      assert parse == {};
    } else {
      var n := |payloads| - 1;
      var front := payloads[..n];
      UpdatesExactly(front, monitorOf);
      var parse0 := set k | 0 <= k < |front| && Parses(front[k], monitorOf);
      assert parse == if Parses(payloads[n], monitorOf) then parse0 + {n} else parse0;
    }
  }

  /** And the second: those of them that name a monitor nobody subscribed to. */
  lemma {:induction false} ForeignExactly(payloads: seq<string>, monitorOf: string -> Option<string>, want: set<string>)
    ensures |Foreign(Parsed(payloads, monitorOf), want)| == |set k | 0 <= k < |payloads| && Unwanted(payloads[k], monitorOf, want)|
  {
    var foreign := set k | 0 <= k < |payloads| && Unwanted(payloads[k], monitorOf, want);
    if payloads == [] {
      assert foreign == {};
    } else {
      var n := |payloads| - 1;
      ForeignExactly(payloads[..n], monitorOf, want);
      OneMorePayload(payloads[..n], payloads[n], monitorOf, want);
      assert payloads == payloads[..n] + [payloads[n]];
      UnwantedGrow(payloads, monitorOf, want);
    }
  }

  lemma UnwantedGrow(payloads: seq<string>, monitorOf: string -> Option<string>, want: set<string>)
    requires payloads != []
    ensures var front := payloads[..|payloads| - 1];
      |set k | 0 <= k < |payloads| && Unwanted(payloads[k], monitorOf, want)|
      == |set k | 0 <= k < |front| && Unwanted(front[k], monitorOf, want)|
         + if Unwanted(payloads[|payloads| - 1], monitorOf, want) then 1 else 0
  {
    var n := |payloads| - 1;
    var front := payloads[..n];
    var foreign := set k | 0 <= k < |payloads| && Unwanted(payloads[k], monitorOf, want);
    var foreign0 := set k | 0 <= k < |front| && Unwanted(front[k], monitorOf, want);
    assert foreign == if Unwanted(payloads[n], monitorOf, want) then foreign0 + {n} else foreign0;
  }

  /** The payloads of the monitor frames, in order. */
  function MonitorPayloads(fs: seq<Frame>): seq<string> {
    if fs == [] then []
    else (if fs[0].Event? && fs[0].name == "monitor" then [fs[0].payload] else []) + MonitorPayloads(fs[1..])
  }

  predicate AllFit(lines: seq<string>) {
    forall l | l in lines :: Fits(l)
  }

  lemma {:induction false} ReadConcat(r: Reading, a: seq<string>, b: seq<string>)
    ensures ReadAll(r, a + b) == ReadAll(ReadAll(r, a), b)
    decreases |a|
  {
    if a == [] {
      assert a + b == b;
    } else {
      assert (a + b)[1..] == a[1..] + b;
      ReadConcat(Take(r, a[0]), a[1..], b);
    }
  }

  lemma ReadThree(r: Reading, a: string, b: string, c: string)
    ensures ReadAll(r, [a, b, c]) == Take(Take(Take(r, a), b), c)
    ensures ReadAll(r, [a, b]) == Take(Take(r, a), b)
  {
    assert [a, b, c][1..] == [b, c] && [b, c][1..] == [c] && [c][1..] == [] && [a, b][1..] == [b] && [b][1..] == [];
    assert forall x: Reading :: ReadAll(x, []) == x;
    assert ReadAll(Take(Take(r, a), b), [c]) == Take(Take(Take(r, a), b), c);
    assert ReadAll(Take(r, a), [b]) == Take(Take(r, a), b);
    assert ReadAll(Take(r, a), [b, c]) == ReadAll(Take(Take(r, a), b), [c]);
  }

  lemma ReadFrame(r: Reading, f: Frame)
    ensures var r' := ReadAll(r, FrameLines(f));
      && r'.payloads == r.payloads + MonitorPayloads([f])
      && r'.bytes == r.bytes + |Text(f)|
  {
    match f
    case Event(name, payload) =>
      var a, b := "event: " + name, "data: " + payload;
      ReadThree(r, a, b, "");
      assert HasPrefix(a, "event: ") && a[7..] == name;
      assert b[0] == 'd' && !HasPrefix(b, "event: ") && HasPrefix(b, "data: ") && b[6..] == payload;
      assert [f][1..] == [];
    case Keepalive =>
      var a := ": keepalive";
      ReadThree(r, a, "", "");
      assert a[0] == ':' && !HasPrefix(a, "event: ") && !HasPrefix(a, "data: ");
      assert [f][1..] == [];
  }

  lemma MonitorSplit(f: Frame, fs: seq<Frame>)
    ensures MonitorPayloads([f] + fs) == MonitorPayloads([f]) + MonitorPayloads(fs)
  {
    assert [f][1..] == [] && ([f] + fs)[1..] == fs;
  }

  lemma PayloadsAddUp(r: Reading, a: seq<string>, b: seq<string>, x: seq<string>, y: seq<string>)
    requires ReadAll(r, a).payloads == r.payloads + x
    requires ReadAll(ReadAll(r, a), b).payloads == ReadAll(r, a).payloads + y
    ensures ReadAll(r, a + b).payloads == r.payloads + (x + y)
  {
    ReadConcat(r, a, b);
    assert r.payloads + x + y == r.payloads + (x + y);
  }

  lemma {:induction false} ReadPayloads(r: Reading, fs: seq<Frame>)
    ensures ReadAll(r, StreamLines(fs)).payloads == r.payloads + MonitorPayloads(fs)
    decreases |fs|
  {
    if fs == [] {
      assert r.payloads + [] == r.payloads;
    } else {
      var f, rest := fs[0], fs[1..];
      ReadPayloads(ReadAll(r, FrameLines(f)), rest);
      assert ReadAll(r, FrameLines(f)).payloads == r.payloads + MonitorPayloads([f]) by {
        ReadFrame(r, f);
      }
      PayloadsAddUp(r, FrameLines(f), StreamLines(rest), MonitorPayloads([f]), MonitorPayloads(rest));
      assert MonitorPayloads(fs) == MonitorPayloads([f]) + MonitorPayloads(rest) by {
        assert [f] + rest == fs;
        MonitorSplit(f, rest);
      }
    }
  }

  lemma {:induction false} ReadBytes(r: Reading, fs: seq<Frame>)
    ensures ReadAll(r, StreamLines(fs)).bytes == r.bytes + |Stream(fs)|
    decreases |fs|
  {
    if fs != [] {
      ReadConcat(r, FrameLines(fs[0]), StreamLines(fs[1..]));
      ReadFrame(r, fs[0]);
      ReadBytes(ReadAll(r, FrameLines(fs[0])), fs[1..]);
    }
  }

  lemma {:induction false} NoCarriageReturns(fs: seq<Frame>)
    requires AllWellFormed(fs)
    ensures forall l | l in StreamLines(fs) :: DropCR(l) == l
  {
    if fs != [] {
      assert fs[0] in fs && forall f | f in fs[1..] :: f in fs;
      NoCarriageReturns(fs[1..]);
      forall l | l in FrameLines(fs[0]) ensures '\r' !in l {
      }
    }
  }

  lemma {:induction false} ScannedAll(lines: seq<string>)
    requires AllFit(lines) && forall l | l in lines :: DropCR(l) == l
    ensures Scanned(lines) == lines
  {
    if lines != [] {
      assert lines[0] in lines && forall l | l in lines[1..] :: l in lines;
      ScannedAll(lines[1..]);
    }
  }

  lemma {:induction false} BytesGrow(r: Reading, lines: seq<string>)
    ensures ReadAll(r, lines).bytes >= r.bytes + |lines|
    decreases |lines|
  {
    if lines != [] {
      BytesGrow(Take(r, lines[0]), lines[1..]);
    }
  }

  /** A scan that stops short has read fewer bytes. */
  lemma {:induction false} ScannedShort(r: Reading, lines: seq<string>)
    requires !AllFit(lines) && forall l | l in lines :: DropCR(l) == l
    ensures ReadAll(r, Scanned(lines)).bytes < ReadAll(r, lines).bytes
    decreases |lines|
  {
    if !Fits(lines[0]) {
      BytesGrow(r, lines);
    } else {
      assert lines[0] in lines && forall l | l in lines[1..] :: l in lines;
      assert !AllFit(lines[1..]) by {
        var l :| l in lines && !Fits(l);
        assert l in [lines[0]] + lines[1..];
      }
      assert Scanned(lines)[1..] == Scanned(lines[1..]);
      ScannedShort(Take(r, lines[0]), lines[1..]);
    }
  }

  /** For frames without line breaks: if no line reaches a mebibyte, the reader recovers
      exactly the monitor payloads, in order; and its byte count is the length of the
      stream exactly when no line does. */
  lemma ReaderRecoversTheMonitorFrames(fs: seq<Frame>)
    requires AllWellFormed(fs)
    ensures var r := ReadAll(START, Scanned(Lines(Stream(fs))));
      && ((forall l | l in StreamLines(fs) :: |l| < 1_048_576) ==> r.payloads == MonitorPayloads(fs))
      && (r.bytes == |Stream(fs)| <==> forall l | l in StreamLines(fs) :: |l| < 1_048_576)
  {
    assert (forall l | l in StreamLines(fs) :: |l| < 1_048_576) <==> AllFit(StreamLines(fs));
    StreamIsItsLines(fs);
    NoCarriageReturns(fs);
    ReadPayloads(START, fs);
    ReadBytes(START, fs);
    assert [] + MonitorPayloads(fs) == MonitorPayloads(fs);
    if AllFit(StreamLines(fs)) {
      ScannedAll(StreamLines(fs));
    } else {
      ScannedShort(START, StreamLines(fs));
    }
  }

  // ---- the standard's parser ----

  datatype Message = Message(kind: string, data: string)

  /** The event type buffer, the data buffer, and the events dispatched. */
  datatype Parser = Parser(kind: string, data: string, out: seq<Message>)

  /** The field name and value of a line; one space after the colon is dropped. */
  function Field(line: string): (string, string) {
    if line == "" then ("", "")
    else if line[0] == ':' then
      ("", if |line| > 1 && line[1] == ' ' then line[2..] else line[1..])
    else var f := Field(line[1..]); ([line[0]] + f.0, f.1)
  }

  function Interpret(p: Parser, line: string): Parser {
    if line == "" then
      if p.data == "" then Parser("", "", p.out)
      else Parser("", "", p.out + [Message(if p.kind == "" then "message" else p.kind, p.data[..|p.data| - 1])])
    else if line[0] == ':' then p
    else
      var f := Field(line);
      if f.0 == "event" then p.(kind := f.1) else if f.0 == "data" then p.(data := p.data + f.1 + "\n") else p
  }

  lemma {:induction false} FieldAtColon(name: string, value: string)
    requires ':' !in name
    ensures Field(name + ":" + value) == (name, if value != "" && value[0] == ' ' then value[1..] else value)
  {
    var line := name + ":" + value;
    if name == "" {
      assert line[1..] == value;
      if value != "" {
        assert line[1] == value[0] && line[2..] == value[1..];
      }
    } else {
      assert line[1..] == name[1..] + ":" + value;
      FieldAtColon(name[1..], value);
      assert [name[0]] + name[1..] == name;
    }
  }

  /** How the standard reads a line: a comment says nothing; a named field sets the event's
      type or adds a line to its data, and any other field says nothing. One space after the
      colon is no part of the value. */
  lemma InterpretExactly(p: Parser, name: string, value: string)
    requires ':' !in name && (value == "" || value[0] != ' ')
    ensures name == "" ==> Interpret(p, name + ":" + value) == Interpret(p, name + ":" + (" " + value)) == p
    ensures name == "event" ==>
      Interpret(p, name + ":" + value) == Interpret(p, name + ":" + (" " + value)) == Parser(value, p.data, p.out)
    ensures name == "data" ==>
      Interpret(p, name + ":" + value) == Interpret(p, name + ":" + (" " + value)) == Parser(p.kind, p.data + value + "\n", p.out)
    ensures name != "event" && name != "data" ==> Interpret(p, name + ":" + value) == Interpret(p, name + ":" + (" " + value)) == p
  {
    FieldAtColon(name, value);
    FieldAtColon(name, " " + value);
    assert (" " + value)[1..] == value;
    assert name != "" ==> (name + ":" + value)[0] == name[0] && (name + ":" + (" " + value))[0] == name[0];
    assert name == "" ==> (name + ":" + value)[0] == ':' && (name + ":" + (" " + value))[0] == ':';
  }

  function ParseAll(p: Parser, lines: seq<string>): Parser
    decreases |lines|
  {
    if lines == [] then p else ParseAll(Interpret(p, lines[0]), lines[1..])
  }

  function MessageOf(f: Frame): seq<Message> {
    if f.Event? then [Message(if f.name == "" then "message" else f.name, f.payload)] else []
  }

  function Messages(fs: seq<Frame>): seq<Message> {
    if fs == [] then [] else MessageOf(fs[0]) + Messages(fs[1..])
  }

  lemma FieldOf(name: string, value: string)
    requires ':' !in name
    ensures Field(name + ": " + value) == (name, value)
  {
    assert name + ": " + value == name + ":" + (" " + value);
    FieldAtColon(name, " " + value);
    assert (" " + value)[1..] == value;
  }

  lemma {:induction false} ParseConcat(p: Parser, a: seq<string>, b: seq<string>)
    ensures ParseAll(p, a + b) == ParseAll(ParseAll(p, a), b)
    decreases |a|
  {
    if a == [] {
      assert a + b == b;
    } else {
      assert (a + b)[1..] == a[1..] + b;
      ParseConcat(Interpret(p, a[0]), a[1..], b);
    }
  }

  lemma ParseThree(p: Parser, a: string, b: string, c: string)
    ensures ParseAll(p, [a, b, c]) == Interpret(Interpret(Interpret(p, a), b), c)
    ensures ParseAll(p, [a, b]) == Interpret(Interpret(p, a), b)
  {
    assert [a, b, c][1..] == [b, c] && [b, c][1..] == [c] && [c][1..] == [] && [a, b][1..] == [b] && [b][1..] == [];
    assert ParseAll(Interpret(Interpret(p, a), b), [c]) == Interpret(Interpret(Interpret(p, a), b), c);
    assert ParseAll(Interpret(p, a), [b]) == Interpret(Interpret(p, a), b);
    assert ParseAll(Interpret(p, a), [b, c]) == ParseAll(Interpret(Interpret(p, a), b), [c]);
  }

  lemma ParseFrame(out: seq<Message>, f: Frame)
    ensures ParseAll(Parser("", "", out), FrameLines(f)) == Parser("", "", out + MessageOf(f))
  {
    var p := Parser("", "", out);
    match f
    case Event(name, payload) =>
      var a, b := "event: " + name, "data: " + payload;
      ParseThree(p, a, b, "");
      FieldOf("event", name);
      FieldOf("data", payload);
      assert "event" + ": " + name == a && "data" + ": " + payload == b;
      assert a[0] == 'e' && b[0] == 'd';
      var p2 := Interpret(Interpret(p, a), b);
      assert p2 == Parser(name, payload + "\n", out) by {
        assert "" + payload + "\n" == payload + "\n";
      }
      assert p2.data[..|p2.data| - 1] == payload;
    case Keepalive =>
      ParseThree(p, ": keepalive", "", "");
      assert out + [] == out;
  }

  /** A browser reading the stream gets exactly the frames, in order, keepalives apart. */
  lemma {:induction false} BrowserGetsTheFrames(out: seq<Message>, fs: seq<Frame>)
    ensures ParseAll(Parser("", "", out), StreamLines(fs)) == Parser("", "", out + Messages(fs))
    decreases |fs|
  {
    if fs != [] {
      ParseConcat(Parser("", "", out), FrameLines(fs[0]), StreamLines(fs[1..]));
      ParseFrame(out, fs[0]);
      BrowserGetsTheFrames(out + MessageOf(fs[0]), fs[1..]);
      assert out + MessageOf(fs[0]) + Messages(fs[1..]) == out + (MessageOf(fs[0]) + Messages(fs[1..]));
    } else {
      assert out + [] == out;
    }
  }

  function DataOfKind(ms: seq<Message>, kind: string): seq<string> {
    if ms == [] then [] else (if ms[0].kind == kind then [ms[0].data] else []) + DataOfKind(ms[1..], kind)
  }

  lemma {:induction false} MonitorMessages(fs: seq<Frame>)
    ensures DataOfKind(Messages(fs), "monitor") == MonitorPayloads(fs)
  {
    if fs != [] {
      MonitorMessages(fs[1..]);
      if fs[0].Event? {
        var m := Message(if fs[0].name == "" then "message" else fs[0].name, fs[0].payload);
        assert Messages(fs) == [m] + Messages(fs[1..]);
        assert Messages(fs)[1..] == Messages(fs[1..]) && Messages(fs)[0] == m;
        assert "message"[1] == 'e' && "monitor"[1] == 'o';
      } else {
        assert Messages(fs) == Messages(fs[1..]);
      }
    }
  }

  /** On the server's streams the harness's reader sees what the standard's parser would. */
  lemma ReaderAgreesWithTheStandard(fs: seq<Frame>)
    requires AllWellFormed(fs) && AllFit(StreamLines(fs))
    ensures ReadAll(START, Scanned(Lines(Stream(fs)))).payloads
            == DataOfKind(ParseAll(Parser("", "", []), Lines(Stream(fs))).out, "monitor")
  {
    ReaderRecoversTheMonitorFrames(fs);
    StreamIsItsLines(fs);
    BrowserGetsTheFrames([], fs);
    assert [] + Messages(fs) == Messages(fs);
    MonitorMessages(fs);
  }
}
