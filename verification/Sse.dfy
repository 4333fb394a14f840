/**
  The Server-Sent Events parser: the chunk-driven loops of the source, a
  byte-at-a-time automaton they refine, and the line and field rules of sections
  9.2.5 and 9.2.6 of the WHATWG HTML standard that the automaton follows.
 */
module Sse {
  import opened Bytes
  import opened Decimals

  datatype Event = Event(name: bytes, data: bytes, id: Option<bytes>, retry: int)

  /** What the lines of the current event have set, and what persists across events. */
  datatype Block = Block(data: bytes, hasData: bool, event: bytes, id: bytes, hasId: bool, retry: int, lastId: bytes)

  /** The fields of the parser that outlive a call. */
  datatype State = State(line: bytes, pendingLf: bool, block: Block)

  /** A result together with the events handed to the callback on the way. */
  datatype Out<T> = Out(v: T, events: seq<Event>)

  const MESSAGE: bytes := [0x6D, 0x65, 0x73, 0x73, 0x61, 0x67, 0x65]
  const EVENT: bytes := [0x65, 0x76, 0x65, 0x6E, 0x74]
  const DATA: bytes := [0x64, 0x61, 0x74, 0x61]
  const ID: bytes := [0x69, 0x64]
  const RETRY: bytes := [0x72, 0x65, 0x74, 0x72, 0x79]

  const INT64_MAX: int := 0x7FFF_FFFF_FFFF_FFFF

  const INITIAL: State := State([], false, Block([], false, [], [], false, -1, []))

  // One line.

  datatype Field = Field(name: bytes, value: bytes)

  /** The field name up to the colon, and the value after it and one optional space. */
  function FieldOf(line: bytes): Field {
    var c := CStr(line);
    var k := Find(c, COLON);
    if k == |c| then Field(c, [])
    else
      var v := c[k + 1..];
      Field(c[..k], if v != [] && v[0] == SPACE then v[1..] else v)
  }

  /** `strtoll` on a digit string: it saturates. */
  function Saturated(s: bytes): int {
    if Decimal(s) > INT64_MAX then INT64_MAX else Decimal(s)
  }

  function ApplyField(b: Block, f: Field): Block {
    if f.name == EVENT then b.(event := f.value)
    else if f.name == DATA then
      b.(data := (if b.hasData then b.data + [LF] else b.data) + f.value, hasData := true)
    else if f.name == ID then b.(id := f.value, hasId := true, lastId := f.value)
    else if f.name == RETRY && AllDigits(f.value) then b.(retry := Saturated(f.value))
    else b
  }

  function Pending(b: Block): Event {
    Event(if b.event != [] then b.event else MESSAGE, b.data, if b.hasId then Some(b.id) else None, b.retry)
  }

  function Cleared(b: Block): Block {
    b.(data := [], hasData := false, event := [], id := [], hasId := false)
  }

  /** `process_line`: a blank line dispatches, a comment is skipped, a field is applied. */
  function EndLine(b: Block, line: bytes): Out<Block> {
    if line == [] then Out(Cleared(b), if b.hasData then [Pending(b)] else [])
    else if line[0] == COLON then Out(b, [])
    else Out(ApplyField(b, FieldOf(line)), [])
  }

  // The byte-at-a-time automaton.

  function Step(st: State, c: byte): Out<State> {
    if st.pendingLf && c == LF then Out(st.(pendingLf := false), [])
    else if c == CR || c == LF then
      var r := EndLine(st.block, st.line);
      Out(State([], c == CR, r.v), r.events)
    else Out(State(st.line + [c], false, st.block), [])
  }

  function Run(st: State, s: bytes): Out<State>
    decreases s
  {
    if s == [] then Out(st, [])
    else
      var first := Step(st, s[0]);
      var more := Run(first.v, s[1..]);
      Out(more.v, first.events + more.events)
  }

  lemma {:induction false} RunConcat(st: State, s: bytes, t: bytes)
    ensures var a := Run(st, s);
            var b := Run(a.v, t);
            Run(st, s + t) == Out(b.v, a.events + b.events)
    decreases s
  {
    hide Step;
    if s == [] {
      assert s + t == t;
    } else {
      assert (s + t)[1..] == s[1..] + t;
      var first := Step(st, s[0]);
      RunConcat(first.v, s[1..], t);
      var a := Run(first.v, s[1..]);
      var b := Run(a.v, t);
      assert first.events + (a.events + b.events) == (first.events + a.events) + b.events;
    }
  }

  /** Feeding the chunks one after the other. */
  function FeedAll(st: State, chunks: seq<bytes>): Out<State>
    decreases chunks
  {
    if chunks == [] then Out(st, [])
    else
      var first := Run(st, chunks[0]);
      var more := FeedAll(first.v, chunks[1..]);
      Out(more.v, first.events + more.events)
  }

  /** Any chunking of a stream gives the events and the state of a single feed. */
  lemma {:induction false} ChunkingIrrelevant(st: State, chunks: seq<bytes>)
    ensures FeedAll(st, chunks) == Run(st, Concat(chunks))
    decreases chunks
  {
    if chunks != [] {
      RunConcat(st, chunks[0], Concat(chunks[1..]));
      ChunkingIrrelevant(Run(st, chunks[0]).v, chunks[1..]);
    }
  }

  // The source's parser.

  class Parser {
    var line: bytes
    var pendingLf: bool
    var data: bytes
    var hasData: bool
    var event: bytes
    var id: bytes
    var hasId: bool
    var retry: int
    var lastId: bytes
    /** What the callback has been handed so far. */
    var events: seq<Event>

    function CurrentBlock(): Block
      reads this
    {
      Block(data, hasData, event, id, hasId, retry, lastId)
    }

    function Abs(): State
      reads this
    {
      State(line, pendingLf, CurrentBlock())
    }

    constructor ()
      ensures Abs() == INITIAL && events == []
    {
      line, pendingLf, data, hasData, event := [], false, [], false, [];
      id, hasId, retry, lastId, events := [], false, -1, [], [];
    }

    /** `process_line`. */
    method ProcessLine()
      modifies this
      ensures line == old(line) && pendingLf == old(pendingLf)
      ensures CurrentBlock() == EndLine(old(CurrentBlock()), old(line)).v
      ensures events == old(events) + EndLine(old(CurrentBlock()), old(line)).events
    {
      if line == [] {
        if hasData {
          var name := if event != [] then event else MESSAGE;
          events := events + [Event(name, data, if hasId then Some(id) else None, retry)];
        }
        hasData, data, event, id, hasId := false, [], [], [], false;
        return;
      }
      if line[0] == COLON { return; }
      var c := CStr(line);
      var colon := Find(c, COLON);
      var name, value := c, [];
      if colon < |c| {
        name, value := c[..colon], c[colon + 1..];
        if value != [] && value[0] == SPACE { value := value[1..]; }
      }
      assert FieldOf(line) == Field(name, value);
      SetField(name, value);
    }

    /** The field dispatch at the end of `process_line`. */
    method SetField(name: bytes, value: bytes)
      modifies this
      ensures line == old(line) && pendingLf == old(pendingLf) && events == old(events)
      ensures CurrentBlock() == ApplyField(old(CurrentBlock()), Field(name, value))
    {
      if name == EVENT {
        event := value;
      } else if name == DATA {
        if hasData { data := data + [LF]; }
        hasData := true;
        data := data + value;
      } else if name == ID {
        hasId, id, lastId := true, value, value;
      } else if name == RETRY {
        var digits := CheckDigits(value);
        if digits { retry := Saturated(value); }
      }
    }

    /** `mcp_sse_parser_feed`. */
    method Feed(chunk: bytes)
      modifies this
      ensures Abs() == Run(old(Abs()), chunk).v
      ensures events == old(events) + Run(old(Abs()), chunk).events
    {
      hide Step, EndLine, Run;
      ghost var from, sent := Abs(), events;
      var i := 0;
      assert chunk[0..] == chunk;
      while i < |chunk|
        invariant 0 <= i <= |chunk|
        invariant Resumes(from, sent, chunk, i)
      {
        if pendingLf {
          StepClear(Abs(), chunk[i]);
          RunOnce(Abs(), chunk, i);
          pendingLf := false;
          if chunk[i] == LF {
            NoEvents(Run(Abs(), chunk[i + 1..]).events);
            i := i + 1;
            continue;
          }
          RunOnce(Abs(), chunk, i);
        }
        i := TakePlain(chunk, i);
        if i < |chunk| {
          RunOnce(Abs(), chunk, i);
          ghost var first := Step(Abs(), chunk[i]);
          Assoc(events, first.events, Run(first.v, chunk[i + 1..]).events);
          Terminate(chunk[i]);
          i := i + 1;
        }
      }
      assert chunk[i..] == [];
      RunEmpty(Abs());
    }

    /** The run of bytes up to the next line terminator, appended in one piece. */
    method TakePlain(chunk: bytes, start: nat) returns (i: nat)
      requires start <= |chunk| && !pendingLf
      modifies this`line
      ensures start <= i <= |chunk| && (i < |chunk| ==> chunk[i] == CR || chunk[i] == LF)
      ensures Run(Abs(), chunk[i..]) == Run(old(Abs()), chunk[start..])
    {
      hide Run;
      i := start;
      while i < |chunk| && chunk[i] != CR && chunk[i] != LF
        invariant start <= i <= |chunk|
        invariant Plain(chunk[start..i])
      {
        assert chunk[start..i + 1] == chunk[start..i] + [chunk[i]];
        i := i + 1;
      }
      RunPlainPart(Abs(), chunk, start, i);
      if i > start {
        line := line + chunk[start..i];
      } else {
        assert line + chunk[start..i] == line;
      }
    }

    /** A line terminator. */
    method Terminate(c: byte)
      requires !pendingLf && (c == CR || c == LF)
      modifies this
      ensures Abs() == Step(old(Abs()), c).v && events == old(events) + Step(old(Abs()), c).events
    {
      hide Step, EndLine;
      StepEnd(Abs(), c);
      if c == CR { pendingLf := true; }
      ProcessLine();
      line := [];
    }

    /** What is left of the chunk leads from here to where the whole chunk led from the start. */
    ghost predicate Resumes(from: State, sent: seq<Event>, chunk: bytes, i: nat)
      requires i <= |chunk|
      reads this
    {
      && Run(from, chunk).v == Run(Abs(), chunk[i..]).v
      && sent + Run(from, chunk).events == events + Run(Abs(), chunk[i..]).events
    }
  }

  method CheckDigits(value: bytes) returns (digits: bool)
    ensures digits == AllDigits(value)
  {
    digits := value != [];
    for i := 0 to |value|
      invariant digits ==> value != [] && forall j :: 0 <= j < i ==> IsDigit(value[j])
      invariant !digits ==> !AllDigits(value)
    {
      if !IsDigit(value[i]) { return false; }
    }
  }

  predicate Plain(s: bytes) {
    forall j :: 0 <= j < |s| ==> s[j] != CR && s[j] != LF
  }

  lemma RunEmpty(st: State)
    ensures Run(st, []) == Out(st, [])
  {
  }

  lemma Assoc(a: seq<Event>, b: seq<Event>, c: seq<Event>)
    ensures a + (b + c) == (a + b) + c
  {
  }

  lemma NoEvents(a: seq<Event>)
    ensures [] + a == a
  {
  }

  /** One step of a run that has reached position `i` of a chunk. */
  lemma RunOnce(st: State, chunk: bytes, i: nat)
    requires i < |chunk|
    ensures var first := Step(st, chunk[i]);
            var more := Run(first.v, chunk[i + 1..]);
            Run(st, chunk[i..]) == Out(more.v, first.events + more.events)
  {
    assert chunk[i..][1..] == chunk[i + 1..];
  }

  /** Only a line feed notices a carriage return before it. */
  lemma StepClear(st: State, c: byte)
    requires st.pendingLf
    ensures Step(st, c) == if c == LF then Out(st.(pendingLf := false), []) else Step(st.(pendingLf := false), c)
  {
  }

  lemma StepEnd(st: State, c: byte)
    requires !st.pendingLf && (c == CR || c == LF)
    ensures var r := EndLine(st.block, st.line); Step(st, c) == Out(State([], c == CR, r.v), r.events)
  {
  }

  lemma {:induction false} RunPlain(st: State, s: bytes)
    requires !st.pendingLf && Plain(s)
    ensures Run(st, s) == Out(st.(line := st.line + s), [])
    decreases s
  {
    hide EndLine;
    if s == [] {
      assert st.line + s == st.line;
    } else {
      RunPlain(st.(line := st.line + [s[0]]), s[1..]);
      Extend(st.line, s);
    }
  }

  lemma Extend(a: bytes, s: bytes)
    requires s != []
    ensures (a + [s[0]]) + s[1..] == a + s
  {
  }

  lemma RunPlainPart(st: State, chunk: bytes, start: nat, i: nat)
    requires start <= i <= |chunk| && !st.pendingLf && Plain(chunk[start..i])
    ensures Run(st, chunk[start..]) == Run(st.(line := st.line + chunk[start..i]), chunk[i..])
  {
    assert chunk[start..] == chunk[start..i] + chunk[i..];
    RunPlain(st, chunk[start..i]);
    RunConcat(st, chunk[start..i], chunk[i..]);
    var more := Run(st.(line := st.line + chunk[start..i]), chunk[i..]);
    assert [] + more.events == more.events;
  }

  // Lines: the automaton ends a line at each CRLF, CR or LF.

  datatype Split = Split(lines: seq<bytes>, tail: bytes)

  /** The position of the first line terminator, or the length. */
  function LineEnd(s: bytes): (k: nat)
    ensures k <= |s| && Plain(s[..k])
    ensures k < |s| ==> s[k] == CR || s[k] == LF
  {
    if s == [] || s[0] == CR || s[0] == LF then 0
    else
      var k := LineEnd(s[1..]);
      assert s[..k + 1] == [s[0]] + s[1..][..k];
      1 + k
  }

  /** Where the next line starts: after CRLF, or after a lone CR or LF. */
  function AfterEnd(s: bytes, k: nat): nat
    requires k < |s|
  {
    if s[k] == CR && k + 1 < |s| && s[k + 1] == LF then k + 2 else k + 1
  }

  /** The lines of a stream and the unterminated rest. */
  function SplitLines(s: bytes): Split
    decreases |s|
  {
    var k := LineEnd(s);
    if k == |s| then Split([], s)
    else
      var more := SplitLines(s[AfterEnd(s, k)..]);
      Split([s[..k]] + more.lines, more.tail)
  }

  /** Processing complete lines. */
  function RunLines(b: Block, lines: seq<bytes>): Out<Block>
    decreases lines
  {
    if lines == [] then Out(b, [])
    else
      var first := EndLine(b, lines[0]);
      var more := RunLines(first.v, lines[1..]);
      Out(more.v, first.events + more.events)
  }

  predicate EndsWithCr(s: bytes) {
    s != [] && s[|s| - 1] == CR
  }

  /** From a line boundary the automaton does exactly what its line split says. */
  lemma {:induction false} RunFollowsLines(b: Block, s: bytes)
    ensures var Split(lines, tail) := SplitLines(s);
            var r := RunLines(b, lines);
            Run(State([], false, b), s) == Out(State(tail, EndsWithCr(s), r.v), r.events)
    decreases |s|
  {
    hide Step, EndLine, Run, LineEnd;
    var k := LineEnd(s);
    RunEmpty(State(s, false, b));
    assert s[0..] == s && s[0..k] == s[..k] && [] + s[..k] == s[..k];
    RunPlainPart(State([], false, b), s, 0, k);
    if k == |s| {
      assert s[k..] == [] && s[..k] == s;
    } else {
      RunTerminator(b, s, k);
      var n := AfterEnd(s, k);
      var first := EndLine(b, s[..k]);
      RunFollowsLines(first.v, s[n..]);
      assert SplitLines(s).lines[1..] == SplitLines(s[n..]).lines;
      assert EndsWithCr(s[n..]) == EndsWithCr(s) || n == |s|;
    }
  }

  /** A terminated line, and the run after its terminator; a final CR leaves its mark. */
  lemma RunTerminator(b: Block, s: bytes, k: nat)
    requires k < |s| && (s[k] == CR || s[k] == LF)
    ensures var first := EndLine(b, s[..k]);
            var more := Run(State([], false, first.v), s[AfterEnd(s, k)..]);
            var r := Run(State(s[..k], false, b), s[k..]);
            r == if k + 1 == |s| then Out(State([], s[k] == CR, first.v), first.events)
                 else Out(more.v, first.events + more.events)
  {
    hide Step, EndLine;
    var here := State(s[..k], false, b);
    StepEnd(here, s[k]);
    RunOnce(here, s, k);
    var mid := State([], s[k] == CR, EndLine(b, s[..k]).v);
    if k + 1 < |s| && s[k] == CR {
      StepClear(mid, s[k + 1]);
      RunOnce(mid, s, k + 1);
      RunOnce(mid.(pendingLf := false), s, k + 1);
      var more := Run(mid.(pendingLf := false), s[AfterEnd(s, k)..]);
      assert [] + more.events == more.events;
    }
  }

  // Fields: the data of an event is its data values joined by line feeds.

  predicate IsField(line: bytes, name: bytes) {
    line != [] && line[0] != COLON && FieldOf(line).name == name
  }

  /** The values of the fields called `name`, in order; comments have no field. */
  function Values(lines: seq<bytes>, name: bytes): seq<bytes> {
    if lines == [] then []
    else
      var before, last := Values(lines[..|lines| - 1], name), lines[|lines| - 1];
      if IsField(last, name) then before + [FieldOf(last).value] else before
  }

  function JoinLf(values: seq<bytes>): bytes {
    if values == [] then []
    else if |values| == 1 then values[0]
    else JoinLf(values[..|values| - 1]) + [LF] + values[|values| - 1]
  }

  function LastOr(values: seq<bytes>, default: bytes): bytes {
    if values == [] then default else values[|values| - 1]
  }

  /** The last legal retry time, or the one before the lines. */
  function RetryAfter(retry: int, lines: seq<bytes>): int {
    if lines == [] then retry
    else
      var before, last := RetryAfter(retry, lines[..|lines| - 1]), lines[|lines| - 1];
      if IsField(last, RETRY) && AllDigits(FieldOf(last).value) then Saturated(FieldOf(last).value) else before
  }

  /** `b` is what the lines since the last blank line have made of a cleared block `start`. */
  ghost predicate BlockOf(start: Block, b: Block, lines: seq<bytes>) {
    && DataOf(b, lines)
    && b.event == LastOr(Values(lines, EVENT), [])
    && IdOf(start, b, lines)
    && b.retry == RetryAfter(start.retry, lines)
  }

  ghost predicate DataOf(b: Block, lines: seq<bytes>) {
    b.hasData == (Values(lines, DATA) != []) && b.data == JoinLf(Values(lines, DATA))
  }

  ghost predicate IdOf(start: Block, b: Block, lines: seq<bytes>) {
    && b.hasId == (Values(lines, ID) != []) && b.id == LastOr(Values(lines, ID), [])
    && b.lastId == LastOr(Values(lines, ID), start.lastId)
  }

  lemma ValuesStep(lines: seq<bytes>, line: bytes, name: bytes)
    ensures Values(lines + [line], name)
         == if IsField(line, name) then Values(lines, name) + [FieldOf(line).value] else Values(lines, name)
  {
    hide FieldOf;
    assert (lines + [line])[..|lines|] == lines;
  }

  lemma RetryStep(retry: int, lines: seq<bytes>, line: bytes)
    ensures RetryAfter(retry, lines + [line])
         == if IsField(line, RETRY) && AllDigits(FieldOf(line).value) then Saturated(FieldOf(line).value)
            else RetryAfter(retry, lines)
  {
    hide FieldOf, Saturated;
    assert (lines + [line])[..|lines|] == lines;
  }

  lemma JoinStep(values: seq<bytes>, v: bytes)
    ensures JoinLf(values + [v]) == if values == [] then v else JoinLf(values) + [LF] + v
  {
    assert (values + [v])[..|values|] == values;
  }

  lemma NamesDiffer()
    ensures EVENT != DATA && EVENT != ID && EVENT != RETRY && DATA != ID && DATA != RETRY && ID != RETRY
  {
    assert |EVENT| != |DATA| && |EVENT| != |ID| && |DATA| != |ID| && |DATA| != |RETRY| && |ID| != |RETRY|;
    assert EVENT[0] != RETRY[0];
  }

  lemma DataStep(b: Block, lines: seq<bytes>, line: bytes)
    requires DataOf(b, lines) && line != []
    ensures DataOf(EndLine(b, line).v, lines + [line])
  {
    hide FieldOf, Values, JoinLf, EndLine;
    ValuesStep(lines, line, DATA);
    DataField(b, line);
    if IsField(line, DATA) {
      var v := FieldOf(line).value;
      JoinStep(Values(lines, DATA), v);
      JoinNothing();
      assert [] + v == v;
    }
  }

  lemma DataField(b: Block, line: bytes)
    requires line != []
    ensures var r := EndLine(b, line).v;
            if IsField(line, DATA) then
              r.hasData && r.data == (if b.hasData then b.data + [LF] else b.data) + FieldOf(line).value
            else r.hasData == b.hasData && r.data == b.data
  {
    hide FieldOf, Saturated, AllDigits;
    NamesDiffer();
  }

  lemma EventStep(b: Block, lines: seq<bytes>, line: bytes)
    requires b.event == LastOr(Values(lines, EVENT), []) && line != []
    ensures EndLine(b, line).v.event == LastOr(Values(lines + [line], EVENT), [])
  {
    hide FieldOf, Values, Saturated, AllDigits;
    NamesDiffer();
    ValuesStep(lines, line, EVENT);
  }

  lemma IdStep(start: Block, b: Block, lines: seq<bytes>, line: bytes)
    requires IdOf(start, b, lines) && line != []
    ensures IdOf(start, EndLine(b, line).v, lines + [line])
  {
    hide FieldOf, Values, Saturated, AllDigits;
    NamesDiffer();
    ValuesStep(lines, line, ID);
  }

  lemma RetryFieldStep(start: Block, b: Block, lines: seq<bytes>, line: bytes)
    requires b.retry == RetryAfter(start.retry, lines) && line != []
    ensures EndLine(b, line).v.retry == RetryAfter(start.retry, lines + [line])
  {
    hide FieldOf, RetryAfter, Saturated, AllDigits;
    NamesDiffer();
    RetryStep(start.retry, lines, line);
  }

  /** A line that is not blank changes exactly the fields it names. */
  lemma ApplyFieldKeepsBlock(start: Block, b: Block, lines: seq<bytes>, line: bytes)
    requires BlockOf(start, b, lines) && line != []
    ensures BlockOf(start, EndLine(b, line).v, lines + [line]) && EndLine(b, line).events == []
  {
    hide Values, RetryAfter, DataOf, IdOf, ApplyField;
    DataStep(b, lines, line);
    EventStep(b, lines, line);
    IdStep(start, b, lines, line);
    RetryFieldStep(start, b, lines, line);
  }

  lemma JoinNothing()
    ensures JoinLf([]) == []
  {
  }

  lemma {:induction false} LinesMakeBlock(b: Block, lines: seq<bytes>)
    requires Cleared(b) == b
    requires forall i :: 0 <= i < |lines| ==> lines[i] != []
    ensures BlockOf(b, RunLines(b, lines).v, lines) && RunLines(b, lines).events == []
    decreases |lines|
  {
    hide EndLine;
    if lines != [] {
      var n := |lines| - 1;
      assert lines == lines[..n] + [lines[n]];
      LinesMakeBlock(b, lines[..n]);
      RunLinesConcat(b, lines[..n], [lines[n]]);
      RunLinesOne(RunLines(b, lines[..n]).v, lines[n]);
      ApplyFieldKeepsBlock(b, RunLines(b, lines[..n]).v, lines[..n], lines[n]);
    }
  }

  lemma RunLinesOne(b: Block, line: bytes)
    ensures RunLines(b, [line]) == EndLine(b, line)
  {
    hide EndLine;
    assert [line][1..] == [];
    assert EndLine(b, line).events + [] == EndLine(b, line).events;
  }

  lemma {:induction false} RunLinesConcat(b: Block, lines: seq<bytes>, more: seq<bytes>)
    ensures var r := RunLines(b, lines);
            var t := RunLines(r.v, more);
            RunLines(b, lines + more) == Out(t.v, r.events + t.events)
    decreases lines
  {
    hide EndLine;
    if lines == [] {
      assert lines + more == more;
      assert [] + RunLines(b, more).events == RunLines(b, more).events;
    } else {
      assert (lines + more)[1..] == lines[1..] + more;
      var first := EndLine(b, lines[0]);
      RunLinesConcat(first.v, lines[1..], more);
      var r := RunLines(first.v, lines[1..]);
      var t := RunLines(r.v, more);
      assert first.events + (r.events + t.events) == (first.events + r.events) + t.events;
    }
  }

  // Events: one for every block that a blank line ends and that has data.

  /** The first blank line, or the number of lines. */
  function FirstBlank(lines: seq<bytes>): (k: nat)
    ensures k <= |lines| && (k < |lines| ==> lines[k] == []) && forall i :: 0 <= i < k ==> lines[i] != []
  {
    if lines == [] || lines[0] == [] then 0 else 1 + FirstBlank(lines[1..])
  }

  /**
    What a block describes: the data values joined by LF, the last event name or
    "message", the last id; and nothing without a data field.
   */
  function EventOf(retry: int, block: seq<bytes>): seq<Event> {
    var data, name, ids := Values(block, DATA), LastOr(Values(block, EVENT), []), Values(block, ID);
    if data == [] then []
    else
      [Event(if name == [] then MESSAGE else name, JoinLf(data),
             if ids == [] then None else Some(LastOr(ids, [])), RetryAfter(retry, block))]
  }

  /** The events of the blocks that a blank line ends, in order. */
  function EventsOf(retry: int, lines: seq<bytes>): seq<Event>
    decreases |lines|
  {
    var k := FirstBlank(lines);
    if k == |lines| then []
    else EventOf(retry, lines[..k]) + EventsOf(RetryAfter(retry, lines[..k]), lines[k + 1..])
  }

  /** A blank line dispatches what the lines before it describe, and clears the block. */
  lemma DispatchOf(b: Block, lines: seq<bytes>)
    requires Cleared(b) == b
    requires forall i :: 0 <= i < |lines| ==> lines[i] != []
    ensures var r := RunLines(b, lines + [[]]);
            && Cleared(r.v) == r.v && r.events == EventOf(b.retry, lines)
            && r.v.retry == RetryAfter(b.retry, lines)
  {
    hide Values, JoinLf, RetryAfter;
    LinesMakeBlock(b, lines);
    RunLinesConcat(b, lines, [[]]);
    RunLinesOne(RunLines(b, lines).v, []);
  }

  /** Whatever the lines: the events are those of the blocks that a blank line ends, in order. */
  lemma {:induction false} LinesMakeEvents(b: Block, lines: seq<bytes>)
    requires Cleared(b) == b
    ensures RunLines(b, lines).events == EventsOf(b.retry, lines)
    decreases |lines|
  {
    hide EndLine, RunLines, EventOf, RetryAfter;
    var k := FirstBlank(lines);
    if k == |lines| {
      LinesMakeBlock(b, lines);
    } else {
      DispatchOf(b, lines[..k]);
      var head := lines[..k] + [[]];
      assert lines == head + lines[k + 1..];
      RunLinesConcat(b, head, lines[k + 1..]);
      LinesMakeEvents(RunLines(b, head).v, lines[k + 1..]);
    }
  }

  /** A whole stream, in any chunks, emits the events its lines describe. */
  lemma StreamMakesEvents(chunks: seq<bytes>)
    ensures FeedAll(INITIAL, chunks).events == EventsOf(-1, SplitLines(Concat(chunks)).lines)
  {
    hide Run, FeedAll, RunLines, EventsOf, SplitLines;
    var s := Concat(chunks);
    ChunkingIrrelevant(INITIAL, chunks);
    RunFollowsLines(INITIAL.block, s);
    LinesMakeEvents(INITIAL.block, SplitLines(s).lines);
  }
}
