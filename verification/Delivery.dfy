/**
  End to end: a value serialized, wrapped as one Server-Sent Event, cut into any
  chunks and fed to the parser arrives as one message that parses back to the value.
 */
module Delivery {
  import opened Bytes
  import opened JsonValue
  import opened JsonGrammar
  import opened JsonWriter
  import JsonText
  import JsonReader
  import opened Sse

  const PREFIX: bytes := DATA + [COLON, SPACE]

  /** `mcp_sse_wrap`. */
  function Wrap(json: bytes): bytes {
    PREFIX + CStr(json) + [LF, LF]
  }

  /** Between events: no partial line and nothing pending. */
  predicate Idle(st: State) {
    st.line == [] && Cleared(st.block) == st.block
  }

  lemma PrintableField(json: bytes)
    requires Printable(json)
    ensures var line := PREFIX + json;
            CStr(json) == json && Plain(line) && line[0] != COLON && FieldOf(line) == Field(DATA, json)
  {
    var line := PREFIX + json;
    assert NulFree(json);
    assert forall i :: 0 <= i < |line| ==> line[i] >= 0x20;
    assert NulFree(line);
    var k := Find(line, COLON);
    assert line[4] == COLON && k == 4;
    assert line[..4] == DATA;
    assert line[5..] == [SPACE] + json;
    assert line[5..][1..] == json;
  }

  lemma SplitWrapped(line: bytes)
    requires Plain(line)
    ensures SplitLines(line + [LF, LF]) == Split([line, []], [])
  {
    var s := line + [LF, LF];
    LineEndAt(line, [LF, LF]);
    assert s[..|line|] == line;
    assert s[|line| + 1..] == [LF];
    assert LineEnd([LF]) == 0 && [LF][1..] == [];
    assert SplitLines([LF]) == Split([[]], []);
  }

  lemma {:induction false} LineEndAt(line: bytes, rest: bytes)
    requires Plain(line) && rest != [] && (rest[0] == CR || rest[0] == LF)
    ensures LineEnd(line + rest) == |line|
  {
    if line == [] {
      assert line + rest == rest;
    } else {
      assert (line + rest)[1..] == line[1..] + rest;
      LineEndAt(line[1..], rest);
    }
  }

  /** A wrapped text without control characters is dispatched whole by a single feed. */
  lemma WrappedRun(st: State, json: bytes)
    requires Idle(st) && Printable(json)
    ensures var r := Run(st, Wrap(json));
            Idle(r.v) && r.events == [Event(MESSAGE, json, None, st.block.retry)]
  {
    hide Run, SplitLines;
    PrintableField(json);
    var line := PREFIX + json;
    var s := Wrap(json);
    assert s == line + [LF, LF];
    var clean := st.(pendingLf := false);
    assert Run(st, s) == Run(clean, s) by {
      assert s[0..] == s;
      RunOnce(st, s, 0);
      RunOnce(clean, s, 0);
      if st.pendingLf {
        StepClear(st, s[0]);
      }
    }
    RunFollowsLines(st.block, s);
    SplitWrapped(line);
    BlockLines(st.block, line, json);
  }

  lemma BlockLines(b: Block, line: bytes, json: bytes)
    requires Cleared(b) == b && line != [] && line[0] != COLON && FieldOf(line) == Field(DATA, json)
    ensures var r := RunLines(b, [line, []]);
            Cleared(r.v) == r.v && r.events == [Event(MESSAGE, json, None, b.retry)]
  {
    var first := EndLine(b, line);
    assert DATA != EVENT by { assert |DATA| != |EVENT|; }
    assert first.v == b.(data := json, hasData := true) by { assert [] + json == json; }
    var blank: seq<bytes> := [[]];
    assert [line, []][1..] == blank;
    var last := EndLine(first.v, []);
    assert RunLines(first.v, blank) == Out(last.v, last.events) by {
      assert blank[1..] == [];
      assert last.events + [] == last.events;
    }
    assert [] + last.events == last.events;
  }

  /** Any chunking delivers exactly one message, and its data parses back to the value. */
  lemma WrappedValueArrives(fl: FloatLib, v: Value, st: State, chunks: seq<bytes>)
    requires WellFormed(v) && fl.Faithful() && Idle(st)
    requires Concat(chunks) == Wrap(Serialize(fl, v))
    ensures var r := FeedAll(st, chunks);
            && Idle(r.v)
            && |r.events| == 1 && r.events[0].name == MESSAGE
            && JsonText.Parse(fl, r.events[0].data, JsonReader.MAX_DEPTH)
               == if Depth(v) <= JsonReader.MAX_DEPTH then Some(v) else None
  {
    hide FeedAll, Run, JsonText.Parse, Depth;
    SerializePrintable(fl, v, []);
    ChunkingIrrelevant(st, chunks);
    WrappedRun(st, Serialize(fl, v));
    SerializeParseRoundTrip(fl, v, JsonReader.MAX_DEPTH);
  }
}
