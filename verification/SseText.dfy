/**
  Event streams as they are written: fields, comments and blank lines, byte for byte,
  and the events that such a text stands for.
 */
module SseText {
  import opened Bytes
  import opened Decimals
  import opened Sse

  // One line.

  /** A line of a block; a field with a colon may have a space after it. */
  datatype Item = Comment(text: bytes) | Pair(name: bytes, value: bytes, spaced: bool) | Bare(name: bytes)

  predicate OneLine(s: bytes) {
    0x0A !in s && 0x0D !in s
  }

  predicate IsName(n: bytes) {
    n != [] && 0x00 !in n && 0x3A !in n
  }

  /** Without a space after the colon the value must not begin with one. */
  predicate Legal(it: Item) {
    match it
    case Comment(_) => true
    case Pair(n, v, spaced) => IsName(n) && 0x00 !in v && (spaced || v == [] || v[0] != 0x20)
    case Bare(n) => IsName(n)
  }

  function LineText(it: Item): bytes {
    match it
    case Comment(t) => [0x3A] + t
    case Pair(n, v, spaced) => n + ([0x3A] + ((if spaced then [0x20] else []) + v))
    case Bare(n) => n
  }

  lemma CStrWhole(s: bytes)
    requires 0x00 !in s
    ensures CStr(s) == s
  {
  }

  lemma NameBeforeColon(n: bytes, rest: bytes)
    requires IsName(n)
    ensures Find(n + ([0x3A] + rest), 0x3A) == |n| && Find(n, 0x3A) == |n|
  {
    hide Find;
    var s := n + ([0x3A] + rest);
    assert s[|n|] == 0x3A && forall i :: 0 <= i < |n| ==> s[i] == n[i];
  }

  /** A field line has the name before its first colon and the value after the colon and one space. */
  lemma FieldRead(it: Item)
    requires Legal(it) && !it.Comment?
    ensures FieldOf(LineText(it)) == Field(it.name, if it.Pair? then it.value else [])
    ensures LineText(it) != [] && LineText(it)[0] != 0x3A
  {
    hide Find, CStr;
    var line := LineText(it);
    assert 0x00 !in line;
    CStrWhole(line);
    if it.Pair? {
      var rest := (if it.spaced then [0x20] else []) + it.value;
      NameBeforeColon(it.name, rest);
      assert line[..|it.name|] == it.name && line[|it.name| + 1..] == rest;
      assert it.spaced ==> rest[1..] == it.value;
      assert !it.spaced ==> rest == it.value;
    } else {
      NameBeforeColon(it.name, []);
    }
  }

  /** Only what is written as a field of that name counts as one. */
  lemma FieldNamed(it: Item, name: bytes)
    requires Legal(it)
    ensures IsField(LineText(it), name) <==> !it.Comment? && it.name == name
  {
    hide FieldOf;
    if it.Comment? {
      assert LineText(it)[0] == COLON;
    } else {
      FieldRead(it);
    }
  }

  // One block.

  predicate AllLegal(items: seq<Item>) {
    forall i :: 0 <= i < |items| ==> Legal(items[i])
  }

  function Lines(items: seq<Item>): (ls: seq<bytes>)
    ensures |ls| == |items|
  {
    seq(|items|, i requires 0 <= i < |items| => LineText(items[i]))
  }

  /** The values given to a name, in order. */
  function Given(items: seq<Item>, name: bytes): seq<bytes> {
    if items == [] then []
    else
      var before, last := Given(items[..|items| - 1], name), items[|items| - 1];
      if last.Comment? || last.name != name then before
      else before + [if last.Pair? then last.value else []]
  }

  lemma {:induction false} ValuesGiven(items: seq<Item>, name: bytes)
    requires AllLegal(items)
    ensures Values(Lines(items), name) == Given(items, name)
  {
    hide LineText, Legal, FieldOf, IsField;
    if items != [] {
      var n := |items| - 1;
      ValuesGiven(items[..n], name);
      assert Lines(items) == Lines(items[..n]) + [LineText(items[n])];
      ValuesStep(Lines(items[..n]), LineText(items[n]), name);
      FieldNamed(items[n], name);
      if !items[n].Comment? {
        FieldRead(items[n]);
      }
    }
  }

  const DATA_NAME: bytes := [0x64, 0x61, 0x74, 0x61]
  const EVENT_NAME: bytes := [0x65, 0x76, 0x65, 0x6E, 0x74]
  const ID_NAME: bytes := [0x69, 0x64]
  const RETRY_NAME: bytes := [0x72, 0x65, 0x74, 0x72, 0x79]
  const DEFAULT_NAME: bytes := [0x6D, 0x65, 0x73, 0x73, 0x61, 0x67, 0x65]

  /** The last retry value that is a number, at most 2^63 - 1. */
  function LastRetry(retry: int, values: seq<bytes>): int {
    if values == [] then retry
    else
      var v := values[|values| - 1];
      if v == [] || !Digits(v) then LastRetry(retry, values[..|values| - 1])
      else if Decimal(v) > 9223372036854775807 then 9223372036854775807
      else Decimal(v)
  }

  lemma {:induction false} RetryGiven(retry: int, items: seq<Item>)
    requires AllLegal(items)
    ensures RetryAfter(retry, Lines(items)) == LastRetry(retry, Given(items, RETRY_NAME))
  {
    hide LineText, Legal, FieldOf, IsField, Decimal;
    if items != [] {
      var n := |items| - 1;
      RetryGiven(retry, items[..n]);
      assert Lines(items) == Lines(items[..n]) + [LineText(items[n])];
      RetryStep(retry, Lines(items[..n]), LineText(items[n]));
      FieldNamed(items[n], RETRY_NAME);
      var before := Given(items[..n], RETRY_NAME);
      if !items[n].Comment? {
        FieldRead(items[n]);
        var v := if items[n].Pair? then items[n].value else [];
        assert (before + [v])[..|before|] == before;
      }
    }
  }

  /** What a block means: nothing without data, else its data lines joined, its name, id and retry time. */
  function Meaning(retry: int, items: seq<Item>): seq<Event> {
    var data, names, ids := Given(items, DATA_NAME), Given(items, EVENT_NAME), Given(items, ID_NAME);
    if data == [] then []
    else
      var name := LastOr(names, []);
      [Event(if name == [] then DEFAULT_NAME else name, JoinLf(data), if ids == [] then None else Some(LastOr(ids, [])),
             LastRetry(retry, Given(items, RETRY_NAME)))]
  }

  lemma BlockMeans(retry: int, items: seq<Item>)
    requires AllLegal(items)
    ensures EventOf(retry, Lines(items)) == Meaning(retry, items)
  {
    hide Values, Given, RetryAfter, LastRetry, Lines, JoinLf;
    ValuesGiven(items, DATA_NAME);
    ValuesGiven(items, EVENT_NAME);
    ValuesGiven(items, ID_NAME);
    RetryGiven(retry, items);
  }

  // Whole texts.

  /** The lines of some blocks, each ended by a blank line. */
  function AllLines(blocks: seq<seq<Item>>): seq<bytes> {
    if blocks == [] then [] else Lines(blocks[0]) + ([[]] + AllLines(blocks[1..]))
  }

  function AllMeanings(retry: int, blocks: seq<seq<Item>>): seq<Event>
    decreases |blocks|
  {
    if blocks == [] then []
    else
      Meaning(retry, blocks[0]) + AllMeanings(LastRetry(retry, Given(blocks[0], RETRY_NAME)), blocks[1..])
  }

  lemma BlankAfter(items: seq<Item>, rest: seq<bytes>)
    requires AllLegal(items)
    ensures FirstBlank(Lines(items) + ([[]] + rest)) == |items|
  {
    hide FirstBlank;
    var lines := Lines(items) + ([[]] + rest);
    assert lines[|items|] == [];
    forall i | 0 <= i < |items|
      ensures lines[i] != []
    {
      assert lines[i] == LineText(items[i]) && Legal(items[i]);
    }
  }

  lemma {:induction false} BlocksMean(retry: int, blocks: seq<seq<Item>>)
    requires forall i :: 0 <= i < |blocks| ==> AllLegal(blocks[i])
    ensures EventsOf(retry, AllLines(blocks)) == AllMeanings(retry, blocks)
    decreases |blocks|
  {
    hide EventOf, Meaning, LastRetry, RetryAfter, Given, AllLegal, Lines, FirstBlank;
    if blocks == [] {
      NoBlocks(retry);
    } else {
      var first, more := Lines(blocks[0]), AllLines(blocks[1..]);
      var lines := first + ([[]] + more);
      BlankAfter(blocks[0], more);
      assert lines[..|first|] == first && lines[|first| + 1..] == more;
      BlockMeans(retry, blocks[0]);
      RetryGiven(retry, blocks[0]);
      BlocksMean(RetryAfter(retry, first), blocks[1..]);
    }
  }

  lemma NoBlocks(retry: int)
    ensures EventsOf(retry, []) == []
  {
  }

  /** Lines with a terminator each. */
  function Text(lines: seq<bytes>, ends: seq<bytes>): bytes
    requires |lines| == |ends|
  {
    if lines == [] then [] else lines[0] + (ends[0] + Text(lines[1..], ends[1..]))
  }

  /** Lines end in LF, CR or CRLF; a lone CR does not stand before a LF. */
  predicate Terminated(lines: seq<bytes>, ends: seq<bytes>) {
    && |lines| == |ends|
    && (forall i :: 0 <= i < |lines| ==> OneLine(lines[i]) && ends[i] in {[0x0A], [0x0D], [0x0D, 0x0A]})
    && (forall i :: 0 <= i < |lines| - 1 ==> ends[i] == [0x0D] && lines[i + 1] == [] ==> ends[i + 1] != [0x0A])
  }

  lemma NotLf(lines: seq<bytes>, ends: seq<bytes>)
    requires Terminated(lines, ends) && lines != [] && (lines[0] == [] ==> ends[0] != [0x0A])
    ensures var s := Text(lines, ends); s != [] && s[0] != 0x0A
  {
    assert ends[0] == [0x0A] || ends[0] == [0x0D] || ends[0] == [0x0D, 0x0A];
    assert lines[0] != [] ==> lines[0][0] in lines[0];
  }

  lemma FirstLine(line: bytes, end: bytes, rest: bytes)
    requires OneLine(line) && end in {[0x0A], [0x0D], [0x0D, 0x0A]}
    requires end == [0x0D] && rest != [] ==> rest[0] != 0x0A
    ensures var s := line + (end + rest);
            && LineEnd(s) == |line| && s[..|line|] == line
            && |line| < |s| && s[AfterEnd(s, |line|)..] == rest
  {
    hide LineEnd;
    var s := line + (end + rest);
    var k := LineEnd(s);
    assert s[|line|] == end[0];
    assert forall i :: 0 <= i < |line| ==> s[i] == line[i];
    assert s[..|line|] == line;
    LineEndIs(s, |line|);
    if end == [0x0D, 0x0A] {
      assert s[|line| + 1] == end[1] == 0x0A;
      assert s[|line| + 2..] == rest;
    } else {
      assert s[|line| + 1..] == rest;
      assert end == [0x0D] && rest != [] ==> s[|line| + 1] == rest[0];
    }
  }

  lemma LineEndIs(s: bytes, n: nat)
    requires n < |s| && (s[n] == CR || s[n] == LF)
    requires forall i :: 0 <= i < n ==> s[i] != CR && s[i] != LF
    ensures LineEnd(s) == n
  {
    hide LineEnd;
    var k := LineEnd(s);
    assert forall i :: 0 <= i < k ==> s[..k][i] == s[i];
  }

  /** A text splits into the lines it was written from. */
  lemma {:induction false} TextSplits(lines: seq<bytes>, ends: seq<bytes>)
    requires Terminated(lines, ends)
    ensures SplitLines(Text(lines, ends)) == Split(lines, [])
    decreases |lines|
  {
    hide LineEnd, AfterEnd;
    if lines == [] {
      NothingSplits();
    } else {
      var rest := Text(lines[1..], ends[1..]);
      assert Terminated(lines[1..], ends[1..]) by {
        assert forall i :: 0 <= i < |lines| - 1 ==> lines[1..][i] == lines[i + 1] && ends[1..][i] == ends[i + 1];
      }
      TextSplits(lines[1..], ends[1..]);
      if ends[0] == [0x0D] && |lines| > 1 {
        NotLf(lines[1..], ends[1..]);
      }
      FirstLine(lines[0], ends[0], rest);
      assert lines == [lines[0]] + lines[1..];
    }
  }

  lemma NothingSplits()
    ensures SplitLines([]) == Split([], [])
  {
  }

  /** Any chunks of a text of blocks, each ended by a blank line, are read as the events the blocks mean. */
  lemma TextMakesEvents(blocks: seq<seq<Item>>, ends: seq<bytes>, chunks: seq<bytes>)
    requires forall i :: 0 <= i < |blocks| ==> AllLegal(blocks[i])
    requires Terminated(AllLines(blocks), ends) && Concat(chunks) == Text(AllLines(blocks), ends)
    ensures FeedAll(INITIAL, chunks).events == AllMeanings(-1, blocks)
  {
    hide FeedAll, EventsOf, SplitLines, AllLines, AllMeanings, Terminated, Concat, AllLegal;
    StreamMakesEvents(chunks);
    TextSplits(AllLines(blocks), ends);
    BlocksMean(-1, blocks);
  }
}
