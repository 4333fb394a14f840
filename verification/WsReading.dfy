/**
  Reading from a WebSocket connection. The read buffer grows by doubling up to a
  cap, and a connection that has too little of it left is closed before the next
  read; up to there its state depends only on the bytes received.
 */
module WsReading {
  import opened Bytes
  import opened WsFrame
  import opened WsConnection

  const READ_STEP: nat := 4096
  const MAX_READ_CAP: nat := MAX_BODY + 65536
  /** The most unparsed bytes with which another read is possible. */
  const ROOM: nat := MAX_READ_CAP - READ_STEP

  /** The sizes the buffer goes through. */
  predicate CapOk(cap: nat) {
    cap in {0, 0x2000, 0x4000, 0x8000, 0x1_0000, 0x2_0000, 0x4_0000, 0x8_0000, 0x10_0000, 0x20_0000,
            MAX_BODY, MAX_READ_CAP}
  }

  function GrownCap(cap: nat): nat {
    var double := if cap == 0 then 8192 else cap * 2;
    if double > MAX_READ_CAP then MAX_READ_CAP else double
  }

  predicate Exhausted(len: nat, cap: nat) {
    len + READ_STEP > cap && cap >= MAX_READ_CAP
  }

  function NextCap(len: nat, cap: nat): nat {
    if len + READ_STEP > cap then GrownCap(cap) else cap
  }

  /** A read is refused exactly beyond the limit; otherwise there is room for a step. */
  lemma RoomToRead(len: nat, cap: nat)
    requires CapOk(cap) && len <= cap
    ensures Exhausted(len, cap) <==> len > ROOM
    ensures !Exhausted(len, cap) ==> CapOk(NextCap(len, cap)) && len + READ_STEP <= NextCap(len, cap)
  {
  }

  /** A connection as its reads leave it: the bytes received, what was made of them, and the buffer's size. */
  datatype Reading = Reading(received: bytes, conn: Conn, cap: nat, exhausted: bool)

  function Begin(cap: nat): Reading {
    Reading([], FRESH, cap, false)
  }

  function Unparsed(received: bytes): nat {
    |Cut(received).rest|
  }

  /** One read event; a closed connection gets none. */
  function Read(r: Reading, chunk: bytes): Reading {
    var len := Unparsed(r.received);
    if r.conn.closed then r
    else if Exhausted(len, r.cap) then r.(conn := r.conn.(closed := true), exhausted := true)
    else Reading(r.received + chunk, After(r.received + chunk), NextCap(len, r.cap), false)
  }

  /** What `recv` can return: no more than is free. */
  predicate Fits(r: Reading, chunk: bytes) {
    var len := Unparsed(r.received);
    !r.conn.closed && !Exhausted(len, r.cap) ==> len + |chunk| <= NextCap(len, r.cap)
  }

  function ReadAll(cap: nat, chunks: seq<bytes>): Reading {
    if chunks == [] then Begin(cap) else Read(ReadAll(cap, chunks[..|chunks| - 1]), chunks[|chunks| - 1])
  }

  predicate AllFit(cap: nat, chunks: seq<bytes>) {
    chunks != [] ==>
      var n := |chunks| - 1;
      AllFit(cap, chunks[..n]) && Fits(ReadAll(cap, chunks[..n]), chunks[n])
  }

  /** An open connection that cannot read on. */
  predicate Stuck(received: bytes) {
    !After(received).closed && Unparsed(received) > ROOM
  }

  predicate ReadingOk(r: Reading) {
    && CapOk(r.cap)
    && (!r.exhausted ==> r.conn == After(r.received))
    && (r.exhausted ==> r.conn == After(r.received).(closed := true) && Stuck(r.received))
    && (!r.conn.closed ==> Unparsed(r.received) <= r.cap)
  }

  lemma {:induction false} RestShrinks(b: bytes)
    ensures Unparsed(b) <= |b|
    decreases |b|
  {
    hide Parse;
    if Parse(b).Got? {
      RestShrinks(b[Parse(b).consumed..]);
    }
  }

  lemma ReadKeepsOk(r: Reading, chunk: bytes)
    requires ReadingOk(r) && Fits(r, chunk)
    ensures ReadingOk(Read(r, chunk))
  {
    hide Cut, Run, CapOk;
    var len := Unparsed(r.received);
    if !r.conn.closed {
      RoomToRead(len, r.cap);
      OpenStream(r.received);
      CutAppend(r.received, chunk);
      RestShrinks(Cut(r.received).rest + chunk);
    }
  }

  lemma {:induction false} ReadAllOk(cap: nat, chunks: seq<bytes>)
    requires CapOk(cap) && AllFit(cap, chunks)
    ensures ReadingOk(ReadAll(cap, chunks))
    decreases |chunks|
  {
    hide Read, ReadingOk, Fits;
    if chunks == [] {
      BeginOk(cap);
    } else {
      var n := |chunks| - 1;
      ReadAllOk(cap, chunks[..n]);
      ReadKeepsOk(ReadAll(cap, chunks[..n]), chunks[n]);
    }
  }

  lemma BeginOk(cap: nat)
    requires CapOk(cap)
    ensures ReadingOk(Begin(cap)) && After([]) == FRESH
  {
    hide CapOk;
    ParseNothing();
  }

  /** Some read finds the connection stuck. */
  ghost predicate GetsStuck(chunks: seq<bytes>) {
    exists k :: 0 <= k < |chunks| && Stuck(Concat(chunks[..k]))
  }

  /**
    The exact condition: a connection is what the bytes it received make of it
    unless some read finds more than the limit unparsed. Then it is closed
    although they do not close it; otherwise it is what all the bytes make of it.
   */
  lemma {:induction false} ReadsAreExact(cap: nat, chunks: seq<bytes>)
    requires CapOk(cap) && AllFit(cap, chunks)
    ensures var r := ReadAll(cap, chunks);
            && (r.conn == After(r.received) <==> !r.exhausted)
            && (r.exhausted <==> GetsStuck(chunks))
            && (!r.exhausted ==> r.conn == After(Concat(chunks)))
            && (!r.conn.closed ==> r.received == Concat(chunks))
    decreases |chunks|
  {
    hide Cut, Run, CapOk, AllFit, After, Unparsed;
    ReadAllOk(cap, chunks);
    if chunks == [] {
      BeginOk(cap);
    } else {
      var n := |chunks| - 1;
      LastFits(cap, chunks);
      ReadsAreExact(cap, chunks[..n]);
      ReadAllOk(cap, chunks[..n]);
      ConcatLast(chunks[..n], chunks[n]);
      assert chunks == chunks[..n] + [chunks[n]];
      StuckLater(chunks);
      var q := ReadAll(cap, chunks[..n]);
      if q.conn.closed {
        if !q.exhausted {
          ClosedForGood(Concat(chunks[..n]), chunks[n]);
        }
      } else {
        RoomToRead(Unparsed(q.received), q.cap);
      }
    }
  }

  lemma LastFits(cap: nat, chunks: seq<bytes>)
    requires AllFit(cap, chunks) && chunks != []
    ensures AllFit(cap, chunks[..|chunks| - 1])
  {
  }

  lemma StuckLater(chunks: seq<bytes>)
    requires chunks != []
    ensures var n := |chunks| - 1; GetsStuck(chunks) <==> GetsStuck(chunks[..n]) || Stuck(Concat(chunks[..n]))
  {
    hide Stuck;
    var n := |chunks| - 1;
    assert forall k :: 0 <= k <= n ==> chunks[..n][..k] == chunks[..k];
    if GetsStuck(chunks) {
      var k :| 0 <= k < |chunks| && Stuck(Concat(chunks[..k]));
      assert k < n ==> Stuck(Concat(chunks[..n][..k]));
    }
    if GetsStuck(chunks[..n]) {
      var k :| 0 <= k < n && Stuck(Concat(chunks[..n][..k]));
      assert Stuck(Concat(chunks[..k]));
    }
  }

  /** As long as no read is refused, how the bytes were chunked makes no difference. */
  lemma ChunkingIrrelevant(cap: nat, chunks: seq<bytes>, cap': nat, chunks': seq<bytes>)
    requires CapOk(cap) && AllFit(cap, chunks) && CapOk(cap') && AllFit(cap', chunks')
    requires Concat(chunks) == Concat(chunks') && !GetsStuck(chunks) && !GetsStuck(chunks')
    ensures ReadAll(cap, chunks).conn == ReadAll(cap', chunks').conn
  {
    hide ReadAll, AllFit, GetsStuck, After;
    ReadsAreExact(cap, chunks);
    ReadsAreExact(cap', chunks');
  }

  // Frames of moderate size are never refused.

  predicate Moderate(fs: seq<Frame>) {
    forall i :: 0 <= i < |fs| ==> Legal(fs[i]) && |Encode(fs[i])| <= ROOM + 1
  }

  /** What is left over of a prefix of encoded frames is a strict prefix of one of them. */
  lemma {:induction false} PrefixLeavesLittle(fs: seq<Frame>, n: nat)
    requires Moderate(fs) && AllLegal(fs) && n <= |EncodeAll(fs)|
    ensures Unparsed(EncodeAll(fs)[..n]) <= ROOM
    decreases |fs|
  {
    hide Parse, Encode;
    var b := EncodeAll(fs)[..n];
    if fs == [] {
      RestShrinks(b);
    } else {
      var e, more := Encode(fs[0]), EncodeAll(fs[1..]);
      if n < |e| {
        assert b == e[..n];
        PrefixNeedsMore(fs[0], n);
      } else {
        var m := n - |e|;
        assert b == e + more[..m];
        ParseEncode(fs[0], more[..m]);
        assert b[|e|..] == more[..m];
        PrefixLeavesLittle(fs[1..], m);
      }
    }
  }

  lemma {:induction false} ConcatPrefix(chunks: seq<bytes>, k: nat)
    requires k <= |chunks|
    ensures |Concat(chunks[..k])| <= |Concat(chunks)|
    ensures Concat(chunks[..k]) == Concat(chunks)[..|Concat(chunks[..k])|]
    decreases |chunks| - k
  {
    if k == |chunks| {
      assert chunks[..k] == chunks;
    } else {
      ConcatPrefix(chunks, k + 1);
      ConcatLast(chunks[..k], chunks[k]);
      assert chunks[..k + 1] == chunks[..k] + [chunks[k]];
    }
  }

  /** Fragmented messages in frames of moderate size are delivered whole and in order, in whatever chunks they arrive. */
  lemma SentIsDelivered(cap: nat, chunks: seq<bytes>, fs: seq<Frame>, gs: seq<seq<Frame>>, open: seq<Frame>)
    requires CapOk(cap) && AllFit(cap, chunks) && Moderate(fs) && AllLegal(fs) && Concat(chunks) == EncodeAll(fs)
    requires NoClose(fs) && Decomposes(Data(fs), gs, open)
    ensures var c := ReadAll(cap, chunks).conn;
            !c.closed && c.messages == Payloads(gs) && c.replies == Pongs(fs)
  {
    hide Cut, Run, EncodeAll, Decomposes, CapOk, AllFit, ReadAll, Encode;
    forall k | 0 <= k < |chunks|
      ensures !Stuck(Concat(chunks[..k]))
    {
      ConcatPrefix(chunks, k);
      PrefixLeavesLittle(fs, |Concat(chunks[..k])|);
    }
    ReadsAreExact(cap, chunks);
    CutEncoded(fs);
    DecompositionIsDelivered(fs, gs, open);
  }

  // Beyond that size the chunks decide.

  /** A prefix of one frame is all left over. */
  lemma PrefixWaits(f: Frame, k: nat)
    requires Legal(f) && k < |Encode(f)|
    ensures After(Encode(f)[..k]) == FRESH && Unparsed(Encode(f)[..k]) == k
  {
    hide Parse, Encode;
    PrefixNeedsMore(f, k);
  }

  lemma WholeArrives(f: Frame)
    requires Legal(f) && f.fin && f.opcode == TEXT
    ensures After(Encode(f)) == FRESH.(messages := [f.payload])
  {
    hide Parse, Encode;
    ParseEncode(f, []);
    var e := Encode(f);
    assert e + [] == e && e[|e|..] == [];
    ParseNothing();
    assert Cut(e).frames == [f] + [] == [f];
    RunStep([], f);
    assert [] + [f] == [f];
  }

  /** `n` steps of 4096 bytes. */
  function Steps(b: bytes, n: nat): seq<bytes>
    requires n * READ_STEP <= |b|
  {
    if n == 0 then [] else Steps(b, n - 1) + [b[(n - 1) * READ_STEP..n * READ_STEP]]
  }

  lemma {:induction false} StepsWait(f: Frame, n: nat)
    requires Legal(f) && n * READ_STEP < |Encode(f)| && n * READ_STEP <= ROOM
    ensures var e := Encode(f);
            var r := ReadAll(0, Steps(e, n));
            AllFit(0, Steps(e, n)) && ReadingOk(r) && r.received == e[..n * READ_STEP] && !r.conn.closed
    decreases n
  {
    hide Cut, Run, Encode, CapOk, After, Unparsed;
    var e := Encode(f);
    if n == 0 {
      CapZero();
      BeginOk(0);
      assert e[..0] == [];
    } else {
      StepsWait(f, n - 1);
      var q, chunk := ReadAll(0, Steps(e, n - 1)), e[(n - 1) * READ_STEP..n * READ_STEP];
      OneMore(f, q, (n - 1) * READ_STEP, chunk);
      assert Steps(e, n)[..|Steps(e, n - 1)|] == Steps(e, n - 1);
      assert q.received + chunk == e[..n * READ_STEP];
    }
  }

  lemma CapZero()
    ensures CapOk(0)
  {
  }

  /** A step that fits and leaves the frame incomplete. */
  lemma OneMore(f: Frame, q: Reading, k: nat, chunk: bytes)
    requires Legal(f) && ReadingOk(q) && !q.conn.closed && k < |Encode(f)| && q.received == Encode(f)[..k]
    requires k <= ROOM && |chunk| <= READ_STEP
    ensures Fits(q, chunk) && ReadingOk(Read(q, chunk))
    ensures Read(q, chunk).received == q.received + chunk && Read(q, chunk).conn == After(q.received + chunk)
    ensures k + |chunk| < |Encode(f)| && q.received + chunk == Encode(f)[..k + |chunk|] ==> !Read(q, chunk).conn.closed
  {
    hide Cut, Run, Encode, CapOk;
    PrefixWaits(f, k);
    RoomToRead(k, q.cap);
    ReadKeepsOk(q, chunk);
    if k + |chunk| < |Encode(f)| {
      PrefixWaits(f, k + |chunk|);
    }
  }

  lemma {:induction false} StepsConcat(b: bytes, n: nat)
    requires n * READ_STEP <= |b|
    ensures Concat(Steps(b, n)) == b[..n * READ_STEP]
  {
    if n > 0 {
      StepsConcat(b, n - 1);
      ConcatLast(Steps(b, n - 1), b[(n - 1) * READ_STEP..n * READ_STEP]);
    }
  }

  lemma OnceMore(cap: nat, chunks: seq<bytes>, last: bytes)
    ensures ReadAll(cap, chunks + [last]) == Read(ReadAll(cap, chunks), last)
    ensures AllFit(cap, chunks + [last]) <==> AllFit(cap, chunks) && Fits(ReadAll(cap, chunks), last)
  {
    hide Read, Fits;
    assert (chunks + [last])[..|chunks|] == chunks;
  }

  const STEPS: nat := 1039

  /** A text frame whose payload alone fills the limit. */
  function Large(): (f: Frame)
    ensures Legal(f) && f.fin && f.opcode == TEXT && |f.payload| == ROOM
  {
    Frame(true, TEXT, false, NO_KEY, seq(ROOM, _ => 0))
  }

  lemma LargeSize()
    ensures STEPS * READ_STEP == ROOM && |Encode(Large())| == ROOM + 10
  {
    hide Large, Spell;
  }

  /** One frame, read in steps up to the limit and then to its end: delivered. */
  lemma ReadToTheEnd()
    ensures var e := Encode(Large());
            && |e| == ROOM + 10 && STEPS * READ_STEP == ROOM
            && var chunks := Steps(e, STEPS) + [e[ROOM..]];
            && Concat(chunks) == e && AllFit(0, chunks)
            && ReadAll(0, chunks).conn == FRESH.(messages := [Large().payload])
  {
    hide Encode, Large, Cut, Run, Read, Fits, ReadAll, AllFit, Steps, After, CapOk;
    LargeSize();
    var f := Large();
    var e := Encode(f);
    var steps, last := Steps(e, STEPS), e[ROOM..];
    StepsConcat(e, STEPS);
    StepsWait(f, STEPS);
    ConcatLast(steps, last);
    assert e[..ROOM] + last == e;
    OneMore(f, ReadAll(0, steps), ROOM, last);
    OnceMore(0, steps, last);
    WholeArrives(f);
  }

  /** The same bytes, with one more read just past the limit: the connection is closed. */
  lemma ReadPastTheLimit()
    ensures var e := Encode(Large());
            && |e| == ROOM + 10 && STEPS * READ_STEP == ROOM
            && var chunks := Steps(e, STEPS) + [e[ROOM..ROOM + 1]] + [e[ROOM + 1..]];
            && Concat(chunks) == e && AllFit(0, chunks)
            && ReadAll(0, chunks).conn == FRESH.(closed := true)
  {
    hide Encode, Large, Cut, Run, ReadAll, AllFit, Steps, After, CapOk;
    LargeSize();
    var f := Large();
    var e := Encode(f);
    var steps, one, last := Steps(e, STEPS), e[ROOM..ROOM + 1], e[ROOM + 1..];
    StepsConcat(e, STEPS);
    StepsWait(f, STEPS);
    ConcatLast(steps, one);
    ConcatLast(steps + [one], last);
    assert e[..ROOM] + one == e[..ROOM + 1] && e[..ROOM + 1] + last == e;
    OneMore(f, ReadAll(0, steps), ROOM, one);
    OnceMore(0, steps, one);
    OnceMore(0, steps + [one], last);
    PrefixWaits(f, ROOM + 1);
    RoomToRead(ROOM + 1, ReadAll(0, steps + [one]).cap);
  }

  class Connection {
    var readBuf: bytes
    var readCap: nat
    var frag: Option<bytes>
    var closed: bool
    /** Handed to workers, oldest first. */
    var messages: seq<bytes>
    /** Queued for sending. */
    var replies: seq<bytes>
    ghost var received: bytes
    ghost var exhausted: bool

    ghost function State(): Conn
      reads this
    {
      Conn(frag, closed, messages, replies)
    }

    ghost function View(): Reading
      reads this
    {
      Reading(received, State(), readCap, exhausted)
    }

    ghost predicate Valid()
      reads this
    {
      ReadingOk(View()) && (!closed ==> readBuf == Cut(received).rest)
    }

    /** A connection whose buffer has some capacity left from the upgrade request. */
    constructor (cap: nat)
      requires CapOk(cap)
      ensures Valid() && View() == Begin(cap)
    {
      readBuf, readCap, frag, closed, messages, replies := [], cap, None, false, [], [];
      received, exhausted := [], false;
      ParseNothing();
    }

    /** One step of the read loop on a complete frame. */
    method HandleFrame(f: Frame)
      requires !closed && Legal(f)
      modifies this
      ensures State() == Handle(old(State()), f) && readBuf == old(readBuf) && readCap == old(readCap)
      ensures received == old(received) && exhausted == old(exhausted)
    {
      hide Encode;
      if f.opcode == TEXT || f.opcode == BINARY {
        if frag.Some? {
          closed := true;
        } else if f.fin {
          messages := messages + [f.payload];
        } else {
          frag := Some(f.payload);
        }
      } else if f.opcode == CONTINUATION {
        if frag.None? {
          closed := true;
        } else if |frag.value| + |f.payload| > MAX_BODY {
          closed := true;
        } else {
          frag := Some(frag.value + f.payload);
          if f.fin {
            messages := messages + [frag.value];
            frag := None;
          }
        }
      } else if f.opcode == PING {
        var pong := EncodeFrame(Frame(true, PONG, false, NO_KEY, f.payload));
        replies := replies + [pong];
      } else if f.opcode == CLOSE {
        closed := true;
      }
    }

    /** The read handler: closes if the buffer is exhausted, otherwise reads a chunk and handles what is complete. */
    method Receive(chunk: bytes)
      requires Valid() && Fits(View(), chunk)
      modifies this
      ensures Valid() && View() == Read(old(View()), chunk)
    {
      hide Cut, Run, CapOk;
      ReadKeepsOk(View(), chunk);
      if closed { return; }
      if |readBuf| + READ_STEP > readCap {
        if readCap >= MAX_READ_CAP {
          closed, exhausted := true, true;
          return;
        }
        readCap := GrownCap(readCap);
      }
      TakeIn(chunk);
    }

    /** The frame loop on the bytes held and the bytes just read. */
    method TakeIn(chunk: bytes)
      requires !closed && State() == After(received) && readBuf == Cut(received).rest
      modifies this
      ensures received == old(received) + chunk && readCap == old(readCap) && exhausted == old(exhausted)
      ensures State() == After(received) && (!closed ==> readBuf == Cut(received).rest)
    {
      hide Parse, Handle, Legal, Cut, Run;
      ghost var total := received + chunk;
      ghost var ds := Cut(received).frames;
      OpenStream(received);
      CutAppend(received, chunk);
      readBuf := readBuf + chunk;
      received := total;
      while true
        invariant !closed && received == total && readCap == old(readCap) && exhausted == old(exhausted)
        invariant State() == Run(ds) && CutTo(total, ds, readBuf)
        decreases |readBuf|
      {
        var r := ParseFrame(readBuf);
        CutStep(total, ds, readBuf);
        if r.Malformed? {
          closed := true;
          return;
        }
        if r.NeedMore? {
          return;
        }
        ParsedIsLegal(readBuf);
        readBuf := readBuf[r.consumed..];
        HandleFrame(r.frame);
        RunStep(ds, r.frame);
        ds := ds + [r.frame];
        if closed {
          ClosedEarly(total, ds, readBuf);
          return;
        }
      }
    }
  }
}
