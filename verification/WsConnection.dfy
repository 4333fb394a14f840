/**
  What a WebSocket connection of the async server makes of the bytes it
  receives: they are cut into frames, data frames are put together into messages
  for the workers (RFC 6455 section 5.4), pings are answered.
 */
module WsConnection {
  import opened Bytes
  import opened WsFrame

  const MAX_BODY: nat := 4 * 0x10_0000

  // Cutting bytes into frames.

  datatype Stream = Stream(frames: seq<Frame>, rest: bytes, failed: bool)

  function Cut(b: bytes): Stream
    decreases |b|
  {
    match Parse(b)
    case NeedMore => Stream([], b, false)
    case Malformed => Stream([], b, true)
    case Got(f, n) =>
      var s := Cut(b[n..]);
      s.(frames := [f] + s.frames)
  }

  /** Bytes that arrive later are cut as if they had been there from the start. */
  lemma {:induction false} CutAppend(b: bytes, x: bytes)
    ensures var s, t := Cut(b), Cut(b + x);
            && (s.failed ==> t.failed && t.frames == s.frames)
            && (!s.failed ==> t == Cut(s.rest + x).(frames := s.frames + Cut(s.rest + x).frames))
    decreases |b|
  {
    hide Parse, Cut;
    CutOnce(b);
    CutOnce(b + x);
    if Parse(b).NeedMore? {
      assert [] + Cut(b + x).frames == Cut(b + x).frames;
    } else {
      ParseStable(b, x);
      if Parse(b).Got? {
        var f, n := Parse(b).frame, Parse(b).consumed;
        CutAppend(b[n..], x);
        assert (b + x)[n..] == b[n..] + x;
        var s := Cut(b[n..]);
        assert !s.failed ==> [f] + (s.frames + Cut(s.rest + x).frames) == [f] + s.frames + Cut(s.rest + x).frames;
      }
    }
  }

  lemma CutOnce(b: bytes)
    ensures var r := Parse(b);
            && (!r.Got? ==> Cut(b) == Stream([], b, r.Malformed?))
            && (r.Got? ==> Cut(b) == Cut(b[r.consumed..]).(frames := [r.frame] + Cut(b[r.consumed..]).frames))
  {
    hide Parse;
  }

  predicate AllLegal(fs: seq<Frame>) {
    forall i :: 0 <= i < |fs| ==> Legal(fs[i])
  }

  function EncodeAll(fs: seq<Frame>): bytes
    requires AllLegal(fs)
  {
    if fs == [] then [] else Encode(fs[0]) + EncodeAll(fs[1..])
  }

  /** Encoded frames are cut back into the same frames. */
  lemma {:induction false} CutEncoded(fs: seq<Frame>)
    requires AllLegal(fs)
    ensures Cut(EncodeAll(fs)) == Stream(fs, [], false)
  {
    hide Parse, Encode;
    if fs == [] {
      ParseNothing();
    } else {
      ParseEncode(fs[0], EncodeAll(fs[1..]));
      var e := Encode(fs[0]);
      assert (e + EncodeAll(fs[1..]))[|e|..] == EncodeAll(fs[1..]);
      CutEncoded(fs[1..]);
    }
  }

  lemma ParseNothing()
    ensures Parse([]).NeedMore?
  {
  }

  // Handling frames.

  datatype Conn = Conn(frag: Option<bytes>, closed: bool, messages: seq<bytes>, replies: seq<bytes>)

  const FRESH: Conn := Conn(None, false, [], [])

  function PongFor(payload: bytes): bytes {
    Encode(Frame(true, PONG, false, NO_KEY, payload))
  }

  function Handle(c: Conn, f: Frame): Conn {
    if c.closed then c
    else if f.opcode == TEXT || f.opcode == BINARY then
      if c.frag.Some? then c.(closed := true)
      else if f.fin then c.(messages := c.messages + [f.payload])
      else c.(frag := Some(f.payload))
    else if f.opcode == CONTINUATION then
      if c.frag.None? || |c.frag.value| + |f.payload| > MAX_BODY then c.(closed := true)
      else if f.fin then c.(frag := None, messages := c.messages + [c.frag.value + f.payload])
      else c.(frag := Some(c.frag.value + f.payload))
    else if f.opcode == PING then c.(replies := c.replies + [PongFor(f.payload)])
    else if f.opcode == CLOSE then c.(closed := true)
    else c
  }

  /** A ping is answered with an unmasked, unfragmented pong of the same payload. */
  lemma PongOnTheWire(payload: bytes)
    requires |payload| <= 125
    ensures PongFor(payload) == [0x8A, |payload|] + payload
  {
  }

  /** A message grows to at most four mebibytes. */
  lemma MessageLimit(c: Conn, f: Frame)
    requires !c.closed && c.frag.Some? && f.opcode == 0
    ensures Handle(c, f).closed <==> |c.frag.value| + |f.payload| > 4194304
  {
  }

  /** A fresh connection after some frames. */
  function Run(fs: seq<Frame>): Conn {
    if fs == [] then FRESH else Handle(Run(fs[..|fs| - 1]), fs[|fs| - 1])
  }

  lemma RunStep(fs: seq<Frame>, f: Frame)
    ensures Run(fs + [f]) == Handle(Run(fs), f)
  {
    assert (fs + [f])[..|fs|] == fs;
  }

  /** A closed connection stays as it is. */
  lemma {:induction false} ClosedStays(fs: seq<Frame>, more: seq<Frame>)
    requires Run(fs).closed
    ensures Run(fs + more) == Run(fs)
  {
    if more == [] {
      assert fs + more == fs;
    } else {
      var k := |more| - 1;
      ClosedStays(fs, more[..k]);
      RunStep(fs + more[..k], more[k]);
      assert fs + more[..k] + [more[k]] == fs + more;
    }
  }

  // Section 5.4, declaratively.

  predicate IsData(f: Frame) {
    f.opcode in {CONTINUATION, TEXT, BINARY}
  }

  function Data(fs: seq<Frame>): seq<Frame> {
    if fs == [] then []
    else
      var f, ds := fs[|fs| - 1], Data(fs[..|fs| - 1]);
      if IsData(f) then ds + [f] else ds
  }

  function Pongs(fs: seq<Frame>): seq<bytes> {
    if fs == [] then []
    else
      var f, ps := fs[|fs| - 1], Pongs(fs[..|fs| - 1]);
      if f.opcode == PING then ps + [PongFor(f.payload)] else ps
  }

  /** A first frame with an opcode and continuations after it, none but the last marked final. */
  predicate Fragments(g: seq<Frame>) {
    && g != [] && (g[0].opcode == TEXT || g[0].opcode == BINARY)
    && (forall i :: 0 < i < |g| ==> g[i].opcode == CONTINUATION)
    && (forall i :: 0 <= i < |g| - 1 ==> !g[i].fin)
    && (|g| > 1 ==> |Payload(g)| <= MAX_BODY)
  }

  predicate Complete(g: seq<Frame>) {
    Fragments(g) && g[|g| - 1].fin
  }

  predicate Unfinished(g: seq<Frame>) {
    Fragments(g) && !g[|g| - 1].fin
  }

  function Payload(g: seq<Frame>): bytes {
    if g == [] then [] else Payload(g[..|g| - 1]) + g[|g| - 1].payload
  }

  function Flatten(gs: seq<seq<Frame>>): seq<Frame> {
    if gs == [] then [] else Flatten(gs[..|gs| - 1]) + gs[|gs| - 1]
  }

  function Payloads(gs: seq<seq<Frame>>): seq<bytes> {
    seq(|gs|, i requires 0 <= i < |gs| => Payload(gs[i]))
  }

  /** The data frames are fragmented messages one after the other, the last one possibly unfinished. */
  predicate Decomposes(ds: seq<Frame>, gs: seq<seq<Frame>>, open: seq<Frame>) {
    && ds == Flatten(gs) + open
    && (forall g :: g in gs ==> Complete(g))
    && (open != [] ==> Unfinished(open))
  }

  ghost predicate Decomposable(ds: seq<Frame>) {
    exists gs, open :: Decomposes(ds, gs, open)
  }

  predicate NoClose(fs: seq<Frame>) {
    forall f :: f in fs ==> f.opcode != CLOSE
  }

  /** The connection that has delivered `gs` and holds `open`. */
  function Holding(gs: seq<seq<Frame>>, open: seq<Frame>, replies: seq<bytes>): Conn {
    Conn(if open == [] then None else Some(Payload(open)), false, Payloads(gs), replies)
  }

  lemma PayloadStep(g: seq<Frame>, f: Frame)
    ensures Payload(g + [f]) == Payload(g) + f.payload
  {
    assert (g + [f])[..|g|] == g;
  }

  lemma FlattenStep(gs: seq<seq<Frame>>, g: seq<Frame>)
    ensures Flatten(gs + [g]) == Flatten(gs) + g && Payloads(gs + [g]) == Payloads(gs) + [Payload(g)]
  {
    assert (gs + [g])[..|gs|] == gs;
  }

  /** The decomposition after one more data frame. */
  function Grown(gs: seq<seq<Frame>>, open: seq<Frame>, f: Frame): (seq<seq<Frame>>, seq<Frame>) {
    if f.fin then (gs + [open + [f]], []) else (gs, open + [f])
  }

  /** A data frame is accepted exactly when it continues or starts a fragmented message. */
  lemma HandleGrows(gs: seq<seq<Frame>>, open: seq<Frame>, replies: seq<bytes>, f: Frame)
    requires IsData(f) && (open != [] ==> Unfinished(open))
    ensures var c := Handle(Holding(gs, open, replies), f);
            && (c.closed <==> !Fragments(open + [f]))
            && (!c.closed ==> var (gs', open') := Grown(gs, open, f); c == Holding(gs', open', replies))
            && (c.closed ==> c == Holding(gs, open, replies).(closed := true))
  {
    hide Payload, Payloads, Fragments;
    PayloadStep(open, f);
    FlattenStep(gs, open + [f]);
    PayloadOfNone();
    assert open == [] ==> Payload(open) + f.payload == f.payload;
    MoreFragments(open, f);
  }

  /** What may come next: an opcode at the start, a continuation within the limit after that. */
  lemma MoreFragments(open: seq<Frame>, f: Frame)
    requires open != [] ==> Unfinished(open)
    ensures Fragments(open + [f]) <==>
            if open == [] then f.opcode == TEXT || f.opcode == BINARY
            else f.opcode == CONTINUATION && |Payload(open)| + |f.payload| <= MAX_BODY
  {
    hide Payload;
    PayloadStep(open, f);
    var g := open + [f];
    assert forall i :: 0 <= i < |open| ==> g[i] == open[i];
    assert g[|open|] == f;
  }

  lemma PayloadOfNone()
    ensures Payload([]) == []
  {
  }

  lemma GrownDecomposes(ds: seq<Frame>, gs: seq<seq<Frame>>, open: seq<Frame>, f: Frame)
    requires Decomposes(ds, gs, open) && Fragments(open + [f])
    ensures var (gs', open') := Grown(gs, open, f); Decomposes(ds + [f], gs', open')
  {
    hide Flatten, Fragments;
    FlattenStep(gs, open + [f]);
    assert Flatten(gs) + open + [f] == Flatten(gs) + (open + [f]);
  }

  /** A decomposition that ends in `f` grew from one without it. */
  lemma Shrink(ds: seq<Frame>, f: Frame, gs': seq<seq<Frame>>, open': seq<Frame>)
    returns (gs: seq<seq<Frame>>, open: seq<Frame>)
    requires Decomposes(ds + [f], gs', open')
    ensures Decomposes(ds, gs, open) && Fragments(open + [f]) && (gs', open') == Grown(gs, open, f)
  {
    hide Fragments, Flatten;
    var g;
    if open' == [] {
      LastGroup(ds + [f], gs');
      var k := |gs'| - 1;
      gs, g := gs'[..k], gs'[k];
      assert gs' == gs + [g];
    } else {
      gs, g := gs', open';
    }
    open := g[..|g| - 1];
    DropLast(Flatten(gs), g, ds, f);
    if |g| > 1 {
      PrefixFragments(g);
    }
  }

  lemma LastGroup(ds: seq<Frame>, gs: seq<seq<Frame>>)
    requires Decomposes(ds, gs, []) && ds != []
    ensures gs != [] && gs[|gs| - 1] in gs && gs[|gs| - 1] != [] && Complete(gs[|gs| - 1])
    ensures ds == Flatten(gs[..|gs| - 1]) + gs[|gs| - 1]
  {
  }

  lemma DropLast(a: seq<Frame>, g: seq<Frame>, ds: seq<Frame>, f: Frame)
    requires a + g == ds + [f] && g != []
    ensures g == g[..|g| - 1] + [f] && ds == a + g[..|g| - 1]
  {
    assert g[|g| - 1] == (a + g)[|ds|] == f;
    assert a + g[..|g| - 1] == (a + g)[..|ds|];
  }

  lemma PrefixFragments(g: seq<Frame>)
    requires Fragments(g) && |g| > 1
    ensures Unfinished(g[..|g| - 1])
  {
  }

  /** While a connection is open, its data frames decompose into what it delivered and what it holds. */
  lemma {:induction false} OpenRunDecomposes(fs: seq<Frame>) returns (gs: seq<seq<Frame>>, open: seq<Frame>)
    requires !Run(fs).closed
    ensures NoClose(fs) && Decomposes(Data(fs), gs, open) && Run(fs) == Holding(gs, open, Pongs(fs))
  {
    hide Decomposes, Fragments, Holding, PongFor, Unfinished;
    if fs == [] {
      gs, open := [], [];
      EmptyDecomposes();
    } else {
      var n, f := |fs| - 1, fs[|fs| - 1];
      gs, open := OpenRunDecomposes(fs[..n]);
      if IsData(f) {
        OpenUnfinished(Data(fs[..n]), gs, open);
        HandleGrows(gs, open, Pongs(fs[..n]), f);
        GrownDecomposes(Data(fs[..n]), gs, open, f);
        var grown := Grown(gs, open, f);
        gs, open := grown.0, grown.1;
      } else {
        ControlStep(gs, open, Pongs(fs[..n]), f);
      }
      assert fs == fs[..n] + [f];
    }
  }

  lemma EmptyDecomposes()
    ensures Decomposes([], [], []) && Holding([], [], []) == FRESH
  {
    assert Payloads([]) == [];
  }

  lemma OpenUnfinished(ds: seq<Frame>, gs: seq<seq<Frame>>, open: seq<Frame>)
    requires Decomposes(ds, gs, open)
    ensures open != [] ==> Unfinished(open)
  {
  }

  /** Control frames touch neither the messages nor the fragments held. */
  lemma ControlStep(gs: seq<seq<Frame>>, open: seq<Frame>, replies: seq<bytes>, f: Frame)
    requires !IsData(f)
    ensures Handle(Holding(gs, open, replies), f)
         == if f.opcode == CLOSE then Holding(gs, open, replies).(closed := true)
            else Holding(gs, open, if f.opcode == PING then replies + [PongFor(f.payload)] else replies)
  {
    hide PongFor, Payload, Payloads;
  }

  /** Whenever the data frames decompose and none is a close, exactly those messages are delivered. */
  lemma {:induction false} DecompositionIsDelivered(fs: seq<Frame>, gs: seq<seq<Frame>>, open: seq<Frame>)
    requires NoClose(fs) && Decomposes(Data(fs), gs, open)
    ensures Run(fs) == Holding(gs, open, Pongs(fs))
    decreases |fs|
  {
    hide Decomposes, Fragments, Holding, PongFor, Unfinished;
    if fs == [] {
      NothingDecomposes(gs, open);
      EmptyDecomposes();
    } else {
      var n, f := |fs| - 1, fs[|fs| - 1];
      if IsData(f) {
        var gs0, open0 := Shrink(Data(fs[..n]), f, gs, open);
        DecompositionIsDelivered(fs[..n], gs0, open0);
        OpenUnfinished(Data(fs[..n]), gs0, open0);
        HandleGrows(gs0, open0, Pongs(fs[..n]), f);
      } else {
        assert Data(fs) == Data(fs[..n]);
        DecompositionIsDelivered(fs[..n], gs, open);
        ControlStep(gs, open, Pongs(fs[..n]), f);
      }
    }
  }

  lemma NothingDecomposes(gs: seq<seq<Frame>>, open: seq<Frame>)
    requires Decomposes([], gs, open)
    ensures gs == [] && open == []
  {
    assert forall g :: g in gs ==> g != [];
    FlattenEmpty(gs);
  }

  lemma FlattenEmpty(gs: seq<seq<Frame>>)
    requires forall g :: g in gs ==> g != []
    ensures Flatten(gs) == [] <==> gs == []
  {
    if gs != [] {
      assert gs[|gs| - 1] in gs;
    }
  }

  /**
    A connection closes at its first close frame or at the first frame after
    which the data frames no longer decompose, and what it delivered is what
    the frames before that decompose into.
   */
  lemma {:induction false} ClosesAtFirstViolation(fs: seq<Frame>) returns (k: nat)
    requires Run(fs).closed
    ensures k < |fs| && !Run(fs[..k]).closed
    ensures Run(fs) == Run(fs[..k]).(closed := true)
    ensures fs[k].opcode == CLOSE || !Decomposable(Data(fs[..k + 1]))
  {
    hide Decomposes;
    var n, f := |fs| - 1, fs[|fs| - 1];
    if Run(fs[..n]).closed {
      k := ClosesAtFirstViolation(fs[..n]);
      assert fs[..n][..k] == fs[..k] && fs[..n][..k + 1] == fs[..k + 1];
    } else {
      k := n;
      assert fs[..k + 1] == fs;
      ClosingStep(Run(fs[..n]), f);
      if f.opcode != CLOSE {
        var gs0, open0 := OpenRunDecomposes(fs[..n]);
        assert fs == fs[..n] + [f];
        if Decomposable(Data(fs)) {
          var gs, open :| Decomposes(Data(fs), gs, open);
          DecompositionIsDelivered(fs, gs, open);
          assert false;
        }
      }
    }
  }

  lemma ClosingStep(c: Conn, f: Frame)
    requires !c.closed && Handle(c, f).closed
    ensures Handle(c, f) == c.(closed := true)
  {
  }

  /** A single frame that is a whole message. */
  predicate Unfragmented(f: Frame, message: bytes) {
    f.fin && (f.opcode == TEXT || f.opcode == BINARY) && f.payload == message
  }

  /** Whatever arrives, a message that is not the payload of one final frame has at most 4 MiB. */
  lemma {:induction false} ReassembledWithinLimit(fs: seq<Frame>, i: nat)
    requires i < |Run(fs).messages|
    ensures |Run(fs).messages[i]| <= MAX_BODY
            || exists j :: 0 <= j < |fs| && Unfragmented(fs[j], Run(fs).messages[i])
  {
    hide PongFor;
    var n := |fs| - 1;
    var before := Run(fs[..n]);
    if i < |before.messages| {
      ReassembledWithinLimit(fs[..n], i);
      assert forall j :: 0 <= j < n ==> fs[..n][j] == fs[j];
    } else {
      assert |Run(fs).messages[i]| <= MAX_BODY || Unfragmented(fs[n], Run(fs).messages[i]);
    }
  }

  /** Pings and pongs between any two frames change neither the messages nor what is held. */
  lemma {:induction false} ControlFramesAreTransparent(a: seq<Frame>, f: Frame, b: seq<Frame>)
    requires f.opcode == PING || f.opcode == PONG
    ensures var x, y := Run(a + [f] + b), Run(a + b);
            x.messages == y.messages && x.frag == y.frag && x.closed == y.closed
    decreases |b|
  {
    hide Run, Handle;
    if b == [] {
      RunStep(a, f);
      ControlHandling(Run(a), f);
      assert a + [f] + b == a + [f] && a + b == a;
    } else {
      var n, g := |b| - 1, b[|b| - 1];
      ControlFramesAreTransparent(a, f, b[..n]);
      RunStep(a + [f] + b[..n], g);
      RunStep(a + b[..n], g);
      SameHandling(Run(a + [f] + b[..n]), Run(a + b[..n]), g);
      assert a + [f] + b == a + [f] + b[..n] + [g] && a + b == a + b[..n] + [g];
    }
  }

  lemma SameHandling(x: Conn, y: Conn, f: Frame)
    requires x.messages == y.messages && x.frag == y.frag && x.closed == y.closed
    ensures var x', y' := Handle(x, f), Handle(y, f);
            x'.messages == y'.messages && x'.frag == y'.frag && x'.closed == y'.closed
  {
    hide PongFor;
  }

  lemma ControlHandling(c: Conn, f: Frame)
    requires f.opcode == PING || f.opcode == PONG
    ensures var c' := Handle(c, f); c'.messages == c.messages && c'.frag == c.frag && c'.closed == c.closed
  {
    hide PongFor;
  }

  // Whole connections.

  /** What a connection is after some bytes, however they arrived. */
  function After(received: bytes): Conn {
    var s := Cut(received);
    if s.failed then Run(s.frames).(closed := true) else Run(s.frames)
  }

  /** Fragmented messages that a peer encodes are delivered whole and in order. */
  lemma SentIsDelivered(fs: seq<Frame>, gs: seq<seq<Frame>>, open: seq<Frame>)
    requires AllLegal(fs) && NoClose(fs) && Decomposes(Data(fs), gs, open)
    ensures After(EncodeAll(fs)).messages == Payloads(gs) && After(EncodeAll(fs)).replies == Pongs(fs)
  {
    hide Cut, Run, EncodeAll, Decomposes;
    CutEncoded(fs);
    DecompositionIsDelivered(fs, gs, open);
  }

  /** The bytes `total` have been cut into `ds` so far, with `buf` left to cut. */
  ghost predicate CutTo(total: bytes, ds: seq<Frame>, buf: bytes) {
    Cut(total) == Cut(buf).(frames := ds + Cut(buf).frames)
  }

  lemma CutStep(total: bytes, ds: seq<Frame>, buf: bytes)
    requires CutTo(total, ds, buf)
    ensures match Parse(buf)
            case NeedMore => Cut(total) == Stream(ds, buf, false)
            case Malformed => Cut(total) == Stream(ds, buf, true)
            case Got(f, n) => CutTo(total, ds + [f], buf[n..])
  {
    hide Parse;
    if Parse(buf).Got? {
      var f, more := Parse(buf).frame, Cut(buf[Parse(buf).consumed..]).frames;
      assert ds + ([f] + more) == ds + [f] + more;
    } else {
      assert ds + [] == ds;
    }
  }

  lemma ClosedEarly(total: bytes, ds: seq<Frame>, buf: bytes)
    requires CutTo(total, ds, buf) && Run(ds).closed
    ensures After(total) == Run(ds)
  {
    hide Cut, Handle;
    ClosedStays(ds, Cut(buf).frames);
  }

  lemma OpenStream(b: bytes)
    requires !After(b).closed
    ensures !Cut(b).failed && After(b) == Run(Cut(b).frames)
  {
  }

  lemma ClosedForGood(received: bytes, chunk: bytes)
    requires After(received).closed
    ensures After(received + chunk) == After(received)
  {
    hide Cut, Handle;
    CutAppend(received, chunk);
    var s := Cut(received);
    if !s.failed {
      ClosedStays(s.frames, Cut(s.rest + chunk).frames);
    }
  }
}
