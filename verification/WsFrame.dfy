/** The WebSocket frame codec (RFC 6455 sections 5.2 to 5.5). */
module WsFrame {
  import opened Bytes

  const CONTINUATION: byte := 0
  const TEXT: byte := 1
  const BINARY: byte := 2
  const CLOSE: byte := 8
  const PING: byte := 9
  const PONG: byte := 10

  const MAX_LENGTH: nat := 0x8000_0000_0000_0000

  datatype Frame = Frame(fin: bool, opcode: byte, masked: bool, key: bytes, payload: bytes)

  datatype Parsed = NeedMore | Malformed | Got(frame: Frame, consumed: nat)

  predicate Known(opcode: byte) {
    opcode in {CONTINUATION, TEXT, BINARY, CLOSE, PING, PONG}
  }

  predicate IsControl(opcode: byte) {
    opcode >= 8
  }

  const NO_KEY: bytes := [0, 0, 0, 0]

  /** The frames RFC 6455 allows on the wire. */
  predicate Legal(f: Frame) {
    && Known(f.opcode) && |f.key| == 4 && (!f.masked ==> f.key == NO_KEY)
    && (IsControl(f.opcode) ==> f.fin && |f.payload| <= 125)
    && |f.payload| < MAX_LENGTH
  }

  /** Masking; with the zero key it changes nothing. */
  function Masked(s: bytes, key: bytes): (r: bytes)
    requires |key| == 4
    ensures |r| == |s|
  {
    seq(|s|, i requires 0 <= i < |s| => Xor(s[i], key[i % 4]))
  }

  lemma MaskTwice(s: bytes, key: bytes)
    requires |key| == 4
    ensures Masked(Masked(s, key), key) == s
  {
    forall i | 0 <= i < |s|
      ensures Masked(Masked(s, key), key)[i] == s[i]
    {
      XorCancels(s[i], key[i % 4]);
    }
  }

  // Big-endian lengths.

  function Number(s: bytes): nat {
    if s == [] then 0 else Number(s[..|s| - 1]) * 256 + s[|s| - 1]
  }

  function Spell(n: nat, width: nat): (r: bytes)
    ensures |r| == width
  {
    if width == 0 then [] else Spell(n / 256, width - 1) + [n % 256]
  }

  function Pow256(k: nat): nat {
    if k == 0 then 1 else 256 * Pow256(k - 1)
  }

  lemma {:induction false} NumberOfSpelled(n: nat, width: nat)
    requires n < Pow256(width)
    ensures Number(Spell(n, width)) == n
  {
    if width > 0 {
      NumberOfSpelled(n / 256, width - 1);
      assert Spell(n, width)[..width - 1] == Spell(n / 256, width - 1);
    }
  }

  lemma {:induction false} SpelledNumber(s: bytes)
    ensures Number(s) < Pow256(|s|) && Spell(Number(s), |s|) == s
  {
    if s != [] {
      var t := s[..|s| - 1];
      SpelledNumber(t);
      DivMod(Number(s), Number(t), 256, s[|s| - 1]);
      assert s == t + [s[|s| - 1]];
    }
  }

  lemma Powers()
    ensures Pow256(2) == 0x1_0000 && Pow256(4) == 0x1_0000_0000 && Pow256(8) == 2 * MAX_LENGTH
  {
    assert Pow256(4) == 0x1_0000_0000;
    assert Pow256(6) == 0x1_0000_0000_0000;
  }

  /** The top bit of the first octet is the top bit of the number. */
  lemma TopBit(s: bytes)
    requires |s| == 8
    ensures s[0] >= 128 <==> Number(s) >= MAX_LENGTH
  {
    NumberSplit(s, 1);
    SpelledNumber(s[1..]);
    Pow7();
    assert Number(s[..1]) == s[0] by { assert s[..1][..0] == []; }
  }

  lemma Pow7()
    ensures Pow256(7) == 0x100_0000_0000_0000
  {
    assert Pow256(4) == 0x1_0000_0000;
  }

  lemma {:induction false} NumberSplit(s: bytes, k: nat)
    requires k <= |s|
    ensures Number(s) == Number(s[..k]) * Pow256(|s| - k) + Number(s[k..])
    decreases |s|
  {
    if k == |s| {
      assert s[..k] == s && s[k..] == [];
    } else {
      var t := s[..|s| - 1];
      NumberSplit(t, k);
      assert t[..k] == s[..k] && t[k..] == s[k..][..|s| - k - 1];
      Rescale(Number(s[..k]), Pow256(|t| - k), Number(t[k..]), s[|s| - 1]);
    }
  }

  lemma Rescale(a: nat, p: nat, b: nat, c: nat)
    ensures (a * p + b) * 256 + c == a * (256 * p) + (b * 256 + c)
  {
  }

  // Headers.

  datatype Header = Header(fin: bool, opcode: byte, masked: bool, key: bytes, length: nat, size: nat)
  datatype HeaderResult = Short | Bad | Head(header: Header)

  /** The length field behind the two fixed octets: its octets and its value. */
  datatype LengthResult = LengthShort | LengthBad | Length(value: nat, width: nat)

  function ReadLength(b: bytes): (r: LengthResult)
    requires |b| >= 2
    ensures r.Length? ==> r.width <= 8 && 2 + r.width <= |b| && r.value < MAX_LENGTH
  {
    var short: int := b[1] % 128;
    if short == 126 then
      if |b| < 4 then LengthShort else
        NumberOfTwo(b[2..4]);
        Length(Number(b[2..4]), 2)
    else if short == 127 then
      if |b| < 10 then LengthShort
      else if b[2] >= 128 then LengthBad
      else
        TopBit(b[2..10]);
        Length(Number(b[2..10]), 8)
    else Length(short, 0)
  }

  lemma NumberOfTwo(s: bytes)
    requires |s| == 2
    ensures Number(s) < 0x1_0000
  {
    SpelledNumber(s);
    Powers();
  }

  predicate FixedOk(b0: byte, b1: byte) {
    && b0 / 16 % 8 == 0
    && Known(b0 % 16)
    && (IsControl(b0 % 16) ==> b0 >= 128 && b1 % 128 <= 125)
  }

  function ReadHeader(b: bytes): (r: HeaderResult)
    ensures r.Head? ==> |r.header.key| == 4 && 2 <= r.header.size <= |b|
  {
    if |b| < 2 then Short
    else if !FixedOk(b[0], b[1]) then Bad
    else
      match ReadLength(b)
      case LengthShort => Short
      case LengthBad => Bad
      case Length(n, w) =>
        if b[1] < 128 then Head(Header(b[0] >= 128, b[0] % 16, false, NO_KEY, n, 2 + w))
        else if |b| < w + 6 then Short
        else Head(Header(b[0] >= 128, b[0] % 16, true, b[w + 2..w + 6], n, w + 6))
  }

  function Unmasked(h: Header, raw: bytes): bytes
    requires |h.key| == 4
  {
    if h.masked then Masked(raw, h.key) else raw
  }

  function Parse(b: bytes): (r: Parsed)
    ensures r.Got? ==> 2 <= r.consumed <= |b|
  {
    match ReadHeader(b)
    case Short => NeedMore
    case Bad => Malformed
    case Head(h) =>
      if |b| < h.size + h.length then NeedMore
      else Got(Frame(h.fin, h.opcode, h.masked, h.key, Unmasked(h, b[h.size..h.size + h.length])), h.size + h.length)
  }

  // Encoding.

  function Width(n: nat): nat {
    if n <= 125 then 0 else if n <= 0xFFFF then 2 else 8
  }

  function LengthCode(n: nat): (c: nat)
    ensures c < 128
  {
    if n <= 125 then n else if n <= 0xFFFF then 126 else 127
  }

  function EncodeHeader(f: Frame): bytes {
    var n := |f.payload|;
    [(if f.fin then 128 else 0) + f.opcode % 16, (if f.masked then 128 else 0) + LengthCode(n)]
    + Spell(n, Width(n)) + (if f.masked then f.key else [])
  }

  function Encode(f: Frame): bytes
    requires |f.key| == 4
  {
    EncodeHeader(f) + (if f.masked then Masked(f.payload, f.key) else f.payload)
  }

  // The wire format, octet by octet (RFC 6455 section 5.2).

  /** How many octets of length follow the first two. */
  function ExtraOctets(b1: byte): nat {
    if b1 % 128 == 126 then 2 else if b1 % 128 == 127 then 8 else 0
  }

  /** Seven bits, or a big-endian number of two or eight octets. */
  lemma LengthOctets(b: bytes)
    requires |b| >= 2 && ReadLength(b).Length?
    ensures var w := ExtraOctets(b[1]);
            && ReadLength(b).width == w && |b| >= 2 + w
            && ReadLength(b).value ==
               (if w == 0 then b[1] % 128
                else if w == 2 then 256 * (b[2] as int) + b[3]
                else FourOctets(b[2..6]) * 0x1_0000_0000 + FourOctets(b[6..10]))
  {
    hide Number, FourOctets;
    if ExtraOctets(b[1]) == 2 {
      var s := b[2..4];
      NumberStep(s, 0);
      NumberStep(s, 1);
      NumberNone();
      assert s[..2] == s && s[..0] == [];
    } else if ExtraOctets(b[1]) == 8 {
      var s := b[2..10];
      NumberSplit(s, 4);
      Powers();
      assert s[..4] == b[2..6] && s[4..] == b[6..10];
      NumberOfFour(s[..4]);
      NumberOfFour(s[4..]);
    }
  }

  function FourOctets(s: bytes): int
    requires |s| == 4
  {
    0x100_0000 * (s[0] as int) + 0x1_0000 * (s[1] as int) + 0x100 * (s[2] as int) + s[3]
  }

  lemma NumberOfFour(s: bytes)
    requires |s| == 4
    ensures Number(s) == FourOctets(s)
  {
    hide Number;
    NumberStep(s, 0);
    NumberStep(s, 1);
    NumberStep(s, 2);
    NumberStep(s, 3);
    NumberNone();
    assert s[..4] == s && s[..0] == [];
  }

  lemma NumberStep(s: bytes, i: nat)
    requires i < |s|
    ensures Number(s[..i + 1]) == Number(s[..i]) * 256 + s[i]
  {
    assert s[..i + 1][..i] == s[..i];
  }

  lemma NumberNone()
    ensures Number([]) == 0
  {
  }

  /** Where the payload starts: after the length octets, and the key if there is one. */
  function PayloadAt(b1: byte): nat {
    2 + ExtraOctets(b1) + (if b1 >= 128 then 4 else 0)
  }

  /** What is read from a received buffer: flags, opcode, length, and each payload octet unmasked by its key octet. */
  lemma ReadFromWire(b: bytes, i: nat)
    requires Parse(b).Got?
    ensures var f, at := Parse(b).frame, PayloadAt(b[1]);
            && f.fin == (b[0] >= 128) && f.opcode == b[0] % 16 && f.masked == (b[1] >= 128)
            && |f.payload| == ReadLength(b).value && Parse(b).consumed == at + |f.payload|
            && (i < |f.payload| ==>
                  f.payload[i] == if b[1] >= 128 then Xor(b[at + i], b[at - 4 + i % 4]) else b[at + i])
  {
    hide Number, Xor;
    LengthOctets(b);
    var f, at := Parse(b).frame, PayloadAt(b[1]);
    var raw := b[at..at + |f.payload|];
    assert ReadHeader(b).header.size == at;
    assert i < |f.payload| ==> raw[i] == b[at + i];
  }

  /** What is refused: reserved bits, unknown opcodes, fragmented or long control frames, lengths from 2^63 on. */
  lemma RefusedFromWire(b: bytes)
    ensures Parse(b).Malformed? <==>
            && |b| >= 2
            && (|| b[0] / 16 % 8 != 0
                || b[0] % 16 !in {0, 1, 2, 8, 9, 10}
                || (b[0] % 16 >= 8 && (b[0] < 128 || b[1] % 128 > 125))
                || (b[1] % 128 == 127 && |b| >= 10 && b[2] >= 128))
  {
    hide Number;
  }

  /** The length of an encoded frame. */
  lemma EncodedSize(f: Frame)
    requires |f.key| == 4
    ensures var n := |f.payload|;
            |Encode(f)| == n + (if n <= 125 then 2 else if n <= 65535 then 4 else 10) + (if f.masked then 4 else 0)
  {
  }

  // Deciding early is deciding for good.

  lemma LengthStable(b: bytes, x: bytes)
    requires |b| >= 2 && !ReadLength(b).LengthShort?
    ensures ReadLength(b + x) == ReadLength(b)
  {
    hide Number;
    assert |b| >= 4 ==> (b + x)[2..4] == b[2..4];
    assert |b| >= 10 ==> (b + x)[2..10] == b[2..10];
  }

  lemma HeaderStable(b: bytes, x: bytes)
    requires !ReadHeader(b).Short?
    ensures ReadHeader(b + x) == ReadHeader(b)
  {
    hide ReadLength, FixedOk;
    if FixedOk(b[0], b[1]) {
      LengthStable(b, x);
      var l := ReadLength(b);
      assert l.Length? && |b| >= l.width + 6 ==> (b + x)[l.width + 2..l.width + 6] == b[l.width + 2..l.width + 6];
    }
  }

  /** Once a buffer yields a frame or an error, more bytes do not change it. */
  lemma ParseStable(b: bytes, x: bytes)
    requires !Parse(b).NeedMore?
    ensures Parse(b + x) == Parse(b)
  {
    hide ReadHeader, Unmasked;
    HeaderStable(b, x);
    var r := ReadHeader(b);
    if r.Head? {
      var h := r.header;
      assert (b + x)[h.size..h.size + h.length] == b[h.size..h.size + h.length];
    }
  }

  // Round trip.

  lemma FixedOctets(fin: bool, opcode: byte, masked: bool, code: nat)
    requires opcode < 16 && code < 128
    ensures var b0, b1 := (if fin then 128 else 0) + opcode, (if masked then 128 else 0) + code;
            && (b0 >= 128 <==> fin) && b0 % 16 == opcode && b0 / 16 % 8 == 0
            && (b1 >= 128 <==> masked) && b1 % 128 == code
  {
  }

  lemma EncodedLength(f: Frame, x: bytes)
    requires |f.payload| < MAX_LENGTH
    requires f.opcode < 16
    ensures var n := |f.payload|;
            |EncodeHeader(f) + x| >= 2 && ReadLength(EncodeHeader(f) + x) == Length(n, Width(n))
  {
    hide Number, Spell;
    var n, b := |f.payload|, EncodeHeader(f) + x;
    FixedOctets(f.fin, f.opcode, f.masked, LengthCode(n));
    var w := Width(n);
    assert b[2..2 + w] == Spell(n, w);
    Powers();
    if w > 0 {
      NumberOfSpelled(n, w);
    }
    if w == 8 {
      TopBit(b[2..10]);
    }
  }

  lemma EncodedHeader(f: Frame, x: bytes)
    requires Legal(f)
    ensures ReadHeader(EncodeHeader(f) + x)
         == Head(Header(f.fin, f.opcode, f.masked, f.key, |f.payload|, |EncodeHeader(f)|))
  {
    hide ReadLength, Spell;
    var n, b := |f.payload|, EncodeHeader(f) + x;
    EncodedLength(f, x);
    FixedOctets(f.fin, f.opcode, f.masked, LengthCode(n));
    var w := Width(n);
    assert f.masked ==> b[w + 2..w + 6] == f.key;
  }

  /** Every legal frame comes back, whatever follows it, and exactly its own bytes are consumed. */
  lemma ParseEncode(f: Frame, rest: bytes)
    requires Legal(f)
    ensures Parse(Encode(f) + rest) == Got(f, |Encode(f)|)
  {
    hide ReadHeader, EncodeHeader, Masked;
    var h, body := EncodeHeader(f), if f.masked then Masked(f.payload, f.key) else f.payload;
    assert Encode(f) + rest == h + (body + rest);
    EncodedHeader(f, body + rest);
    assert (h + (body + rest))[|h|..|h| + |body|] == body;
    MaskTwice(f.payload, f.key);
  }

  /** Every strict prefix of an encoded frame asks for more. */
  lemma PrefixNeedsMore(f: Frame, k: nat)
    requires Legal(f) && k < |Encode(f)|
    ensures Parse(Encode(f)[..k]).NeedMore?
  {
    hide Parse, Encode;
    var e := Encode(f);
    if !Parse(e[..k]).NeedMore? {
      ParseStable(e[..k], e[k..]);
      assert e[..k] + e[k..] == e + [] == e;
      ParseEncode(f, []);
      assert false;
    }
  }

  /** Whatever parses is legal. */
  lemma ParsedIsLegal(b: bytes)
    requires Parse(b).Got?
    ensures Legal(Parse(b).frame)
  {
    hide Number, Masked;
    var h := ReadHeader(b).header;
    assert h.length < MAX_LENGTH;
    assert IsControl(h.opcode) ==> h.length <= 125;
  }

  /** The length is written in the shortest of the three forms. */
  predicate Shortest(b: bytes)
    requires |b| >= 2
  {
    ReadLength(b).Length? && Width(ReadLength(b).value) == ReadLength(b).width
  }

  lemma LengthSpelled(b: bytes)
    requires |b| >= 2 && Shortest(b)
    ensures var l := ReadLength(b);
            LengthCode(l.value) == b[1] % 128 && Spell(l.value, l.width) == b[2..2 + l.width]
  {
    hide Number, Spell;
    SpelledNumber(b[2..2 + ReadLength(b).width]);
    assert ReadLength(b).width == 0 ==> Spell(ReadLength(b).value, 0) == [];
  }

  lemma EncodedIsShortest(f: Frame, rest: bytes)
    requires Legal(f)
    ensures |Encode(f) + rest| >= 2 && Shortest(Encode(f) + rest)
  {
    hide ReadLength, EncodeHeader;
    var h := EncodeHeader(f);
    var x := Encode(f)[|h|..] + rest;
    EncodedLength(f, x);
    assert h + x == Encode(f) + rest;
  }

  lemma HeaderSpelled(b: bytes, f: Frame)
    requires ReadHeader(b).Head? && Shortest(b)
    requires var h := ReadHeader(b).header;
             f.fin == h.fin && f.opcode == h.opcode && f.masked == h.masked && f.key == h.key && |f.payload| == h.length
    ensures EncodeHeader(f) == b[..ReadHeader(b).header.size]
  {
    hide ReadLength, Spell, LengthCode, Width;
    var h := ReadHeader(b).header;
    var w := ReadLength(b).width;
    LengthSpelled(b);
    FirstOctet(b[0]);
    var e := EncodeHeader(f);
    assert e[0] == b[0] && e[1] == b[1];
    assert e[2..2 + w] == b[2..2 + w];
    assert e[2 + w..] == b[2 + w..h.size];
    assert e == e[..2] + e[2..2 + w] + e[2 + w..];
    assert b[..h.size] == b[..2] + b[2..2 + w] + b[2 + w..h.size];
  }

  lemma FirstOctet(b0: byte)
    requires b0 / 16 % 8 == 0
    ensures b0 == (if b0 >= 128 then 128 else 0) + b0 % 16
  {
  }

  /** The bytes of a parsed frame are its encoding exactly when the length form is the shortest. */
  lemma EncodeParsed(b: bytes)
    requires Parse(b).Got?
    ensures Encode(Parse(b).frame) == b[..Parse(b).consumed] <==> Shortest(b)
  {
    hide ReadHeader, EncodeHeader, Masked, ReadLength;
    ParsedIsLegal(b);
    var f, n, h := Parse(b).frame, Parse(b).consumed, ReadHeader(b).header;
    var raw := b[h.size..n];
    MaskTwice(raw, h.key);
    ReadLengthOfHeader(b);
    assert b == b[..n] + b[n..];
    if Encode(f) == b[..n] {
      EncodedIsShortest(f, b[n..]);
    }
    if Shortest(b) {
      HeaderSpelled(b, f);
      assert b[..n] == b[..h.size] + raw;
    }
  }

  /** One byte announced in the two-octet form: longer than it has to be, and accepted. */
  lemma LongerFormAccepted()
    ensures var b := [0x82, 0x7E, 0x00, 0x01, 0x61];
            Parse(b) == Got(Frame(true, BINARY, false, NO_KEY, [0x61]), 5) && !Shortest(b)
  {
    var b: bytes := [0x82, 0x7E, 0x00, 0x01, 0x61];
    assert b[2..4] == [0x00, 0x01];
    assert Number(b[2..4]) == 1 by {
      assert b[2..4][..1] == [0x00] && [0x00][..0] == [];
    }
    assert ReadLength(b) == Length(1, 2);
    assert b[4..5] == [0x61];
  }

  lemma ReadLengthOfHeader(b: bytes)
    requires ReadHeader(b).Head?
    ensures ReadLength(b).Length? && ReadLength(b).value == ReadHeader(b).header.length
    ensures |ReadHeader(b).header.key| == 4 && Known(ReadHeader(b).header.opcode)
  {
  }

  // The source's loops.

  /** Exclusive or with the four key octets in turn, into a fresh buffer. */
  method MaskLoop(src: bytes, key: bytes) returns (out: bytes)
    requires |key| == 4
    ensures out == Masked(src, key)
  {
    hide Xor;
    var a := new byte[|src|](_ => 0);
    for i := 0 to |src|
      invariant forall j :: 0 <= j < i ==> a[j] == Xor(src[j], key[j % 4])
    {
      a[i] := Xor(src[i], key[i % 4]);
    }
    out := a[..];
  }

  /** `mcp_ws_parse_frame`. */
  method ParseFrame(buf: bytes) returns (r: Parsed)
    ensures r == Parse(buf)
  {
    hide Masked, Number;
    if |buf| < 2 { return NeedMore; }
    var b0, b1 := buf[0], buf[1];
    var fin := b0 >= 128;
    if b0 / 16 % 8 != 0 { return Malformed; }
    var opcode := b0 % 16;
    if !Known(opcode) { return Malformed; }
    if IsControl(opcode) && !fin { return Malformed; }
    var masked := b1 >= 128;
    var length: nat := b1 % 128;
    if IsControl(opcode) && length > 125 { return Malformed; }
    var size := 2;
    if length == 126 {
      size := size + 2;
      if |buf| < size { return NeedMore; }
      length := BigEndian(buf[2..4]);
    } else if length == 127 {
      size := size + 8;
      if |buf| < size { return NeedMore; }
      if buf[2] >= 128 { return Malformed; }
      length := BigEndian(buf[2..10]);
    }
    assert ReadLength(buf) == Length(length, size - 2);
    var key := NO_KEY;
    if masked {
      if |buf| < size + 4 { return NeedMore; }
      key := buf[size..size + 4];
      size := size + 4;
    }
    if |buf| < size + length { return NeedMore; }
    var payload := buf[size..size + length];
    if masked { payload := MaskLoop(payload, key); }
    return Got(Frame(fin, opcode, masked, key, payload), size + length);
  }

  method BigEndian(s: bytes) returns (n: nat)
    ensures n == Number(s)
  {
    n := 0;
    for i := 0 to |s|
      invariant n == Number(s[..i])
    {
      n := n * 256 + s[i];
      assert s[..i + 1][..i] == s[..i];
    }
    assert s[..|s|] == s;
  }

  /** `mcp_ws_encode_frame`; the payload length is a 64-bit number. */
  method EncodeFrame(f: Frame) returns (out: bytes)
    requires |f.key| == 4 && |f.payload| < 2 * MAX_LENGTH
    ensures out == Encode(f)
  {
    hide Masked, Spell;
    var n := |f.payload|;
    var bit := if f.masked then 128 else 0;
    out := [(if f.fin then 128 else 0) + f.opcode % 16];
    if n <= 125 {
      out := out + [bit + n];
      assert Spell(n, 0) == [];
    } else if n <= 0xFFFF {
      var length := SpellLoop(n, 2);
      out := out + [bit + 126] + length;
    } else {
      var length := SpellLoop(n, 8);
      out := out + [bit + 127] + length;
    }
    if f.masked {
      out := out + f.key;
      assert out == EncodeHeader(f);
      var body := MaskLoop(f.payload, f.key);
      out := out + body;
    } else {
      assert out == EncodeHeader(f);
      out := out + f.payload;
    }
  }

  /** `n >> 8 * i`. */
  function ShiftOctets(n: nat, i: nat): nat
    decreases i
  {
    if i == 0 then n else ShiftOctets(n / 256, i - 1)
  }

  lemma {:induction false} ShiftOnce(n: nat, i: nat)
    ensures ShiftOctets(n, i) / 256 == ShiftOctets(n, i + 1)
    decreases i
  {
    if i > 0 {
      ShiftOnce(n / 256, i - 1);
    }
  }

  /** Octets from the most significant down. */
  method SpellLoop(n: nat, width: nat) returns (r: bytes)
    requires width <= 8
    ensures r == Spell(n, width)
  {
    r := [];
    var i := width;
    while i > 0
      invariant 0 <= i <= width
      invariant r == Spell(ShiftOctets(n, i), width - i)
    {
      i := i - 1;
      ShiftOnce(n, i);
      r := r + [ShiftOctets(n, i) % 256];
    }
  }
}
