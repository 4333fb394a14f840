/**
  URL-safe base64 (RFC 4648, section 5): unpadded encoding, and a decoder that takes
  both alphabets and any padding, driven by a 32-bit accumulator that overflows.
 */
module Base64Url {
  import opened Bytes

  type sextet = v: int | 0 <= v < 64

  function Alphabet(v: sextet): byte {
    if v < 26 then 0x41 + v
    else if v < 52 then 0x61 + (v - 26)
    else if v < 62 then 0x30 + (v - 52)
    else if v == 62 then MINUS
    else UNDERSCORE
  }

  /** `b64url_char_val`: -2 for padding, -1 for anything foreign. */
  function CharValue(c: byte): (v: int)
    ensures -2 <= v < 64
  {
    if 0x41 <= c <= 0x5A then Low(c, 0x41)
    else if 0x61 <= c <= 0x7A then Low(c, 0x61) + 26
    else if 0x30 <= c <= 0x39 then Low(c, 0x30) + 52
    else if c == MINUS || c == PLUS then 62
    else if c == UNDERSCORE || c == SLASH then 63
    else if c == EQUALS then -2
    else -1
  }

  lemma CharOfValue(v: sextet)
    ensures CharValue(Alphabet(v)) == v && Alphabet(v) != EQUALS && Alphabet(v) != DOT
  {
  }

  // Groups of three bytes and of four sextets.

  /** The last `k` base-64 digits of a number, most significant first. */
  function Digits64(v: nat, k: nat): (ds: seq<sextet>)
    ensures |ds| == k
  {
    if k == 0 then [] else Digits64(v / 64, k - 1) + [v % 64]
  }

  /** The sextets of a 24-bit group. */
  function Group(v: int): (g: seq<sextet>)
    requires 0 <= v < 0x100_0000
    ensures |g| == 4
  {
    Digits64(v, 4)
  }

  function Bits24(a: int, b: int, c: int): int {
    a * 0x1_0000 + b * 0x100 + c
  }

  /** Whole groups, then one or two bytes filled up with zero bits. */
  function Sextets(data: bytes): seq<sextet> {
    if |data| == 0 then []
    else if |data| == 1 then Group(Bits24(data[0], 0, 0))[..2]
    else if |data| == 2 then Group(Bits24(data[0], data[1], 0))[..3]
    else Group(Bits24(data[0], data[1], data[2])) + Sextets(data[3..])
  }

  function Spell(vs: seq<sextet>): (s: bytes)
    ensures |s| == |vs|
  {
    seq(|vs|, i requires 0 <= i < |vs| => Alphabet(vs[i]))
  }

  function Encode(data: bytes): bytes {
    Spell(Sextets(data))
  }

  /** The bytes that sextets complete, and the bits left over. */
  datatype Packed = Packed(data: bytes, rem: nat)

  function Pack(vs: seq<sextet>): Packed {
    if |vs| == 0 then Packed([], 0)
    else if |vs| == 1 then Packed([], vs[0])
    else if |vs| == 2 then Packed([Byte1(vs[0], vs[1])], vs[1] % 16)
    else if |vs| == 3 then Packed([Byte1(vs[0], vs[1]), Byte2(vs[1] % 16, vs[2])], vs[2] % 4)
    else
      var more := Pack(vs[4..]);
      Packed([Byte1(vs[0], vs[1]), Byte2(vs[1] % 16, vs[2]), Byte3(vs[2] % 4, vs[3])] + more.data, more.rem)
  }

  // A byte: the bits left over from a sextet, followed by the leading bits of the next one.

  function Byte1(hi: nat, v: sextet): byte
    requires hi < 64
  {
    hi * 4 + v / 16
  }

  function Byte2(hi: nat, v: sextet): byte
    requires hi < 16
  {
    hi * 16 + v / 4
  }

  function Byte3(hi: nat, v: sextet): byte
    requires hi < 4
  {
    hi * 64 + v
  }

  predicate InAlphabet(c: byte) {
    CharValue(c) >= 0
  }

  function Values(s: bytes): (vs: seq<sextet>)
    requires forall i :: 0 <= i < |s| ==> InAlphabet(s[i])
    ensures |vs| == |s|
  {
    seq(|s|, i requires 0 <= i < |s| => SextetOf(s[i]))
  }

  function SextetOf(c: byte): sextet
    requires InAlphabet(c)
  {
    CharValue(c)
  }

  /** What is left after stripping padding must be spelled in either alphabet. */
  predicate Spelled(s: bytes) {
    var k := Find(s, EQUALS);
    && (forall i :: 0 <= i < k ==> InAlphabet(s[i]))
    && (forall i :: k <= i < |s| ==> s[i] == EQUALS)
  }

  function Decode(s: bytes): Option<bytes> {
    if !Spelled(s) then None
    else
      var vs := Values(s[..Find(s, EQUALS)]);
      if |vs| % 4 == 1 || Pack(vs).rem != 0 then None else Some(Pack(vs).data)
  }

  /** The same text without padding, in the URL-safe alphabet. */
  function Canonical(s: bytes): bytes
    requires Spelled(s)
  {
    Spell(Values(s[..Find(s, EQUALS)]))
  }

  // Round trips.

  lemma PackGroup(a: byte, b: byte, c: byte)
    ensures var g := Group(Bits24(a, b, c));
            && |g| == 4
            && Byte1(g[0], g[1]) == a
            && Byte2(g[1] % 16, g[2]) == b
            && Byte3(g[2] % 4, g[3]) == c
            && (c == 0 ==> g[2] % 4 == 0)
            && (b == 0 && c == 0 ==> g[1] % 16 == 0)
  {
    hide Group;
    var v := Bits24(a, b, c);
    var a1: int, a0: int, b1: int, b0: int, c1: int, c0: int := a / 4, a % 4, b / 16, b % 16, c / 64, c % 64;
    var g1, g2 := a0 * 16 + b1, b0 * 4 + c1;
    assert v == a1 * 0x4_0000 + g1 * 0x1000 + g2 * 64 + c0;
    GroupDigits(v, a1, g1, g2, c0);
    DivMod(g1, a0, 16, b1);
    DivMod(g2, b0, 4, c1);
    assert a1 * 4 + a0 == a && b1 * 16 + b0 == b && c1 * 64 + c0 == c;
  }

  /** A number below 2^24 in base 64. */
  lemma GroupDigits(v: int, a: sextet, b: sextet, c: sextet, d: sextet)
    requires v == a * 0x4_0000 + b * 0x1000 + c * 64 + d
    ensures 0 <= v < 0x100_0000 && Group(v) == [a, b, c, d]
  {
    hide Digits64;
    var ia: int, ib: int, ic: int := a, b, c;
    var v1, v2 := ia * 0x1000 + ib * 64 + ic, ia * 64 + ib;
    LastDigit(v, v1, d, 4);
    LastDigit(v1, v2, c, 3);
    LastDigit(v2, ia, b, 2);
    LastDigit(ia, 0, a, 1);
    NoDigits(0);
  }

  lemma LastDigit(v: nat, rest: nat, d: sextet, k: nat)
    requires v == rest * 64 + d && k > 0
    ensures Digits64(v, k) == Digits64(rest, k - 1) + [d]
  {
    DivMod(v, rest, 64, d);
  }

  lemma NoDigits(v: nat)
    ensures Digits64(v, 0) == []
  {
  }

  lemma PackPair(a: byte)
    ensures var vs := Group(Bits24(a, 0, 0))[..2]; |vs| == 2 && Pack(vs) == Packed([a], 0)
  {
    hide Byte1, Byte2, Byte3, Group, Bits24;
    PackGroup(a, 0, 0);
  }

  lemma PackTriple(a: byte, b: byte)
    ensures var vs := Group(Bits24(a, b, 0))[..3]; |vs| == 3 && Pack(vs) == Packed([a, b], 0)
  {
    hide Byte1, Byte2, Byte3, Group, Bits24;
    PackGroup(a, b, 0);
  }

  lemma PackWhole(a: byte, b: byte, c: byte, more: seq<sextet>)
    ensures var vs := Group(Bits24(a, b, c)) + more;
            |vs| == 4 + |more| && Pack(vs) == Packed([a, b, c] + Pack(more).data, Pack(more).rem)
  {
    hide Byte1, Byte2, Byte3, Group;
    PackGroup(a, b, c);
    assert (Group(Bits24(a, b, c)) + more)[4..] == more;
  }

  lemma {:induction false} PackSextets(data: bytes)
    ensures Pack(Sextets(data)) == Packed(data, 0)
    decreases |data|
  {
    hide Pack, Group, Bits24;
    if |data| == 0 {
      PackNothing();
    } else if |data| == 1 {
      PackPair(data[0]);
      assert data == [data[0]];
    } else if |data| == 2 {
      PackTriple(data[0], data[1]);
      assert data == [data[0], data[1]];
    } else {
      PackSextets(data[3..]);
      PackWhole(data[0], data[1], data[2], Sextets(data[3..]));
      assert data == [data[0], data[1], data[2]] + data[3..];
    }
  }

  /** No encoding leaves a single sextet over. */
  lemma {:induction false} NeverOneOver(data: bytes)
    ensures |Sextets(data)| % 4 != 1
    decreases |data|
  {
    hide Digits64, Bits24;
    if |data| >= 3 {
      NeverOneOver(data[3..]);
    }
  }

  lemma ValuesOfSpell(vs: seq<sextet>)
    ensures forall i :: 0 <= i < |vs| ==> InAlphabet(Spell(vs)[i])
    ensures Find(Spell(vs), EQUALS) == |vs|
    ensures Values(Spell(vs)) == vs
  {
    forall i | 0 <= i < |vs| ensures CharValue(Spell(vs)[i]) == vs[i] && Spell(vs)[i] != EQUALS {
      CharOfValue(vs[i]);
    }
  }

  /** Decoding an encoding gives every byte string back. */
  lemma DecodeEncode(data: bytes)
    ensures Decode(Encode(data)) == Some(data)
  {
    hide Find;
    var s, vs := Encode(data), Sextets(data);
    PackSextets(data);
    NeverOneOver(data);
    ValuesOfSpell(vs);
    assert s[..|vs|] == s;
  }

  lemma SextetsGroup(a: sextet, b: sextet, c: sextet, d: sextet)
    ensures Group(Bits24(Byte1(a, b), Byte2(b % 16, c), Byte3(c % 4, d))) == [a, b, c, d]
  {
    assert b == b / 16 * 16 + b % 16 && c == c / 4 * 4 + c % 4;
    var v := Bits24(Byte1(a, b), Byte2(b % 16, c), Byte3(c % 4, d));
    GroupDigits(v, a, b, c, d);
  }

  lemma {:induction false} SextetsPack(vs: seq<sextet>)
    requires |vs| % 4 != 1 && Pack(vs).rem == 0
    ensures Sextets(Pack(vs).data) == vs
    decreases |vs|
  {
    hide Group, Byte1, Byte2, Byte3, Bits24;
    if |vs| == 0 {
      PackNothing();
    } else if |vs| == 2 {
      PairOfSextets(vs[0], vs[1]);
      assert vs == [vs[0], vs[1]];
    } else if |vs| == 3 {
      TripleOfSextets(vs[0], vs[1], vs[2]);
      assert vs == [vs[0], vs[1], vs[2]];
    } else {
      SextetsGroup(vs[0], vs[1], vs[2], vs[3]);
      SextetsPack(vs[4..]);
      var d := Pack(vs).data;
      assert d[3..] == Pack(vs[4..]).data;
      assert vs == vs[..4] + vs[4..];
    }
  }

  /** Bits that are not there. */
  lemma NoBits(z: sextet)
    requires z == 0
    ensures Byte2(z, z) == 0 && Byte3(z, z) == 0
  {
  }

  lemma PairOfSextets(a: sextet, b: sextet)
    requires b % 16 == 0
    ensures Group(Bits24(Byte1(a, b), 0, 0))[..2] == [a, b]
  {
    hide Group, Byte1, Byte2, Byte3, Bits24;
    var z: sextet := 0;
    NoBits(z);
    SextetsGroup(a, b, z, z);
  }

  lemma TripleOfSextets(a: sextet, b: sextet, c: sextet)
    requires c % 4 == 0
    ensures Group(Bits24(Byte1(a, b), Byte2(b % 16, c), 0))[..3] == [a, b, c]
  {
    hide Group, Byte1, Byte2, Byte3, Bits24;
    var z: sextet := 0;
    NoBits(z);
    SextetsGroup(a, b, c, z);
  }

  /** Any accepted text encodes back to its canonical form, so decoding is injective on canonical texts. */
  lemma EncodeDecode(s: bytes)
    requires Decode(s).Some?
    ensures Encode(Decode(s).value) == Canonical(s)
  {
    SextetsPack(Values(s[..Find(s, EQUALS)]));
  }

  /** The canonical form keeps URL-safe characters and maps the two others. */
  lemma CanonicalCharacters(s: bytes, i: nat)
    requires Spelled(s) && i < Find(s, EQUALS)
    ensures Canonical(s)[i] == if s[i] == PLUS then MINUS else if s[i] == SLASH then UNDERSCORE else s[i]
  {
  }

  // The source's loops.

  method EncodeLoop(data: bytes) returns (out: bytes)
    ensures out == Encode(data)
  {
    var i := 0;
    var vs: seq<sextet> := [];
    assert data[0..] == data;
    while i + 2 < |data|
      invariant 0 <= i <= |data|
      invariant vs + Sextets(data[i..]) == Sextets(data)
    {
      var g := Group(Bits24(data[i], data[i + 1], data[i + 2]));
      assert data[i..][3..] == data[i + 3..];
      assert vs + (g + Sextets(data[i + 3..])) == (vs + g) + Sextets(data[i + 3..]);
      vs := vs + g;
      i := i + 3;
    }
    if i < |data| {
      if |data| - i == 1 {
        vs := vs + Group(Bits24(data[i], 0, 0))[..2];
      } else {
        vs := vs + Group(Bits24(data[i], data[i + 1], 0))[..3];
      }
    } else {
      assert vs + [] == vs;
    }
    out := Spell(vs);
  }

  /** One more sextet. */
  lemma {:induction false} PackAppend(vs: seq<sextet>, v: sextet)
    ensures var p, q := Pack(vs), Pack(vs + [v]);
            && (|vs| % 4 == 0 ==> q == Packed(p.data, v))
            && (|vs| % 4 == 1 ==> p.rem < 64 && q == Packed(p.data + [Byte1(p.rem, v)], v % 16))
            && (|vs| % 4 == 2 ==> p.rem < 16 && q == Packed(p.data + [Byte2(p.rem, v)], v % 4))
            && (|vs| % 4 == 3 ==> p.rem < 4 && q == Packed(p.data + [Byte3(p.rem, v)], 0))
    decreases |vs|
  {
    hide Byte1, Byte2, Byte3;
    if |vs| >= 4 {
      PackAppend(vs[4..], v);
      assert (vs + [v])[4..] == vs[4..] + [v];
    } else if |vs| == 3 {
      assert (vs + [v])[4..] == [];
    }
  }

  /** How many bits are pending after `n` sextets. */
  function PendingBits(n: nat): nat {
    if n % 4 == 0 then 0 else if n % 4 == 1 then 6 else if n % 4 == 2 then 4 else 2
  }

  const WORD: nat := 0x1_0000_0000

  /** The accumulator after one more sextet, in 32 bits. */
  function Shifted(val: nat, v: sextet): (x: nat)
    ensures x < WORD
  {
    (val * 64 + v) % WORD
  }

  /** `x >> n`. */
  function Drop(x: nat, n: nat): nat
    decreases n
  {
    if n == 0 then x else Drop(x / 2, n - 1)
  }

  /** The last `n` bits, `x & ((1 << n) - 1)`. */
  function Keep(x: nat, n: nat): nat
    decreases n
  {
    if n == 0 then 0 else 2 * Keep(x / 2, n - 1) + x % 2
  }

  /** The low bits of the accumulator are right although its high bits are lost. */
  lemma Accumulate(val: nat, v: sextet)
    requires val < WORD
    ensures var x := Shifted(val, v);
            && x % 64 == v
            && x % 4096 == val % 64 * 64 + v
            && x % 1024 == val % 16 * 64 + v
            && x % 256 == val % 4 * 64 + v
  {
    LowDigits(val, v, 0x10_0000, 64);
    LowDigits(val, v, 0x40_0000, 16);
    LowDigits(val, v, 0x100_0000, 4);
    LowDigits(val, v, 0x400_0000, 1);
  }

  /** Reduction modulo 2^32 does not touch the low digits. */
  lemma LowDigits(val: nat, v: sextet, k: nat, m: nat)
    requires m > 0 && k * (m * 64) == WORD
    ensures Shifted(val, v) % (m * 64) == val % m * 64 + v
  {
    var d := m * 64;
    var y := val * 64 + v;
    var w := y % WORD;
    var low := val % m * 64 + v;
    assert val % m <= m - 1;
    assert 0 <= low < d;
    var q := val / m - y / WORD * k;
    assert w == q * d + low by {
      assert y == y / WORD * (k * d) + w;
      assert val == val / m * m + val % m;
    }
    DivMod(w, q, d, low);
  }

  lemma TopBits(x: nat)
    ensures x / 16 % 256 == x % 4096 / 16 && x % 16 == x % 4096 % 16
    ensures x / 4 % 256 == x % 1024 / 4 && x % 4 == x % 1024 % 4
  {
    var q, r := x / 4096, x % 4096;
    DivMod(x, q * 256 + r / 16, 16, r % 16);
    DivMod(q * 256 + r / 16, q, 256, r / 16);
    var q', r' := x / 1024, x % 1024;
    DivMod(x, q' * 256 + r' / 4, 4, r' % 4);
    DivMod(q' * 256 + r' / 4, q', 256, r' / 4);
  }

  /** `b64url_decode`. */
  method DecodeLoop(s: bytes) returns (r: Option<bytes>)
    ensures r == Decode(s)
  {
    hide Pack, Byte1, Byte2, Byte3, Find, Drop, Keep, CharValue;
    CharValuePadding();
    var val: nat, bits: nat := 0, 0;
    var out: bytes := [];
    ghost var vs: seq<sextet> := [];
    PackNothing();
    KeepMeans(val);
    var i := 0;
    while i < |s|
      invariant 0 <= i <= |s| && |vs| == i && val < WORD && bits == PendingBits(i)
      invariant forall j :: 0 <= j < i ==> InAlphabet(s[j]) && CharValue(s[j]) == vs[j]
      invariant out == Pack(vs).data
      invariant Keep(val, bits) == Pack(vs).rem
    {
      var v := CharValue(s[i]);
      if v == -2 {
        for k := i + 1 to |s|
          invariant forall j :: i <= j < k ==> s[j] == EQUALS
        {
          if s[k] != EQUALS {
            assert Find(s, EQUALS) == i;
            return None;
          }
        }
        break;
      }
      if v < 0 {
        assert Find(s, EQUALS) > i;
        return None;
      }
      AbsorbByte(vs, v, val);
      AbsorbRest(vs, v, val);
      NextPending(i);
      val := Shifted(val, v);
      bits := bits + 6;
      if bits >= 8 {
        bits := bits - 8;
        out := out + [Drop(val, bits) % 256];
      }
      vs := vs + [v];
      i := i + 1;
    }
    assert Find(s, EQUALS) == i;
    assert Values(s[..i]) == vs;
    KeepMeans(val);
    if bits >= 6 || (bits > 0 && Keep(val, bits) != 0) { return None; }
    return Some(out);
  }

  lemma CharValuePadding()
    ensures forall c: byte :: CharValue(c) == -2 <==> c == EQUALS
  {
  }

  lemma PackNothing()
    ensures Pack([]) == Packed([], 0)
  {
  }

  /** The byte that one pass of the decoding loop completes. */
  lemma AbsorbByte(vs: seq<sextet>, v: sextet, val: nat)
    requires val < WORD && Keep(val, PendingBits(|vs|)) == Pack(vs).rem
    ensures Pack(vs + [v]).data
         == if PendingBits(|vs|) == 0 then Pack(vs).data
            else Pack(vs).data + [Drop(Shifted(val, v), PendingBits(|vs| + 1)) % 256]
  {
    hide Pack, Byte1, Byte2, Byte3, Shifted, Drop, Keep;
    PackAppend(vs, v);
    NextPending(|vs|);
    KeepMeans(val);
    DropMeans(Shifted(val, v));
    var rem := Pack(vs).rem;
    if PendingBits(|vs|) == 6 {
      Absorb6(val, v, rem);
    } else if PendingBits(|vs|) == 4 {
      Absorb4(val, v, rem);
    } else if PendingBits(|vs|) == 2 {
      Absorb2(val, v, rem);
    }
  }

  /** The bits it leaves pending in the accumulator. */
  lemma AbsorbRest(vs: seq<sextet>, v: sextet, val: nat)
    requires val < WORD && Keep(val, PendingBits(|vs|)) == Pack(vs).rem
    ensures Keep(Shifted(val, v), PendingBits(|vs| + 1)) == Pack(vs + [v]).rem
  {
    hide Pack, Byte1, Byte2, Byte3, Shifted, Drop, Keep;
    PackAppend(vs, v);
    NextPending(|vs|);
    KeepMeans(val);
    KeepMeans(Shifted(val, v));
    var rem := Pack(vs).rem;
    if PendingBits(|vs|) == 0 {
      Accumulate(val, v);
    } else if PendingBits(|vs|) == 6 {
      Absorb6(val, v, rem);
    } else if PendingBits(|vs|) == 4 {
      Absorb4(val, v, rem);
    }
  }

  lemma NextPending(n: nat)
    ensures PendingBits(n + 1) == if PendingBits(n) + 6 >= 8 then PendingBits(n) - 2 else PendingBits(n) + 6
    ensures (n + 1) % 4 == if n % 4 == 3 then 0 else n % 4 + 1
  {
    DivMod(n + 1, if n % 4 == 3 then n / 4 + 1 else n / 4, 4, if n % 4 == 3 then 0 else n % 4 + 1);
  }

  lemma KeepMeans(x: nat)
    ensures Keep(x, 0) == 0 && Keep(x, 2) == x % 4 && Keep(x, 4) == x % 16 && Keep(x, 6) == x % 64
  {
    hide Keep;
    KeepTwo(x, 0);
    KeepTwo(x / 4, 0);
    KeepTwo(x / 16, 0);
    KeepTwo(x / 4, 2);
    KeepTwo(x, 2);
    KeepTwo(x, 4);
    KeepNone(x);
    KeepNone(x / 4);
    KeepNone(x / 16);
    KeepNone(x / 64);
    assert x / 4 / 4 == x / 16 && x / 16 / 4 == x / 64;
    assert x % 16 == x / 4 % 4 * 4 + x % 4;
    assert x % 64 == x / 4 % 16 * 4 + x % 4;
    assert x / 4 % 16 == x / 16 % 4 * 4 + x / 4 % 4;
  }

  lemma KeepNone(x: nat)
    ensures Keep(x, 0) == 0
  {
  }

  lemma KeepTwo(x: nat, n: nat)
    ensures Keep(x, n + 2) == 4 * Keep(x / 4, n) + x % 4
  {
    assert Keep(x / 2, n + 1) == 2 * Keep(x / 2 / 2, n) + x / 2 % 2;
    assert x / 2 / 2 == x / 4 && x % 4 == x / 2 % 2 * 2 + x % 2;
  }

  lemma DropMeans(x: nat)
    ensures Drop(x, 0) == x && Drop(x, 2) == x / 4 && Drop(x, 4) == x / 16
  {
    hide Drop;
    DropTwo(x, 0);
    DropTwo(x, 2);
    DropTwo(x / 4, 0);
    DropNone(x);
    DropNone(x / 4);
    DropNone(x / 16);
    assert x / 4 / 4 == x / 16;
  }

  lemma DropNone(x: nat)
    ensures Drop(x, 0) == x
  {
  }

  lemma DropTwo(x: nat, n: nat)
    ensures Drop(x, n + 2) == Drop(x / 4, n)
  {
    assert Drop(x / 2, n + 1) == Drop(x / 2 / 2, n);
    assert x / 2 / 2 == x / 4;
  }

  lemma Absorb6(val: nat, v: sextet, rem: nat)
    requires val < WORD && val % 64 == rem
    ensures var x := Shifted(val, v); x / 16 % 256 == Byte1(rem, v) && x % 16 == v % 16
  {
    Accumulate(val, v);
    TopBits(Shifted(val, v));
    DivMod(rem * 64 + v, rem * 4 + v / 16, 16, v % 16);
  }

  lemma Absorb4(val: nat, v: sextet, rem: nat)
    requires val < WORD && val % 16 == rem
    ensures var x := Shifted(val, v); x / 4 % 256 == Byte2(rem, v) && x % 4 == v % 4
  {
    Accumulate(val, v);
    TopBits(Shifted(val, v));
    DivMod(rem * 64 + v, rem * 16 + v / 4, 4, v % 4);
  }

  lemma Absorb2(val: nat, v: sextet, rem: nat)
    requires val < WORD && val % 4 == rem
    ensures var x := Shifted(val, v); x / 1 % 256 == Byte3(rem, v)
  {
    Accumulate(val, v);
    var x := Shifted(val, v);
    assert x / 1 == x;
  }
}
