/**
  SHA-256 as FIPS 180-4 defines it, the streaming implementation that buffers
  partial blocks, and HMAC (RFC 2104) on top of it.
 */
module Sha256 {
  import opened Bytes

  type word = bv32

  // Section 4: functions and constants.

  function Rotr(x: word, n: word): word
    requires 0 < n < 32
  {
    (x >> n) | (x << (32 - n))
  }

  function Ch(x: word, y: word, z: word): word { (x & y) ^ (!x & z) }

  function Maj(x: word, y: word, z: word): word { (x & y) ^ (x & z) ^ (y & z) }

  function BigSigma0(x: word): word { Rotr(x, 2) ^ Rotr(x, 13) ^ Rotr(x, 22) }

  function BigSigma1(x: word): word { Rotr(x, 6) ^ Rotr(x, 11) ^ Rotr(x, 25) }

  function SmallSigma0(x: word): word { Rotr(x, 7) ^ Rotr(x, 18) ^ (x >> (3 as word)) }

  function SmallSigma1(x: word): word { Rotr(x, 17) ^ Rotr(x, 19) ^ (x >> (10 as word)) }

  const K: seq<seq<word>> := [
    [0x428a2f98, 0x71374491, 0xb5c0fbcf, 0xe9b5dba5, 0x3956c25b, 0x59f111f1, 0x923f82a4, 0xab1c5ed5],
    [0xd807aa98, 0x12835b01, 0x243185be, 0x550c7dc3, 0x72be5d74, 0x80deb1fe, 0x9bdc06a7, 0xc19bf174],
    [0xe49b69c1, 0xefbe4786, 0x0fc19dc6, 0x240ca1cc, 0x2de92c6f, 0x4a7484aa, 0x5cb0a9dc, 0x76f988da],
    [0x983e5152, 0xa831c66d, 0xb00327c8, 0xbf597fc7, 0xc6e00bf3, 0xd5a79147, 0x06ca6351, 0x14292967],
    [0x27b70a85, 0x2e1b2138, 0x4d2c6dfc, 0x53380d13, 0x650a7354, 0x766a0abb, 0x81c2c92e, 0x92722c85],
    [0xa2bfe8a1, 0xa81a664b, 0xc24b8b70, 0xc76c51a3, 0xd192e819, 0xd6990624, 0xf40e3585, 0x106aa070],
    [0x19a4c116, 0x1e376c08, 0x2748774c, 0x34b0bcb5, 0x391c0cb3, 0x4ed8aa4a, 0x5b9cca4f, 0x682e6ff3],
    [0x748f82ee, 0x78a5636f, 0x84c87814, 0x8cc70208, 0x90befffa, 0xa4506ceb, 0xbef9a3f7, 0xc67178f2]]

  function Constant(t: nat): word
    requires t < 64
  {
    K[t / 8][t % 8]
  }

  /** The eight working variables; also the chaining value. */
  datatype Vars = Vars(a: word, b: word, c: word, d: word, e: word, f: word, g: word, h: word)

  const INITIAL: Vars := Vars(0x6a09e667, 0xbb67ae85, 0x3c6ef372, 0xa54ff53a, 0x510e527f, 0x9b05688c, 0x1f83d9ab, 0x5be0cd19)

  // Section 6.2.2: the compression function.

  function BigEndian(b0: byte, b1: byte, b2: byte, b3: byte): word {
    ((b0 as word) << (24 as word)) | ((b1 as word) << (16 as word)) | ((b2 as word) << (8 as word)) | (b3 as word)
  }

  function Schedule(block: bytes, t: nat): word
    requires |block| == 64 && t < 64
  {
    if t < 16 then BigEndian(block[4 * t], block[4 * t + 1], block[4 * t + 2], block[4 * t + 3])
    else Expand(Schedule(block, t - 2), Schedule(block, t - 7), Schedule(block, t - 15), Schedule(block, t - 16))
  }

  function Expand(w2: word, w7: word, w15: word, w16: word): word {
    SmallSigma1(w2) + w7 + SmallSigma0(w15) + w16
  }

  function T1(e: word, f: word, g: word, h: word, k: word, w: word): word {
    h + BigSigma1(e) + Ch(e, f, g) + k + w
  }

  function Add(x: word, y: word): word { x + y }

  function T2(a: word, b: word, c: word): word { BigSigma0(a) + Maj(a, b, c) }

  function Round(v: Vars, k: word, w: word): Vars {
    var t1 := T1(v.e, v.f, v.g, v.h, k, w);
    Vars(Add(t1, T2(v.a, v.b, v.c)), v.a, v.b, v.c, Add(v.d, t1), v.e, v.f, v.g)
  }

  function Rounds(block: bytes, v: Vars, t: nat): Vars
    requires |block| == 64 && t <= 64
  {
    if t == 0 then v else Round(Rounds(block, v, t - 1), Constant(t - 1), Schedule(block, t - 1))
  }

  function Compress(h: Vars, block: bytes): Vars
    requires |block| == 64
  {
    AddVars(h, Rounds(block, h, 64))
  }

  function AddVars(x: Vars, y: Vars): Vars {
    Vars(x.a + y.a, x.b + y.b, x.c + y.c, x.d + y.d, x.e + y.e, x.f + y.f, x.g + y.g, x.h + y.h)
  }

  lemma OneBlockLess(n: nat)
    requires n > 0 && n % 64 == 0
    ensures n >= 64 && (n - 64) % 64 == 0
  {
    DivMod(n - 64, n / 64 - 1, 64, 0);
  }

  /** The chaining value after whole blocks. */
  function Fold(h: Vars, s: bytes): Vars
    requires |s| % 64 == 0
    decreases |s|
  {
    if s == [] then h else OneBlockLess(|s|); Fold(Compress(h, s[..64]), s[64..])
  }

  // Section 5.1.1: padding.

  function Zeros(n: nat): (z: bytes)
    ensures |z| == n
  {
    seq(n, _ => 0)
  }

  const UINT64: nat := 0x1_0000_0000_0000_0000

  /** A 64-bit number, most significant byte first. */
  function Length64(n: nat): (r: bytes)
    ensures |r| == 8
  {
    [n / 0x100_0000_0000_0000 % 256, n / 0x1_0000_0000_0000 % 256, n / 0x100_0000_0000 % 256, n / 0x1_0000_0000 % 256,
     n / 0x100_0000 % 256, n / 0x1_0000 % 256, n / 0x100 % 256, n % 256]
  }

  lemma PaddedLength(len: nat)
    ensures (len + 9 + (119 - len % 64) % 64) % 64 == 0
  {
    var q, r := len / 64, len % 64;
    assert len == 64 * q + r;
    var z := (119 - r) % 64;
    if r <= 55 {
      DivMod(119 - r, 1, 64, 55 - r);
      DivMod(len + 9 + z, q + 1, 64, 0);
    } else {
      DivMod(119 - r, 0, 64, 119 - r);
      DivMod(len + 9 + z, q + 2, 64, 0);
    }
  }

  /** One bit, zeros up to 56 bytes modulo 64, and the length in bits modulo 2^64. */
  function Padding(len: nat): (p: bytes)
    ensures |p| == 9 + (119 - len % 64) % 64
    ensures (len + |p|) % 64 == 0
  {
    PaddedLength(len);
    [0x80] + Zeros((119 - len % 64) % 64) + Length64(len * 8 % UINT64)
  }

  function WordBytes(w: word): (r: bytes)
    ensures |r| == 4
  {
    var n := w as int;
    [n / 0x100_0000 % 256, n / 0x1_0000 % 256, n / 0x100 % 256, n % 256]
  }

  function Digest(h: Vars): (d: bytes)
    ensures |d| == 32
  {
    WordBytes(h.a) + WordBytes(h.b) + WordBytes(h.c) + WordBytes(h.d)
    + WordBytes(h.e) + WordBytes(h.f) + WordBytes(h.g) + WordBytes(h.h)
  }

  function Hash(msg: bytes): (d: bytes)
    ensures |d| == 32
  {
    Digest(Fold(INITIAL, msg + Padding(|msg|)))
  }

  // RFC 2104.

  function XorAll(s: bytes, x: byte): (r: bytes)
    ensures |r| == |s|
  {
    seq(|s|, i requires 0 <= i < |s| => Xor(s[i], x))
  }

  /** The key filled up to one block; a longer key is hashed first. */
  function KeyBlock(key: bytes): (k: bytes)
    ensures |k| == 64
  {
    if |key| > 64 then Hash(key) + Zeros(32) else key + Zeros(64 - |key|)
  }

  function Hmac(key: bytes, msg: bytes): (d: bytes)
    ensures |d| == 32
  {
    Hash(XorAll(KeyBlock(key), 0x5C) + Hash(XorAll(KeyBlock(key), 0x36) + msg))
  }

  // Blocks of a growing message.

  lemma {:induction false} FoldConcat(h: Vars, s: bytes, t: bytes)
    requires |s| % 64 == 0 && |t| % 64 == 0
    ensures Fold(h, s + t) == Fold(Fold(h, s), t)
    decreases |s|
  {
    hide Compress;
    if s == [] {
      assert s + t == t;
    } else {
      assert (s + t)[..64] == s[..64] && (s + t)[64..] == s[64..] + t;
      FoldConcat(Compress(h, s[..64]), s[64..], t);
    }
  }

  lemma FoldOne(h: Vars, block: bytes)
    requires |block| == 64
    ensures Fold(h, block) == Compress(h, block)
  {
    hide Compress;
    assert block[..64] == block && block[64..] == [];
  }

  function Full(m: bytes): (r: bytes)
    ensures |r| % 64 == 0
  {
    m[..|m| - |m| % 64]
  }

  function Tail(m: bytes): (r: bytes)
    ensures |r| == |m| % 64
  {
    m[|m| - |m| % 64..]
  }

  /** Bytes that do not complete a block. */
  lemma GrowTail(m: bytes, d: bytes)
    requires |Tail(m)| + |d| < 64
    ensures |m + d| % 64 == |m| % 64 + |d| && Full(m + d) == Full(m) && Tail(m + d) == Tail(m) + d
  {
    DivMod(|m| + |d|, |m| / 64, 64, |m| % 64 + |d|);
  }

  /** Bytes that complete a block. */
  lemma GrowBlock(m: bytes, d: bytes)
    requires |Tail(m)| + |d| == 64
    ensures |m + d| % 64 == 0 && Full(m + d) == Full(m) + (Tail(m) + d) && Tail(m + d) == []
  {
    DivMod(|m| + |d|, |m| / 64 + 1, 64, 0);
    assert m == Full(m) + Tail(m);
  }

  // The streaming implementation.

  /** `sha256_transform`: the message schedule in an array, the variables rotated in place. */
  method Transform(h: Vars, data: bytes) returns (r: Vars)
    requires |data| == 64
    ensures r == Compress(h, data)
  {
    hide Expand, BigEndian, Compress, Schedule;
    var m := new word[64](_ => 0);
    for i := 0 to 16
      invariant forall t :: 0 <= t < i ==> m[t] == Schedule(data, t)
    {
      ScheduleAt(data, i);
      m[i] := BigEndian(data[4 * i], data[4 * i + 1], data[4 * i + 2], data[4 * i + 3]);
    }
    for i := 16 to 64
      invariant forall t :: 0 <= t < i ==> m[t] == Schedule(data, t)
    {
      ScheduleAt(data, i);
      m[i] := Expand(m[i - 2], m[i - 7], m[i - 15], m[i - 16]);
    }
    r := RunRounds(h, data, m);
  }

  lemma ScheduleAt(block: bytes, t: nat)
    requires |block| == 64 && t < 64
    ensures t < 16 ==>
              Schedule(block, t) == BigEndian(block[4 * t], block[4 * t + 1], block[4 * t + 2], block[4 * t + 3])
    ensures t >= 16 ==>
              Schedule(block, t)
              == Expand(Schedule(block, t - 2), Schedule(block, t - 7), Schedule(block, t - 15), Schedule(block, t - 16))
  {
    hide Expand, BigEndian;
  }

  method RunRounds(v0: Vars, ghost data: bytes, m: array<word>) returns (r: Vars)
    requires |data| == 64 && m.Length == 64 && forall t :: 0 <= t < 64 ==> m[t] == Schedule(data, t)
    ensures r == Compress(v0, data)
  {
    hide Schedule, T1, T2, Constant, Add, AddVars;
    var a, b, c, d, e, f, g, h := v0.a, v0.b, v0.c, v0.d, v0.e, v0.f, v0.g, v0.h;
    for i := 0 to 64
      invariant Vars(a, b, c, d, e, f, g, h) == Rounds(data, v0, i)
    {
      var t1 := T1(e, f, g, h, Constant(i), m[i]);
      var t2 := T2(a, b, c);
      h := g;
      g := f;
      f := e;
      e := Add(d, t1);
      d := c;
      c := b;
      b := a;
      a := Add(t1, t2);
    }
    r := AddVars(v0, Vars(a, b, c, d, e, f, g, h));
  }

  class Context {
    var state: Vars
    var count: nat
    const buffer: array<byte>
    /** Everything hashed so far. */
    ghost var msg: bytes

    ghost predicate Valid()
      reads this, buffer
    {
      count == |msg| % UINT64 && Holds()
    }

    constructor ()
      ensures Valid() && fresh(buffer) && msg == []
    {
      state, count, msg := INITIAL, 0, [];
      buffer := new byte[64](_ => 0);
      new;
      assert buffer[..0] == [];
    }

    method Copy(at: nat, s: bytes)
      requires at + |s| <= buffer.Length
      modifies buffer
      ensures buffer[..at] == old(buffer[..at]) && buffer[at..at + |s|] == s
      ensures buffer[at + |s|..] == old(buffer[at + |s|..])
    {
      for i := 0 to |s|
        invariant buffer[..at] == old(buffer[..at])
        invariant forall j :: 0 <= j < i ==> buffer[at + j] == s[j]
        invariant forall j :: at + |s| <= j < buffer.Length ==> buffer[j] == old(buffer[j])
      {
        buffer[at + i] := s[i];
      }
    }

    ghost predicate Holds()
      reads this, buffer
    {
      && buffer.Length == 64
      && state == Fold(INITIAL, Full(msg))
      && buffer[..|msg| % 64] == Tail(msg)
    }

    /** Copies bytes into the current block and compresses it when it is full. */
    method Fill(idx: nat, part: bytes) returns (next: nat)
      requires Holds() && idx == |msg| % 64 && idx + |part| <= 64
      modifies this`state, this`msg, buffer
      ensures Holds() && msg == old(msg) + part && next == |msg| % 64
    {
      hide Compress, Fold;
      Copy(idx, part);
      assert buffer[..idx + |part|] == buffer[..idx] + buffer[idx..idx + |part|];
      if idx + |part| == 64 {
        GrowBlock(msg, part);
        FoldConcat(INITIAL, Full(msg), Tail(msg) + part);
        FoldOne(state, Tail(msg) + part);
        assert buffer[..] == buffer[..64];
        state := Transform(state, buffer[..]);
        next := 0;
      } else {
        GrowTail(msg, part);
        next := idx + |part|;
      }
      msg := msg + part;
    }

    /** `sha256_update`. */
    method Update(data: bytes)
      requires Valid()
      modifies this, buffer
      ensures Valid() && msg == old(msg) + data
    {
      hide Fold, Full, Tail;
      var idx := count % 64;
      CountMod(|msg|);
      CountAdd(|msg|, |data|);
      count := (count + |data|) % UINT64;
      var p := 0;
      ghost var start := msg;
      assert start + data[..0] == start;
      while p < |data|
        invariant 0 <= p <= |data| && Holds()
        invariant msg == start + data[..p] && idx == |msg| % 64
        invariant count == (|start| + |data|) % UINT64
      {
        var take := 64 - idx;
        if take > |data| - p { take := |data| - p; }
        idx := Fill(idx, data[p..p + take]);
        assert start + data[..p] + data[p..p + take] == start + data[..p + take];
        p := p + take;
      }
      assert data[..p] == data;
    }

    /** The padding up to the length field, through a block of its own if it does not fit. */
    method PadTo56(ghost t: bytes, n: nat)
      requires buffer.Length == 64 && n == |t| < 64 && buffer[..n] == t
      modifies this`state, buffer
      ensures n + 1 <= 56 ==> state == old(state) && buffer[..56] == t + [0x80] + Zeros(55 - n)
      ensures n + 1 > 56 ==> state == Compress(old(state), t + [0x80] + Zeros(63 - n)) && buffer[..56] == Zeros(56)
    {
      hide Compress;
      Copy(n, [0x80]);
      var i := n + 1;
      assert buffer[..i] == t + [0x80];
      if i > 56 {
        Copy(i, Zeros(64 - i));
        assert buffer[..] == t + [0x80] + Zeros(64 - i);
        state := Transform(state, buffer[..]);
        Copy(0, Zeros(56));
        assert buffer[..56] == Zeros(56);
      } else {
        Copy(i, Zeros(56 - i));
        assert buffer[..56] == t + [0x80] + Zeros(56 - i);
      }
    }

    /** `sha256_final`. */
    method Final() returns (digest: bytes)
      requires Valid()
      modifies this, buffer
      ensures digest == Hash(old(msg))
    {
      hide Compress, Fold, Digest, Length64, Hash;
      CountMod(|msg|);
      LastBlocks(msg);
      BitCount(|msg|);
      PadTo56(Tail(msg), count % 64);
      ghost var head := buffer[..56];
      var length := Length64(count * 8 % UINT64);
      Copy(56, length);
      assert buffer[..] == head + length;
      state := Transform(state, buffer[..]);
      digest := Digest(state);
    }
  }

  lemma CountMod(n: nat)
    ensures n % UINT64 % 64 == n % 64
  {
    DivMod(n, n / UINT64 * 0x400_0000_0000_0000 + n % UINT64 / 64, 64, n % UINT64 % 64);
  }

  lemma CountAdd(n: nat, m: nat)
    ensures (n % UINT64 + m) % UINT64 == (n + m) % UINT64
  {
    var r := n % UINT64 + m;
    DivMod(n + m, n / UINT64 + r / UINT64, UINT64, r % UINT64);
  }

  lemma BitCount(n: nat)
    ensures n % UINT64 * 8 % UINT64 == n * 8 % UINT64
  {
    var q, r := n / UINT64, n % UINT64;
    DivMod(n * 8, q * 8 + r * 8 / UINT64, UINT64, r * 8 % UINT64);
  }

  /** The padded message is its full blocks and one or two more. */
  lemma LastBlocks(msg: bytes)
    ensures var t, n := Tail(msg), |msg| % 64;
            var len := Length64(|msg| * 8 % UINT64);
            var h := Fold(INITIAL, Full(msg));
            && (n + 1 <= 56 ==> Hash(msg) == Digest(Compress(h, t + [0x80] + Zeros(55 - n) + len)))
            && (n + 1 > 56 ==> Hash(msg) == Digest(Compress(Compress(h, t + [0x80] + Zeros(63 - n)), Zeros(56) + len)))
  {
    hide Compress, Fold, Digest, Length64;
    var t, n := Tail(msg), |msg| % 64;
    var len := Length64(|msg| * 8 % UINT64);
    var h := Fold(INITIAL, Full(msg));
    assert msg == Full(msg) + t;
    var last := t + Padding(|msg|);
    assert msg + Padding(|msg|) == Full(msg) + last;
    FoldConcat(INITIAL, Full(msg), last);
    if n + 1 <= 56 {
      assert (119 - n) % 64 == 55 - n;
      assert last == t + [0x80] + Zeros(55 - n) + len;
      FoldOne(h, last);
    } else {
      assert (119 - n) % 64 == 119 - n;
      var one, two := t + [0x80] + Zeros(63 - n), Zeros(56) + len;
      assert Zeros(119 - n) == Zeros(63 - n) + Zeros(56);
      assert last == one + two;
      FoldConcat(h, one, two);
      FoldOne(h, one);
      FoldOne(Compress(h, one), two);
    }
  }

  /** Any split of a message over updates hashes to the same digest. */
  method HashParts(parts: seq<bytes>) returns (digest: bytes)
    ensures digest == Hash(Concat(parts))
  {
    var c := new Context();
    for i := 0 to |parts|
      invariant c.Valid() && c.msg == Concat(parts[..i]) && fresh(c) && fresh(c.buffer)
    {
      c.Update(parts[i]);
      ConcatLast(parts[..i], parts[i]);
      assert parts[..i + 1] == parts[..i] + [parts[i]];
    }
    assert parts[..|parts|] == parts;
    digest := c.Final();
  }

  /** `hmac_sha256`. */
  method HmacSha256(key: bytes, data: bytes) returns (out: bytes)
    ensures out == Hmac(key, data)
  {
    hide Hash;
    var pad: bytes := Zeros(64);
    if |key| > 64 {
      var d := HashParts([key]);
      ConcatOne(key);
      pad := d + Zeros(32);
    } else if |key| > 0 {
      pad := key + Zeros(64 - |key|);
    } else {
      assert key + Zeros(64) == Zeros(64);
    }
    assert pad == KeyBlock(key);
    var ipad: bytes, opad: bytes := [], [];
    for i := 0 to 64
      invariant |ipad| == |opad| == i
      invariant forall j :: 0 <= j < i ==> ipad[j] == Xor(pad[j], 0x36) && opad[j] == Xor(pad[j], 0x5C)
    {
      ipad, opad := ipad + [Xor(pad[i], 0x36)], opad + [Xor(pad[i], 0x5C)];
    }
    assert ipad == XorAll(pad, 0x36) && opad == XorAll(pad, 0x5C);
    var inner := HashParts([ipad, data]);
    JoinTwo(ipad, data);
    out := HashParts([opad, inner]);
    JoinTwo(opad, inner);
  }

  lemma ConcatOne(a: bytes)
    ensures Concat([a]) == a
  {
    assert [a][1..] == [] && a + [] == a;
  }

  lemma JoinTwo(a: bytes, b: bytes)
    ensures Concat([a, b]) == a + b
  {
    assert [a, b][1..] == [b];
    ConcatOne(b);
  }
}
