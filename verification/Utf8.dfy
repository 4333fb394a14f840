/**
  The table-driven UTF-8 validator of the JSON backend and its encoder, against
  the grammar of section 4 of RFC 3629.
 */
module Utf8 {
  import opened Bytes

  // The automaton's states that the C code names.
  const ACCEPT: nat := 0
  const REJECT: nat := 1

  type State = s: nat | s < 9

  /** First part of the table: the character class of a byte. */
  function ByteClass(b: byte): (c: nat)
    ensures c < 12
  {
    if b < 0x80 then 0
    else if b < 0x90 then 1
    else if b < 0xA0 then 9
    else if b < 0xC0 then 7
    else if b < 0xC2 then 8
    else if b < 0xE0 then 2
    else if b == 0xE0 then 0xA
    else if b < 0xED then 3
    else if b == 0xED then 4
    else if b < 0xF0 then 3
    else if b == 0xF0 then 0xB
    else if b < 0xF4 then 6
    else if b == 0xF4 then 5
    else 8
  }

  /** Second part of the table: one row of successor states per state, indexed by class. */
  const TRANSITIONS: seq<seq<State>> := [
    [0, 1, 2, 3, 5, 8, 7, 1, 1, 1, 4, 6, 1, 1, 1, 1],
    [1, 1, 1, 1, 1, 1, 1, 1, 1, 1, 1, 1, 1, 1, 1, 1],
    [1, 0, 1, 1, 1, 1, 1, 0, 1, 0, 1, 1, 1, 1, 1, 1],
    [1, 2, 1, 1, 1, 1, 1, 2, 1, 2, 1, 1, 1, 1, 1, 1],
    [1, 1, 1, 1, 1, 1, 1, 2, 1, 1, 1, 1, 1, 1, 1, 1],
    [1, 2, 1, 1, 1, 1, 1, 1, 1, 2, 1, 1, 1, 1, 1, 1],
    [1, 1, 1, 1, 1, 1, 1, 3, 1, 3, 1, 1, 1, 1, 1, 1],
    [1, 3, 1, 1, 1, 1, 1, 3, 1, 3, 1, 1, 1, 1, 1, 1],
    [1, 3, 1, 1, 1, 1, 1, 1, 1, 1, 1, 1, 1, 1, 1, 1]]

  function Step(state: State, b: byte): State {
    TRANSITIONS[state][ByteClass(b)]
  }

  function Run(state: State, s: bytes): State
    decreases s
  {
    if s == [] then state else Run(Step(state, s[0]), s[1..])
  }

  predicate Valid(s: bytes) {
    Run(ACCEPT, s) == ACCEPT
  }

  lemma {:induction false} RejectAbsorbs(s: bytes)
    ensures Run(REJECT, s) == REJECT
  {
    if s != [] {
      RejectAbsorbs(s[1..]);
    }
  }

  lemma {:induction false} RunConcat(state: State, s: bytes, t: bytes)
    ensures Run(state, s + t) == Run(Run(state, s), t)
    decreases s
  {
    if s == [] {
      assert s + t == t;
    } else {
      assert (s + t)[1..] == s[1..] + t;
      RunConcat(Step(state, s[0]), s[1..], t);
    }
  }

  /** The validation loop, which stops at the first rejecting byte. */
  method CheckValid(s: bytes) returns (ok: bool)
    ensures ok == Valid(s)
  {
    var state: State := ACCEPT;
    for i := 0 to |s|
      invariant Run(ACCEPT, s) == Run(state, s[i..])
    {
      state := Step(state, s[i]);
      assert s[i..][1..] == s[i + 1..];
      if state == REJECT {
        RejectAbsorbs(s[i + 1..]);
        return false;
      }
    }
    return state == ACCEPT;
  }

  /** An ASCII byte is only accepted between characters. */
  lemma AsciiStep(state: State, b: byte)
    requires b < 0x80
    ensures Step(state, b) == if state == ACCEPT then ACCEPT else REJECT
  {
  }

  lemma AsciiRun(state: State, b: byte, s: bytes)
    requires b < 0x80
    ensures Run(state, [b] + s) == if state == ACCEPT then Run(ACCEPT, s) else REJECT
  {
    AsciiStep(state, b);
    assert ([b] + s)[1..] == s;
    RejectAbsorbs(s);
  }

  lemma {:induction false} AsciiPrefix(p: bytes, s: bytes)
    requires forall i :: 0 <= i < |p| ==> p[i] < 0x80
    ensures Valid(p + s) <==> Valid(s)
  {
    if p == [] {
      assert p + s == s;
    } else {
      assert p + s == [p[0]] + (p[1..] + s);
      AsciiRun(ACCEPT, p[0], p[1..] + s);
      AsciiPrefix(p[1..], s);
    }
  }

  /** Cutting at a NUL never cuts inside a character. */
  lemma {:induction false} CStrRun(state: State, s: bytes)
    requires Run(state, s) == ACCEPT
    ensures Run(state, CStr(s)) == ACCEPT
    decreases s
  {
    if s != [] {
      if s[0] == NUL {
        AsciiStep(state, NUL);
        RejectAbsorbs(s[1..]);
      } else {
        CStrRun(Step(state, s[0]), s[1..]);
        assert CStr(s)[1..] == CStr(s[1..]);
      }
    }
  }

  // The grammar of RFC 3629 section 4.

  predicate Tail(b: byte) {
    0x80 <= b <= 0xBF
  }

  predicate IsChar(c: bytes) {
    || (|c| == 1 && c[0] <= 0x7F)
    || (|c| == 2 && 0xC2 <= c[0] <= 0xDF && Tail(c[1]))
    || (|c| == 3 && Tail(c[2])
        && (|| (c[0] == 0xE0 && 0xA0 <= c[1] <= 0xBF)
            || (0xE1 <= c[0] <= 0xEC && Tail(c[1]))
            || (c[0] == 0xED && 0x80 <= c[1] <= 0x9F)
            || (0xEE <= c[0] <= 0xEF && Tail(c[1]))))
    || (|c| == 4 && Tail(c[2]) && Tail(c[3])
        && (|| (c[0] == 0xF0 && 0x90 <= c[1] <= 0xBF)
            || (0xF1 <= c[0] <= 0xF3 && Tail(c[1]))
            || (c[0] == 0xF4 && 0x80 <= c[1] <= 0x8F)))
  }

  /** UTF8-octets: a concatenation of any number of UTF8-char. */
  ghost predicate IsOctets(s: bytes) {
    exists cs :: Concat(cs) == s && forall i :: 0 <= i < |cs| ==> IsChar(cs[i])
  }

  /** One step of a run that has reached position `k`. */
  lemma RunAt(state: State, s: bytes, k: nat)
    requires k < |s|
    ensures Run(state, s[k..]) == Run(Step(state, s[k]), s[k + 1..])
    ensures Step(state, s[k]) == REJECT ==> Run(state, s[k..]) == REJECT
    ensures k + 1 == |s| ==> Run(state, s[k..]) == Step(state, s[k])
  {
    assert s[k..][1..] == s[k + 1..];
    RejectAbsorbs(s[k + 1..]);
  }

  lemma CharAccepted(c: bytes)
    requires IsChar(c)
    ensures Run(ACCEPT, c) == ACCEPT
  {
    assert c[0..] == c;
    RunAt(ACCEPT, c, 0);
    if |c| >= 2 {
      var s1 := Step(ACCEPT, c[0]);
      RunAt(s1, c, 1);
      if |c| >= 3 {
        var s2 := Step(s1, c[1]);
        RunAt(s2, c, 2);
        assert s2 == if |c| == 3 then 2 else 3;
        if |c| == 4 {
          RunAt(2, c, 3);
        }
      }
    }
  }

  lemma {:induction false} OctetsAccepted(cs: seq<bytes>)
    requires forall i :: 0 <= i < |cs| ==> IsChar(cs[i])
    ensures Valid(Concat(cs))
  {
    if cs != [] {
      CharAccepted(cs[0]);
      RunConcat(ACCEPT, cs[0], Concat(cs[1..]));
      OctetsAccepted(cs[1..]);
    }
  }

  /** How many bytes a lead byte announces. */
  function CharLength(b: byte): (n: nat)
    ensures 1 <= n <= 4
  {
    if b < 0xC0 then 1 else if b < 0xE0 then 2 else if b < 0xF0 then 3 else 4
  }

  lemma FirstCharOfValid(s: bytes)
    requires Valid(s) && s != []
    ensures CharLength(s[0]) <= |s| && IsChar(s[..CharLength(s[0])])
    ensures Valid(s[CharLength(s[0])..])
  {
    var n := CharLength(s[0]);
    assert s[0..] == s;
    RunAt(ACCEPT, s, 0);
    if n >= 2 {
      var s1 := Step(ACCEPT, s[0]);
      RunAt(s1, s, 1);
      if n >= 3 {
        var s2 := Step(s1, s[1]);
        RunAt(s2, s, 2);
        assert s2 == if n == 3 then 2 else 3;
        if n == 4 {
          RunAt(2, s, 3);
        }
      }
    }
  }

  lemma {:induction false} ValidPartition(s: bytes) returns (cs: seq<bytes>)
    requires Valid(s)
    ensures Concat(cs) == s
    ensures forall i :: 0 <= i < |cs| ==> IsChar(cs[i])
    decreases |s|
  {
    if s == [] {
      cs := [];
    } else {
      FirstCharOfValid(s);
      var n := CharLength(s[0]);
      var rest := ValidPartition(s[n..]);
      cs := [s[..n]] + rest;
      assert cs[1..] == rest;
    }
  }

  /** The table accepts exactly the octet strings of RFC 3629. */
  lemma DfaAcceptsExactlyRfc3629(s: bytes)
    ensures Valid(s) <==> IsOctets(s)
  {
    if Valid(s) {
      var cs := ValidPartition(s);
    }
    if IsOctets(s) {
      var cs :| Concat(cs) == s && forall i :: 0 <= i < |cs| ==> IsChar(cs[i]);
      OctetsAccepted(cs);
    }
  }

  // The encoder.

  predicate IsScalar(cp: int) {
    0 <= cp <= 0x10FFFF && !(0xD800 <= cp <= 0xDFFF)
  }

  /** `utf8_encode`: the bit fields never overlap, so each `|` is a sum. */
  function Encode(cp: int): (c: bytes)
    requires IsScalar(cp)
    ensures IsChar(c)
  {
    if cp < 0x80 then [cp]
    else if cp < 0x800 then [0xC0 + cp / 64, 0x80 + cp % 64]
    else if cp < 0x10000 then [0xE0 + cp / 4096, 0x80 + cp / 64 % 64, 0x80 + cp % 64]
    else [0xF0 + cp / 262144, 0x80 + cp / 4096 % 64, 0x80 + cp / 64 % 64, 0x80 + cp % 64]
  }

  /** The scalar value a UTF8-char stands for. */
  function Decode(c: bytes): (cp: int)
    requires IsChar(c)
    ensures IsScalar(cp)
  {
    if |c| == 1 then c[0]
    else if |c| == 2 then Low(c[0], 0xC0) * 64 + Low(c[1], 0x80)
    else if |c| == 3 then Low(c[0], 0xE0) * 4096 + Low(c[1], 0x80) * 64 + Low(c[2], 0x80)
    else Low(c[0], 0xF0) * 262144 + Low(c[1], 0x80) * 4096 + Low(c[2], 0x80) * 64 + Low(c[3], 0x80)
  }

  /** Encoding is injective: the standard's bit layout recovers the scalar value. */
  lemma DecodeEncode(cp: int)
    requires IsScalar(cp)
    ensures Decode(Encode(cp)) == cp
  {
    assert cp / 64 == cp / 4096 * 64 + cp / 64 % 64;
    assert cp / 4096 == cp / 262144 * 64 + cp / 4096 % 64;
    assert cp == cp / 64 * 64 + cp % 64;
  }

  /** Encoding reaches every character of the grammar. */
  lemma EncodeDecode(c: bytes)
    requires IsChar(c)
    ensures Encode(Decode(c)) == c
  {
    if |c| == 2 {
      Digits64(Low(c[0], 0xC0), Low(c[1], 0x80));
    } else if |c| == 3 {
      Digits64Twice(Low(c[0], 0xE0), Low(c[1], 0x80), Low(c[2], 0x80));
      assert Decode(c) / 4096 == Low(c[0], 0xE0);
    } else if |c| == 4 {
      EncodeDecode4(c);
    }
  }

  lemma EncodeDecode4(c: bytes)
    requires IsChar(c) && |c| == 4
    ensures Encode(Decode(c)) == c
  {
    var a, b, d, e := Low(c[0], 0xF0), Low(c[1], 0x80), Low(c[2], 0x80), Low(c[3], 0x80);
    var cp := Decode(c);
    Digits64Twice(a * 64 + b, d, e);
    Digits64(a, b);
    assert cp / 4096 == a * 64 + b;
    assert cp / 262144 == a;
    assert cp / 4096 % 64 == b;
  }

  lemma Digits64Twice(hi: nat, mid: nat, lo: nat)
    requires mid < 64 && lo < 64
    ensures var n := hi * 4096 + mid * 64 + lo;
            n / 4096 == hi && n / 64 % 64 == mid && n % 64 == lo && n / 64 == hi * 64 + mid
  {
    Digits64(hi * 64 + mid, lo);
    Digits64(hi, mid);
  }

  lemma Digits64(hi: nat, lo: nat)
    requires lo < 64
    ensures (hi * 64 + lo) / 64 == hi && (hi * 64 + lo) % 64 == lo
  {
  }
  /** The last base-64 digits of a number, most significant first, over what is left of it. */
  function Base64Digits(n: nat, count: nat): (ds: seq<nat>)
    ensures |ds| == count + 1
  {
    if count == 0 then [n] else Base64Digits(n / 64, count - 1) + [n % 64]
  }

  lemma {:induction false} DigitsOrder(a: nat, b: nat, count: nat) returns (k: nat)
    requires a < b
    ensures var x, y := Base64Digits(a, count), Base64Digits(b, count);
            k <= count && x[..k] == y[..k] && x[k] < y[k]
    decreases count
  {
    if count == 0 {
      k := 0;
    } else if a / 64 == b / 64 {
      k := count;
    } else {
      k := DigitsOrder(a / 64, b / 64, count - 1);
      var x, y := Base64Digits(a, count), Base64Digits(b, count);
      assert x[..k] == Base64Digits(a / 64, count - 1)[..k] && y[..k] == Base64Digits(b / 64, count - 1)[..k];
    }
  }

  /** The marker bits before the payload of byte `i` in an encoding of `length` bytes. */
  function Marker(length: nat, i: nat): nat {
    if i > 0 then 0x80
    else if length == 1 then 0
    else if length == 2 then 0xC0
    else if length == 3 then 0xE0
    else 0xF0
  }

  /** Every byte is its marker and one base-64 digit. */
  lemma EncodeLayout(cp: int)
    requires IsScalar(cp)
    ensures var c := Encode(cp);
            && |c| == (if cp < 0x80 then 1 else if cp < 0x800 then 2 else if cp < 0x10000 then 3 else 4)
            && forall i :: 0 <= i < |c| ==> c[i] == Marker(|c|, i) + Base64Digits(cp, |c| - 1)[i]
  {
    var n := |Encode(cp)|;
    var d := Base64Digits(cp, n - 1);
    if n == 2 {
      assert Base64Digits(cp / 64, 0) == [cp / 64];
      assert d == Base64Digits(cp / 64, 0) + [cp % 64];
    } else if n == 3 {
      Digits3(cp);
    } else if n == 4 {
      Digits3(cp / 64);
      assert d == Base64Digits(cp / 64, 2) + [cp % 64];
      assert cp / 64 / 4096 == cp / 262144 && cp / 64 / 64 % 64 == cp / 4096 % 64;
    }
  }

  lemma Digits3(n: nat)
    ensures Base64Digits(n, 2) == [n / 4096, n / 64 % 64, n % 64]
  {
    assert Base64Digits(n / 64, 1) == Base64Digits(n / 64 / 64, 0) + [n / 64 % 64];
    assert n / 64 / 64 == n / 4096;
  }

  /**
    Encoding preserves order: at the first byte where two encodings differ, the smaller
    scalar value has the smaller byte. With the grammar this leaves no other encoding.
   */
  lemma EncodePreservesOrder(a: int, b: int) returns (k: nat)
    requires IsScalar(a) && IsScalar(b) && a < b
    ensures var x, y := Encode(a), Encode(b);
            k < |x| && k < |y| && x[..k] == y[..k] && x[k] < y[k]
  {
    hide Encode, Base64Digits;
    var x, y := Encode(a), Encode(b);
    EncodeLayout(a);
    EncodeLayout(b);
    if |x| == |y| {
      k := DigitsOrder(a, b, |x| - 1);
      var p, q := Base64Digits(a, |x| - 1), Base64Digits(b, |x| - 1);
      assert forall i :: 0 <= i < k ==> p[i] == p[..k][i] == q[..k][i] == q[i];
    } else {
      k := 0;
      LeadByte(x);
      LeadByte(y);
    }
  }

  /** Longer characters have larger lead bytes. */
  lemma LeadByte(c: bytes)
    requires IsChar(c)
    ensures |c| == 1 ==> c[0] < 0xC2
    ensures |c| == 2 ==> 0xC2 <= c[0] < 0xE0
    ensures |c| == 3 ==> 0xE0 <= c[0] < 0xF0
    ensures |c| == 4 ==> 0xF0 <= c[0]
    ensures 1 <= |c| <= 4
  {
  }

  // Texts as sequences of characters.

  /** The encoding of a sequence of scalar values. */
  function Spelled(cps: seq<int>): bytes
    requires forall i :: 0 <= i < |cps| ==> IsScalar(cps[i])
  {
    if cps == [] then [] else Encode(cps[0]) + Spelled(cps[1..])
  }

  /** Every valid text is a sequence of characters. */
  lemma {:induction false} CharactersOf(s: bytes) returns (cps: seq<int>)
    requires Valid(s)
    ensures (forall i :: 0 <= i < |cps| ==> IsScalar(cps[i])) && Spelled(cps) == s
    decreases |s|
  {
    hide Encode, Decode, IsScalar, CharLength, IsChar, Valid;
    if s == [] {
      cps := [];
    } else {
      FirstCharOfValid(s);
      var n := CharLength(s[0]);
      var rest := CharactersOf(s[n..]);
      EncodeDecode(s[..n]);
      cps := [Decode(s[..n])] + rest;
      assert cps[1..] == rest;
    }
  }
}
