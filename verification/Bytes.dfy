/** Octets, C strings and the small sequence vocabulary every other module shares. */
module Bytes {

  type byte = x: int | 0 <= x < 256

  /** A block of memory or the contents of a C string (the bytes before its terminator). */
  type bytes = seq<byte>

  datatype Option<+T> = None | Some(value: T)

  // The characters the C sources name in quotes.
  const NUL: byte := 0x00
  const BACKSPACE: byte := 0x08
  const TAB: byte := 0x09
  const LF: byte := 0x0A
  const FORMFEED: byte := 0x0C
  const CR: byte := 0x0D
  const SPACE: byte := 0x20
  const QUOTE: byte := 0x22
  const HASH: byte := 0x23
  const PERCENT: byte := 0x25
  const AMP: byte := 0x26
  const STAR: byte := 0x2A
  const PLUS: byte := 0x2B
  const COMMA: byte := 0x2C
  const MINUS: byte := 0x2D
  const DOT: byte := 0x2E
  const SLASH: byte := 0x2F
  const COLON: byte := 0x3A
  const EQUALS: byte := 0x3D
  const QUESTION: byte := 0x3F
  const LBRACKET: byte := 0x5B
  const BACKSLASH: byte := 0x5C
  const RBRACKET: byte := 0x5D
  const UNDERSCORE: byte := 0x5F
  const LBRACE: byte := 0x7B
  const RBRACE: byte := 0x7D
  const TILDE: byte := 0x7E

  predicate IsDigit(c: byte) {
    0x30 <= c <= 0x39
  }

  /** The value of a hexadecimal digit of either case, or -1. */
  function HexValue(c: byte): (v: int)
    ensures -1 <= v < 16
  {
    if 0x30 <= c <= 0x39 then c - 0x30
    else if 0x61 <= c <= 0x66 then c - 0x61 + 10
    else if 0x41 <= c <= 0x46 then c - 0x41 + 10
    else -1
  }

  /** `c` is a hexadecimal digit, of either case, for `n`. */
  predicate IsHexDigit(c: byte, n: int) {
    || (0 <= n < 10 && c == 0x30 + n)
    || (10 <= n < 16 && (c == 0x41 + n - 10 || c == 0x61 + n - 10))
  }

  predicate NotHex(c: byte) {
    forall n :: 0 <= n < 16 ==> !IsHexDigit(c, n)
  }

  lemma HexDigits(c: byte, n: int)
    requires 0 <= n < 16
    ensures HexValue(c) == n <==> IsHexDigit(c, n)
    ensures HexValue(c) < 0 <==> NotHex(c)
  {
    if HexValue(c) >= 0 {
      assert IsHexDigit(c, HexValue(c));
    }
  }

  predicate NulFree(s: bytes) {
    NUL !in s
  }

  /** What `strlen` and `strchr` see of a buffer: the bytes before the first NUL. */
  function CStr(s: bytes): (r: bytes)
    ensures NulFree(r)
    ensures r <= s
    ensures NulFree(s) ==> r == s
  {
    if s == [] || s[0] == NUL then [] else [s[0]] + CStr(s[1..])
  }

  /** How far a byte lies above a base, such as the marker bits below its payload. */
  function Low(c: byte, base: int): int {
    c - base
  }

  predicate StartsWith(s: bytes, lit: bytes) {
    |s| >= |lit| && s[..|lit|] == lit
  }

  ghost predicate Distinct<T>(s: seq<T>) {
    forall i, j :: 0 <= i < j < |s| ==> s[i] != s[j]
  }

  /** The position of the first `c`, or the length when there is none (`strchr`). */
  function Find(s: bytes, c: byte): (k: nat)
    ensures k <= |s|
    ensures forall i :: 0 <= i < k ==> s[i] != c
    ensures k < |s| ==> s[k] == c
  {
    if s == [] || s[0] == c then 0 else 1 + Find(s[1..], c)
  }

  /** Bit by bit exclusive or of two octets. */
  function Xor(a: byte, b: byte): byte {
    XorBits(a, b, 8)
  }

  function XorBits(a: nat, b: nat, n: nat): (r: nat)
    requires a < Pow2(n) && b < Pow2(n)
    ensures r < Pow2(n)
  {
    if n == 0 then 0
    else (if a % 2 == b % 2 then 0 else 1) + 2 * XorBits(a / 2, b / 2, n - 1)
  }

  function Pow2(n: nat): (r: nat)
    ensures r > 0
  {
    if n == 0 then 1 else 2 * Pow2(n - 1)
  }

  lemma XorHalves(a: nat, b: nat, n: nat)
    requires a < Pow2(n) && b < Pow2(n) && n > 0
    ensures a / 2 < Pow2(n - 1) && b / 2 < Pow2(n - 1)
    ensures XorBits(a, b, n) / 2 == XorBits(a / 2, b / 2, n - 1)
    ensures XorBits(a, b, n) % 2 == if a % 2 == b % 2 then 0 else 1
  {
  }

  /** Each bit of the result says whether the two bits differ. */
  lemma {:induction false} XorBit(a: nat, b: nat, n: nat, k: nat)
    requires a < Pow2(n) && b < Pow2(n) && k < n
    ensures XorBits(a, b, n) / Pow2(k) % 2 == if a / Pow2(k) % 2 == b / Pow2(k) % 2 then 0 else 1
  {
    hide XorBits;
    XorHalves(a, b, n);
    if k == 0 {
      assert Pow2(0) == 1;
    } else {
      hide Pow2;
      XorBit(a / 2, b / 2, n - 1, k - 1);
      Halve(a, k);
      Halve(b, k);
      Halve(XorBits(a, b, n), k);
    }
  }

  lemma Halve(a: nat, k: nat)
    requires k > 0
    ensures a / Pow2(k) == a / 2 / Pow2(k - 1)
  {
    var p := Pow2(k - 1);
    var q, r := a / 2 / p, a / 2 % p;
    assert a / 2 == q * p + r;
    Doubled(a, q, p, r);
    DivMod(a, q, 2 * p, 2 * r + a % 2);
  }

  lemma Doubled(a: nat, q: nat, p: nat, r: nat)
    requires a / 2 == q * p + r
    ensures a == q * (2 * p) + (2 * r + a % 2)
  {
    assert a == 2 * (a / 2) + a % 2;
    assert q * (2 * p) == 2 * (q * p);
  }

  lemma {:induction false} XorBitsCancels(a: nat, b: nat, n: nat)
    requires a < Pow2(n) && b < Pow2(n)
    ensures XorBits(XorBits(a, b, n), b, n) == a
  {
    if n > 0 {
      XorBitsCancels(a / 2, b / 2, n - 1);
    }
  }

  /** Masking twice with the same octet gives the octet back. */
  lemma XorCancels(a: byte, b: byte)
    ensures Xor(Xor(a, b), b) == a
  {
    XorBitsCancels(a, b, 8);
  }

  /** The quotient and remainder of a number given as such. */
  lemma DivMod(n: int, q: int, d: int, r: int)
    requires n == q * d + r && 0 <= r < d
    ensures n / d == q && n % d == r
  {
    var k := n / d - q;
    assert k * d == r - n % d;
    assert k >= 1 ==> k * d >= d;
    assert k <= -1 ==> k * d <= -d;
  }

  function Concat(chunks: seq<bytes>): bytes {
    if chunks == [] then [] else chunks[0] + Concat(chunks[1..])
  }

  lemma {:induction false} ConcatLast(chunks: seq<bytes>, last: bytes)
    ensures Concat(chunks + [last]) == Concat(chunks) + last
    decreases |chunks|
  {
    if chunks == [] {
      assert [last][1..] == [] && chunks + [last] == [last];
      assert last + [] == [] + last;
    } else {
      assert (chunks + [last])[1..] == chunks[1..] + [last];
      ConcatLast(chunks[1..], last);
      assert chunks[0] + (Concat(chunks[1..]) + last) == (chunks[0] + Concat(chunks[1..])) + last;
    }
  }
}
