/** Decimal digit strings and their values. */
module Decimals {
  import opened Bytes

  predicate Digits(s: bytes) {
    forall i :: 0 <= i < |s| ==> IsDigit(s[i])
  }

  predicate AllDigits(s: bytes) {
    s != [] && Digits(s)
  }

  function DigitValue(c: byte): int {
    c - 0x30
  }

  function Decimal(s: bytes): int {
    if s == [] then 0 else Decimal(s[..|s| - 1]) * 10 + DigitValue(s[|s| - 1])
  }

  lemma DecimalStep(s: bytes, i: nat)
    requires i < |s|
    ensures Decimal(s[..i + 1]) == Decimal(s[..i]) * 10 + DigitValue(s[i])
  {
    assert s[..i + 1][..i] == s[..i];
  }

  /** A digit string is worth at least as much as any of its prefixes. */
  lemma {:induction false} DecimalGrows(s: bytes, i: nat)
    requires Digits(s) && i <= |s|
    ensures 0 <= Decimal(s[..i]) <= Decimal(s)
    decreases |s|
  {
    if s == [] {
    } else if i == |s| {
      DecimalGrows(s[..i - 1], i - 1);
      assert s[..i] == s;
    } else {
      DecimalGrows(s[..|s| - 1], i);
      assert s[..|s| - 1][..i] == s[..i];
    }
  }

  /** The digits of a number, without a leading zero. */
  function ToDecimal(n: nat): (s: bytes)
    ensures AllDigits(s) && (|s| > 1 ==> s[0] != 0x30)
    ensures n > 0 ==> s[0] != 0x30
  {
    if n < 10 then [0x30 + n] else ToDecimal(n / 10) + [0x30 + n % 10]
  }

  lemma {:induction false} DecimalOfPrinted(n: nat)
    ensures Decimal(ToDecimal(n)) == n
  {
    var s := ToDecimal(n);
    if n < 10 {
      assert s[..0] == [];
    } else {
      DecimalOfPrinted(n / 10);
      assert s[..|s| - 1] == ToDecimal(n / 10);
    }
  }

  /** A digit string without a leading zero is what its value prints as. */
  lemma {:induction false} PrintedDecimal(s: bytes)
    requires AllDigits(s) && (|s| > 1 ==> s[0] != 0x30)
    ensures Decimal(s) >= 0 && ToDecimal(Decimal(s)) == s
    ensures |s| > 1 ==> Decimal(s) >= 10
  {
    var t := s[..|s| - 1];
    if |s| == 1 {
      assert Decimal(t) == 0;
    } else {
      PrintedDecimal(t);
      if |t| == 1 {
        assert Decimal(t) == DigitValue(s[0]) by { assert t[..0] == []; }
      }
      DivMod(Decimal(s), Decimal(t), 10, DigitValue(s[|s| - 1]));
      assert s == t + [s[|s| - 1]];
    }
  }
}
