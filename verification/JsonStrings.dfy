/**
  Strings, character by character: every way section 7 of RFC 8259 allows to write a
  character is read as the UTF-8 encoding of that character.
 */
module JsonStrings {
  import opened Bytes
  import opened JsonValue
  import opened JsonGrammar
  import opened JsonText
  import Utf8

  /** Four hexadecimal digits of either case, most significant first. */
  predicate FourDigits(h: bytes, n: nat) {
    && |h| == 4 && n < 65536
    && IsHexDigit(h[0], n / 4096) && IsHexDigit(h[1], n / 256 % 16)
    && IsHexDigit(h[2], n / 16 % 16) && IsHexDigit(h[3], n % 16)
  }

  predicate IsUnicodeEscape(t: bytes, n: nat) {
    |t| == 6 && t[..2] == [0x5C, 0x75] && FourDigits(t[2..], n)
  }

  /** A character outside the basic plane is written as a high and a low surrogate. */
  predicate IsSurrogateEscapes(t: bytes, v: nat) {
    && |t| == 12 && 0x10000 <= v <= 0x10FFFF
    && IsUnicodeEscape(t[..6], 0xD800 + (v - 0x10000) / 1024)
    && IsUnicodeEscape(t[6..], 0xDC00 + (v - 0x10000) % 1024)
  }

  /** The characters with an escape of two characters, and the second of the two. */
  const SHORT: map<nat, byte> :=
    map[0x22 := 0x22, 0x5C := 0x5C, 0x2F := 0x2F, 0x08 := 0x62, 0x0C := 0x66, 0x0A := 0x6E, 0x0D := 0x72, 0x09 := 0x74]

  /** `t` is a way to write the character `v` inside a string. */
  predicate Writes(t: bytes, v: nat) {
    && Utf8.IsScalar(v)
    && (|| (v >= 0x20 && v != 0x22 && v != 0x5C && t == Utf8.Encode(v))
        || (v in SHORT && t == [0x5C, SHORT[v]])
        || IsUnicodeEscape(t, v)
        || IsSurrogateEscapes(t, v))
  }

  predicate AllWritten(ts: seq<bytes>, vs: seq<nat>) {
    |ts| == |vs| && forall i :: 0 <= i < |ts| ==> Writes(ts[i], vs[i])
  }

  // What the digits are worth.

  lemma FourDigitsValue(h: bytes, n: nat)
    requires FourDigits(h, n)
    ensures Hex4(h) && Hex4Value(h) == n
  {
    hide IsHexDigit, HexValue;
    HexDigits(h[0], n / 4096);
    HexDigits(h[1], n / 256 % 16);
    HexDigits(h[2], n / 16 % 16);
    HexDigits(h[3], n % 16);
    assert n / 256 == n / 4096 * 16 + n / 256 % 16;
    assert n / 16 == n / 256 * 16 + n / 16 % 16;
  }

  lemma PairIs(v: nat)
    requires 0x10000 <= v <= 0x10FFFF
    ensures var hi, lo := 0xD800 + (v - 0x10000) / 1024, 0xDC00 + (v - 0x10000) % 1024;
            IsHigh(hi) && IsLow(lo) && PairValue(hi, lo) == v
  {
  }

  // The items that a written character is read as.

  lemma {:induction false} RawItems(s: bytes, tail: List<Item>) returns (items: List<Item>)
    requires ItemsOk(tail) && forall i :: 0 <= i < |s| ==> s[i] >= 0x20 && s[i] != 0x22 && s[i] != 0x5C
    ensures ItemsOk(items) && ItemsText(items) == s + ItemsText(tail) && ItemsOnto(items, []) == s + ItemsOnto(tail, [])
    decreases |s|
  {
    hide ItemsOk, ItemsText, ItemsOnto;
    if s == [] {
      items := tail;
    } else {
      var more := RawItems(s[1..], tail);
      items := Cons(Raw(s[0]), more);
      RawFirst(s[0], more);
      assert s + ItemsText(tail) == [s[0]] + (s[1..] + ItemsText(tail));
      assert s + ItemsOnto(tail, []) == [s[0]] + (s[1..] + ItemsOnto(tail, []));
    }
  }

  lemma RawFirst(b: byte, more: List<Item>)
    requires ItemsOk(more) && b >= 0x20 && b != 0x22 && b != 0x5C
    ensures var items := Cons(Raw(b), more);
            && ItemsOk(items) && ItemsText(items) == [b] + ItemsText(more)
            && ItemsOnto(items, []) == [b] + ItemsOnto(more, [])
  {
  }

  lemma CharItems(t: bytes, v: nat, tail: List<Item>) returns (items: List<Item>)
    requires Writes(t, v) && ItemsOk(tail)
    ensures ItemsOk(items) && ItemsText(items) == Utf8.Encode(v) + ItemsText(tail)
    ensures ItemsOnto(items, []) == t + ItemsOnto(tail, [])
  {
    hide Utf8.Encode, FourDigits, Hex4, Hex4Value, PairValue;
    if v in SHORT && t == [0x5C, SHORT[v]] {
      items := Cons(Escape(SHORT[v]), tail);
      ShortEscape(v);
    } else if IsUnicodeEscape(t, v) {
      items := UnicodeItems(t, v, tail);
    } else if IsSurrogateEscapes(t, v) {
      items := SurrogateItems(t, v, tail);
    } else {
      RawCharacter(v);
      items := RawItems(t, tail);
    }
  }

  lemma ShortEscape(v: nat)
    requires v in SHORT
    ensures v < 0x80 && Escaped(SHORT[v]) == Some(v) && Utf8.Encode(v) == [v]
  {
  }

  lemma UnicodeItems(t: bytes, v: nat, tail: List<Item>) returns (items: List<Item>)
    requires Utf8.IsScalar(v) && IsUnicodeEscape(t, v) && ItemsOk(tail)
    ensures ItemsOk(items) && ItemsText(items) == Utf8.Encode(v) + ItemsText(tail)
    ensures ItemsOnto(items, []) == t + ItemsOnto(tail, [])
  {
    hide Utf8.Encode, FourDigits, Hex4, Hex4Value;
    FourDigitsValue(t[2..], v);
    assert t == [0x5C, 0x75] + t[2..];
    items := Cons(Unicode(t[2..]), tail);
  }

  lemma SurrogateItems(t: bytes, v: nat, tail: List<Item>) returns (items: List<Item>)
    requires IsSurrogateEscapes(t, v) && ItemsOk(tail)
    ensures ItemsOk(items) && ItemsText(items) == Utf8.Encode(v) + ItemsText(tail)
    ensures ItemsOnto(items, []) == t + ItemsOnto(tail, [])
  {
    hide Utf8.Encode, FourDigits, Hex4, Hex4Value, PairValue;
    var hi, lo := t[..6][2..], t[6..][2..];
    FourDigitsValue(hi, 0xD800 + (v - 0x10000) / 1024);
    FourDigitsValue(lo, 0xDC00 + (v - 0x10000) % 1024);
    PairIs(v);
    assert t[..6] == [0x5C, 0x75] + hi && t[6..] == [0x5C, 0x75] + lo;
    assert t == t[..6] + t[6..];
    items := Cons(Surrogates(hi, lo), tail);
    assert [0x5C, 0x75] + hi + [0x5C, 0x75] + lo == t;
  }

  lemma RawCharacter(v: nat)
    requires Utf8.IsScalar(v) && v >= 0x20 && v != 0x22 && v != 0x5C
    ensures var c := Utf8.Encode(v); forall i :: 0 <= i < |c| ==> c[i] >= 0x20 && c[i] != 0x22 && c[i] != 0x5C
  {
  }

  lemma {:induction false} AllItems(ts: seq<bytes>, vs: seq<nat>) returns (items: List<Item>)
    requires AllWritten(ts, vs)
    ensures ItemsOk(items) && ItemsText(items) == Utf8.Spelled(vs) && ItemsOnto(items, []) == Concat(ts) + [0x22]
    decreases |ts|
  {
    hide Writes, Utf8.Encode;
    if ts == [] {
      items := Nil;
    } else {
      ScalarOf(ts[0], vs[0]);
      var tail := AllItems(ts[1..], vs[1..]);
      items := CharItems(ts[0], vs[0], tail);
      assert ts[0] + (Concat(ts[1..]) + [0x22]) == Concat(ts) + [0x22];
    }
  }

  lemma ScalarOf(t: bytes, v: nat)
    requires Writes(t, v)
    ensures Utf8.IsScalar(v)
  {
  }

  // The whole text is valid UTF-8.

  lemma AsciiValid(s: bytes)
    requires forall i :: 0 <= i < |s| ==> s[i] < 0x80
    ensures Utf8.Valid(s)
  {
    Utf8.AsciiPrefix(s, []);
    assert s + [] == s;
  }

  lemma WrittenValid(t: bytes, v: nat)
    requires Writes(t, v)
    ensures Utf8.Valid(t)
  {
    hide Utf8.IsChar, Utf8.Encode, IsHexDigit, Utf8.Run;
    if t == Utf8.Encode(v) {
      Utf8.CharAccepted(t);
    } else {
      EscapeIsAscii(t, v);
      AsciiValid(t);
    }
  }

  lemma EscapeIsAscii(t: bytes, v: nat)
    requires Writes(t, v) && t != Utf8.Encode(v)
    ensures forall i :: 0 <= i < |t| ==> t[i] < 0x80
  {
    hide Utf8.Encode;
    if IsUnicodeEscape(t, v) {
      UnicodeIsAscii(t, v);
    } else if IsSurrogateEscapes(t, v) {
      UnicodeIsAscii(t[..6], 0xD800 + (v - 0x10000) / 1024);
      UnicodeIsAscii(t[6..], 0xDC00 + (v - 0x10000) % 1024);
      assert t == t[..6] + t[6..];
    }
  }

  lemma UnicodeIsAscii(t: bytes, n: nat)
    requires IsUnicodeEscape(t, n)
    ensures forall i :: 0 <= i < |t| ==> t[i] < 0x80
  {
    assert t == [0x5C, 0x75] + t[2..];
    var h := t[2..];
    assert h[0] < 0x80 && h[1] < 0x80 && h[2] < 0x80 && h[3] < 0x80;
  }

  lemma {:induction false} AllValid(ts: seq<bytes>, vs: seq<nat>)
    requires AllWritten(ts, vs)
    ensures Utf8.Valid(Concat(ts) + [0x22])
    decreases |ts|
  {
    hide Writes, Utf8.Run;
    if ts == [] {
      AsciiValid([0x22]);
      assert [] + [0x22] == [0x22];
    } else {
      WrittenValid(ts[0], vs[0]);
      AllValid(ts[1..], vs[1..]);
      Utf8.RunConcat(Utf8.ACCEPT, ts[0], Concat(ts[1..]) + [0x22]);
      assert ts[0] + (Concat(ts[1..]) + [0x22]) == Concat(ts) + [0x22];
    }
  }

  // The law.

  lemma AllScalars(ts: seq<bytes>, vs: seq<nat>)
    requires AllWritten(ts, vs)
    ensures forall i :: 0 <= i < |vs| ==> Utf8.IsScalar(vs[i])
  {
    hide Utf8.IsScalar, Utf8.Encode;
    forall i | 0 <= i < |vs|
      ensures Utf8.IsScalar(vs[i])
    {
      assert Writes(ts[i], vs[i]);
    }
  }

  /** A quoted sequence of written characters is read as their UTF-8 encodings, up to a NUL. */
  lemma StringReads(fl: FloatLib, ts: seq<bytes>, vs: seq<nat>, limit: nat)
    requires AllWritten(ts, vs)
    ensures forall i :: 0 <= i < |vs| ==> Utf8.IsScalar(vs[i])
    ensures Parse(fl, [0x22] + Concat(ts) + [0x22], limit) == Some(String(CStr(Utf8.Spelled(vs))))
  {
    hide Parse, Utf8.Run, Writes, ItemsText, ItemsOnto;
    AllScalars(ts, vs);
    var items := AllItems(ts, vs);
    AllValid(ts, vs);
    var body := Concat(ts) + [0x22];
    Utf8.AsciiPrefix([0x22], body);
    var text := [0x22] + Concat(ts) + [0x22];
    assert text == [0x22] + body;
    var doc := Document([], TString(items), []);
    assert [] + text == text;
    assert Derives(fl, doc, text, limit);
    ParserAcceptsExactlyTheGrammar(fl, text, limit);
    assert Eval(fl, doc.v) == String(CStr(ItemsText(items)));
  }

  /** Every way to write one character is read as that character. */
  lemma CharacterReads(fl: FloatLib, t: bytes, v: nat, limit: nat)
    requires Writes(t, v) && v != 0
    ensures Parse(fl, [0x22] + t + [0x22], limit) == Some(String(Utf8.Encode(v)))
  {
    hide Parse, Writes;
    ScalarOf(t, v);
    StringReads(fl, [t], [v], limit);
    assert [t][1..] == [] && [v][1..] == [];
    assert Concat([t]) == t + [] == t;
    assert Utf8.Spelled([v]) == Utf8.Encode(v) + [] == Utf8.Encode(v);
    NoNul(v);
  }

  lemma NoNul(v: nat)
    requires Utf8.IsScalar(v) && v != 0
    ensures NulFree(Utf8.Encode(v))
  {
  }
}
