/**
  The serializer, and the round trip: what it prints is the text of a syntax tree
  that denotes the printed value. As in the grammar, `XOnto(x, rest)` is the text
  printed for `x` followed by `rest`.
 */
module JsonWriter {
  import opened Bytes
  import opened Decimals
  import opened JsonValue
  import opened JsonGrammar
  import opened JsonParser
  import opened JsonText
  import Utf8

  // What is printed.

  function HexDigit(n: nat): byte
    requires n < 16
  {
    if n < 10 then 0x30 + n else 0x61 + (n - 10)
  }

  function EscapeByte(b: byte): bytes {
    if b == QUOTE then [BACKSLASH, QUOTE]
    else if b == BACKSLASH then [BACKSLASH, BACKSLASH]
    else if b == BACKSPACE then [BACKSLASH, 0x62]
    else if b == FORMFEED then [BACKSLASH, 0x66]
    else if b == LF then [BACKSLASH, 0x6E]
    else if b == CR then [BACKSLASH, 0x72]
    else if b == TAB then [BACKSLASH, 0x74]
    else if b < 0x20 then [BACKSLASH, U, 0x30, 0x30, HexDigit(b / 16), HexDigit(b % 16)]
    else [b]
  }

  /** The escaped bytes and the closing quote. */
  function EscapedOnto(s: bytes, rest: bytes): bytes {
    if s == [] then [QUOTE] + rest else EscapeByte(s[0]) + EscapedOnto(s[1..], rest)
  }

  function QuotedOnto(s: bytes, rest: bytes): bytes {
    [QUOTE] + EscapedOnto(s, rest)
  }

  function SerializeOnto(fl: FloatLib, v: Value, rest: bytes): bytes
    requires WellFormed(v)
    decreases v, 0
  {
    match v
    case Null => NULL_TEXT + rest
    case Bool(b) => (if b then TRUE_TEXT else FALSE_TEXT) + rest
    case Number(d) => NumberOnto(fl.print17(d), rest)
    case String(s) => QuotedOnto(s, rest)
    case Array(_) => [LBRACKET] + ItemsFrom(fl, v, 0, rest)
    case Object(_, _) => [LBRACE] + MembersFrom(fl, v, 0, rest)
  }

  function Separated(i: nat, s: bytes): bytes {
    if i > 0 then [COMMA] + s else s
  }

  /** The items from the `i`-th on, each after its comma, and the closing bracket. */
  function ItemsFrom(fl: FloatLib, v: Value, i: nat, rest: bytes): bytes
    requires WellFormed(v) && v.Array? && i <= |v.items|
    decreases v, 0, |v.items| - i
  {
    if i == |v.items| then [RBRACKET] + rest
    else Separated(i, SerializeOnto(fl, v.items[i], ItemsFrom(fl, v, i + 1, rest)))
  }

  function MembersFrom(fl: FloatLib, v: Value, i: nat, rest: bytes): bytes
    requires WellFormed(v) && v.Object? && i <= |v.keys|
    decreases v, 0, |v.keys| - i
  {
    if i == |v.keys| then [RBRACE] + rest
    else
      Separated(i, QuotedOnto(v.keys[i], [COLON] + SerializeOnto(fl, v.vals[i], MembersFrom(fl, v, i + 1, rest))))
  }

  function Serialize(fl: FloatLib, v: Value): bytes
    requires WellFormed(v)
  {
    SerializeOnto(fl, v, [])
  }

  // The serializer itself, appending to one growing buffer.

  class GrowBuffer {
    var data: bytes

    constructor ()
      ensures data == []
    {
      data := [];
    }

    /** `rest` stands for whatever is appended later. */
    method Append(s: bytes, ghost rest: bytes)
      modifies this
      ensures data == old(data) + s
      ensures data + rest == old(data) + (s + rest)
    {
      data := data + s;
    }
  }

  method WriteString(b: GrowBuffer, s: bytes, ghost rest: bytes)
    modifies b
    ensures b.data + rest == old(b.data) + QuotedOnto(s, rest)
  {
    b.Append([QUOTE], EscapedOnto(s, rest));
    for i := 0 to |s|
      invariant b.data + EscapedOnto(s[i..], rest) == old(b.data) + QuotedOnto(s, rest)
    {
      assert s[i..][1..] == s[i + 1..];
      b.Append(EscapeByte(s[i]), EscapedOnto(s[i + 1..], rest));
    }
    b.Append([QUOTE], rest);
  }

  method WriteValue(fl: FloatLib, b: GrowBuffer, v: Value, ghost rest: bytes)
    requires WellFormed(v)
    modifies b
    ensures b.data + rest == old(b.data) + SerializeOnto(fl, v, rest)
    decreases v, 1
  {
    hide NumberText, NumberOnto;
    match v
    case Null => b.Append(NULL_TEXT, rest);
    case Bool(x) => b.Append(if x then TRUE_TEXT else FALSE_TEXT, rest);
    case Number(d) =>
      NumberOntoText(fl.print17(d), rest);
      b.Append(NumberText(fl.print17(d)), rest);
    case String(s) => WriteString(b, s, rest);
    case Array(_) => WriteItems(fl, b, v, rest);
    case Object(_, _) => WriteMembers(fl, b, v, rest);
  }

  method WriteItems(fl: FloatLib, b: GrowBuffer, v: Value, ghost rest: bytes)
    requires WellFormed(v) && v.Array?
    modifies b
    ensures b.data + rest == old(b.data) + SerializeOnto(fl, v, rest)
    decreases v, 0
  {
    b.Append([LBRACKET], ItemsFrom(fl, v, 0, rest));
    for i := 0 to |v.items|
      invariant b.data + ItemsFrom(fl, v, i, rest) == old(b.data) + SerializeOnto(fl, v, rest)
    {
      ghost var more := ItemsFrom(fl, v, i + 1, rest);
      if i > 0 { b.Append([COMMA], SerializeOnto(fl, v.items[i], more)); }
      WriteValue(fl, b, v.items[i], more);
    }
    b.Append([RBRACKET], rest);
  }

  method WriteMembers(fl: FloatLib, b: GrowBuffer, v: Value, ghost rest: bytes)
    requires WellFormed(v) && v.Object?
    modifies b
    ensures b.data + rest == old(b.data) + SerializeOnto(fl, v, rest)
    decreases v, 0
  {
    b.Append([LBRACE], MembersFrom(fl, v, 0, rest));
    for i := 0 to |v.keys|
      invariant b.data + MembersFrom(fl, v, i, rest) == old(b.data) + SerializeOnto(fl, v, rest)
    {
      ghost var more := MembersFrom(fl, v, i + 1, rest);
      ghost var val := SerializeOnto(fl, v.vals[i], more);
      if i > 0 { b.Append([COMMA], QuotedOnto(v.keys[i], [COLON] + val)); }
      WriteString(b, v.keys[i], [COLON] + val);
      b.Append([COLON], val);
      WriteValue(fl, b, v.vals[i], more);
    }
    b.Append([RBRACE], rest);
  }

  /** `builtin_serialize`. */
  method BuiltinSerialize(fl: FloatLib, v: Value) returns (text: bytes)
    requires WellFormed(v)
    ensures text == Serialize(fl, v)
  {
    var b := new GrowBuffer();
    WriteValue(fl, b, v, []);
    text := b.data;
    assert text + [] == text;
  }

  // The syntax tree of the printed text.

  function ItemOf(b: byte): Item {
    if b == QUOTE then Escape(QUOTE)
    else if b == BACKSLASH then Escape(BACKSLASH)
    else if b == BACKSPACE then Escape(0x62)
    else if b == FORMFEED then Escape(0x66)
    else if b == LF then Escape(0x6E)
    else if b == CR then Escape(0x72)
    else if b == TAB then Escape(0x74)
    else if b < 0x20 then Unicode([0x30, 0x30, HexDigit(b / 16), HexDigit(b % 16)])
    else Raw(b)
  }

  function ItemsOf(s: bytes): List<Item> {
    if s == [] then Nil else Cons(ItemOf(s[0]), ItemsOf(s[1..]))
  }

  function TreeOf(fl: FloatLib, v: Value): Tree
    requires WellFormed(v)
    decreases v, 0
  {
    match v
    case Null => TNull
    case Bool(b) => TBool(b)
    case Number(d) => TNumber(fl.print17(d))
    case String(s) => TString(ItemsOf(s))
    case Array(items) => if items == [] then TEmptyArray([]) else TArray(ElemsOf(fl, v, 0))
    case Object(keys, _) => if keys == [] then TEmptyObject([]) else TObject(MembersOf(fl, v, 0))
  }

  function ElemsOf(fl: FloatLib, v: Value, i: nat): Elems
    requires WellFormed(v) && v.Array? && i < |v.items|
    decreases v, 0, |v.items| - i
  {
    var t := TreeOf(fl, v.items[i]);
    if i + 1 == |v.items| then LastElem([], t, []) else MoreElems([], t, [], ElemsOf(fl, v, i + 1))
  }

  function MembersOf(fl: FloatLib, v: Value, i: nat): Members
    requires WellFormed(v) && v.Object? && i < |v.keys|
    decreases v, 0, |v.keys| - i
  {
    var k, t := ItemsOf(v.keys[i]), TreeOf(fl, v.vals[i]);
    if i + 1 == |v.keys| then LastMember([], k, [], [], t, [])
    else MoreMembers([], k, [], [], t, [], MembersOf(fl, v, i + 1))
  }

  /** How deep a value nests. */
  function Depth(v: Value): nat {
    match v
    case Array(items) => 1 + MaxDepth(items)
    case Object(_, vals) => 1 + MaxDepth(vals)
    case _ => 0
  }

  function MaxDepth(vs: seq<Value>): nat {
    if vs == [] then 0 else Max(Depth(vs[0]), MaxDepth(vs[1..]))
  }

  // The tree's text is the printed text.

  lemma ItemOfText(b: byte, rest: bytes)
    ensures ItemOk(ItemOf(b)) && ItemText(ItemOf(b)) == [b]
    ensures ItemOnto(ItemOf(b), rest) == EscapeByte(b) + rest
  {
    if b < 0x20 {
      assert HexValue(HexDigit(b / 16)) == b / 16 && HexValue(HexDigit(b % 16)) == b % 16;
      assert b / 16 * 16 + b % 16 == b;
    }
  }

  lemma {:induction false} ItemsOfText(s: bytes, rest: bytes)
    ensures ItemsOk(ItemsOf(s)) && ItemsText(ItemsOf(s)) == s
    ensures ItemsOnto(ItemsOf(s), rest) == EscapedOnto(s, rest)
  {
    hide ItemText, ItemOk, ItemOf, ItemOnto, EscapeByte;
    if s != [] {
      ItemsOfText(s[1..], rest);
      ItemOfText(s[0], EscapedOnto(s[1..], rest));
      assert s == [s[0]] + s[1..];
    }
  }

  lemma Nothing(s: bytes)
    ensures [] + s == s
  {
  }

  lemma {:induction false} TreeOfText(fl: FloatLib, v: Value, rest: bytes)
    requires WellFormed(v)
    ensures TreeOnto(TreeOf(fl, v), rest) == SerializeOnto(fl, v, rest)
    decreases v, 0
  {
    match v
    case String(s) => ItemsOfText(s, rest);
    case Array(items) =>
      if items == [] { Nothing([RBRACKET] + rest); } else { ElemsOfText(fl, v, 0, rest); }
    case Object(keys, _) =>
      if keys == [] { Nothing([RBRACE] + rest); } else { MembersOfText(fl, v, 0, rest); }
    case _ =>
  }

  lemma {:induction false} ElemsOfText(fl: FloatLib, v: Value, i: nat, rest: bytes)
    requires WellFormed(v) && v.Array? && i < |v.items|
    ensures Separated(i, ElemsOnto(ElemsOf(fl, v, i), rest)) == ItemsFrom(fl, v, i, rest)
    decreases v, 0, |v.items| - i
  {
    var es := ElemsOf(fl, v, i);
    var after := AfterElem(es, rest);
    if i + 1 < |v.items| {
      ElemsOfText(fl, v, i + 1, rest);
    }
    assert after == ItemsFrom(fl, v, i + 1, rest);
    TreeOfText(fl, v.items[i], after);
    Nothing(after);
    Nothing(TreeOnto(es.v, after));
  }

  lemma {:induction false} MembersOfText(fl: FloatLib, v: Value, i: nat, rest: bytes)
    requires WellFormed(v) && v.Object? && i < |v.keys|
    ensures Separated(i, MembersOnto(MembersOf(fl, v, i), rest)) == MembersFrom(fl, v, i, rest)
    decreases v, 0, |v.keys| - i
  {
    hide TreeOnto, SerializeOnto, TreeOf, ItemsOf, ItemsOnto, EscapedOnto;
    var ms := MembersOf(fl, v, i);
    var after := AfterMember(ms, rest);
    if i + 1 < |v.keys| {
      MembersOfText(fl, v, i + 1, rest);
    }
    assert after == MembersFrom(fl, v, i + 1, rest);
    TreeOfText(fl, v.vals[i], after);
    var tail := [COLON] + TreeOnto(ms.v, after);
    ItemsOfText(v.keys[i], tail);
    Nothing(after);
    Nothing(TreeOnto(ms.v, after));
    Nothing(tail);
    Nothing([QUOTE] + ItemsOnto(ms.key, tail));
  }

  // The tree is legal and denotes the value.

  lemma {:induction false} TreeOfMeaning(fl: FloatLib, v: Value)
    requires WellFormed(v) && fl.Faithful()
    ensures var t := TreeOf(fl, v);
            TreeOk(t) && Finite(fl, t) && Eval(fl, t) == v && Nesting(t) == Depth(v)
    decreases v, 0
  {
    match v
    case String(s) => ItemsOfText(s, []);
    case Array(items) =>
      if items != [] {
        ElemsOfMeaning(fl, v, 0);
        assert items[0..] == items;
      }
    case Object(keys, vals) =>
      if keys != [] {
        MembersOfMeaning(fl, v, 0);
        assert Pairs(keys, vals)[0..] == Pairs(keys, vals) && vals[0..] == vals;
        SetAllOfDistinct(keys, vals);
      }
    case _ =>
  }

  lemma {:induction false} ElemsOfMeaning(fl: FloatLib, v: Value, i: nat)
    requires WellFormed(v) && v.Array? && i < |v.items| && fl.Faithful()
    ensures var es := ElemsOf(fl, v, i);
            ElemsOk(es) && ElemsFinite(fl, es) && ElemValues(fl, es) == v.items[i..]
            && ElemsNesting(es) == MaxDepth(v.items[i..])
    decreases v, 0, |v.items| - i
  {
    TreeOfMeaning(fl, v.items[i]);
    assert v.items[i..] == [v.items[i]] + v.items[i + 1..];
    if i + 1 < |v.items| {
      ElemsOfMeaning(fl, v, i + 1);
    }
  }

  lemma {:induction false} MembersOfMeaning(fl: FloatLib, v: Value, i: nat)
    requires WellFormed(v) && v.Object? && i < |v.keys| && fl.Faithful()
    ensures var ms := MembersOf(fl, v, i);
            MembersOk(ms) && MembersFinite(fl, ms) && MemberPairs(fl, ms) == Pairs(v.keys, v.vals)[i..]
            && MembersNesting(ms) == MaxDepth(v.vals[i..])
    decreases v, 0, |v.keys| - i
  {
    hide TreeOf, ItemsOf, ItemsText, Eval, Finite, TreeOk, Nesting;
    TreeOfMeaning(fl, v.vals[i]);
    ItemsOfText(v.keys[i], []);
    var ps := Pairs(v.keys, v.vals);
    assert ps[i] == Pair(v.keys[i], v.vals[i]);
    assert ps[i..] == [ps[i]] + ps[i + 1..];
    assert v.vals[i..] == [v.vals[i]] + v.vals[i + 1..];
    if i + 1 < |v.keys| {
      MembersOfMeaning(fl, v, i + 1);
    } else {
      assert ps[i + 1..] == [] && v.vals[i + 1..] == [];
    }
  }

  // The printed text is valid UTF-8 and has no control characters.

  lemma EscapeByteAscii(b: byte)
    requires b < 0x80
    ensures forall i :: 0 <= i < |EscapeByte(b)| ==> EscapeByte(b)[i] < 0x80
  {
  }

  lemma {:induction false} EscapedRun(state: Utf8.State, s: bytes, rest: bytes)
    requires Utf8.Run(state, s) == Utf8.ACCEPT && Utf8.Valid(rest)
    ensures Utf8.Run(state, EscapedOnto(s, rest)) == Utf8.ACCEPT
    decreases s
  {
    hide EscapeByte;
    if s == [] {
      Utf8.AsciiRun(state, QUOTE, rest);
    } else {
      var b, more := s[0], EscapedOnto(s[1..], rest);
      EscapedRun(Utf8.Step(state, b), s[1..], rest);
      if b < 0x80 {
        Utf8.AsciiStep(state, b);
        Utf8.RejectAbsorbs(s[1..]);
        EscapeByteAscii(b);
        Utf8.AsciiPrefix(EscapeByte(b), more);
      } else {
        EscapeByteRaw(b);
        assert ([b] + more)[1..] == more;
      }
    }
  }

  lemma EscapeByteRaw(b: byte)
    requires b >= 0x80
    ensures EscapeByte(b) == [b]
  {
  }

  lemma QuotedValid(s: bytes, rest: bytes)
    requires Utf8.Valid(s) && Utf8.Valid(rest)
    ensures Utf8.Valid(QuotedOnto(s, rest))
  {
    EscapedRun(Utf8.ACCEPT, s, rest);
    Utf8.AsciiRun(Utf8.ACCEPT, QUOTE, EscapedOnto(s, rest));
  }

  lemma SeparatedValid(i: nat, s: bytes)
    requires Utf8.Valid(s)
    ensures Utf8.Valid(Separated(i, s))
  {
    Utf8.AsciiRun(Utf8.ACCEPT, COMMA, s);
  }

  lemma {:induction false} SerializeValid(fl: FloatLib, v: Value, rest: bytes)
    requires WellFormed(v) && fl.Prints() && Utf8.Valid(rest)
    ensures Utf8.Valid(SerializeOnto(fl, v, rest))
    decreases v, 0
  {
    match v
    case Null => Utf8.AsciiPrefix(NULL_TEXT, rest);
    case Bool(b) => Utf8.AsciiPrefix(if b then TRUE_TEXT else FALSE_TEXT, rest);
    case Number(d) => NumberValid(fl.print17(d), rest);
    case String(s) => QuotedValid(s, rest);
    case Array(_) =>
      ItemsFromValid(fl, v, 0, rest);
      Utf8.AsciiRun(Utf8.ACCEPT, LBRACKET, ItemsFrom(fl, v, 0, rest));
    case Object(_, _) =>
      MembersFromValid(fl, v, 0, rest);
      Utf8.AsciiRun(Utf8.ACCEPT, LBRACE, MembersFrom(fl, v, 0, rest));
  }

  lemma {:induction false} ItemsFromValid(fl: FloatLib, v: Value, i: nat, rest: bytes)
    requires WellFormed(v) && v.Array? && i <= |v.items| && fl.Prints() && Utf8.Valid(rest)
    ensures Utf8.Valid(ItemsFrom(fl, v, i, rest))
    decreases v, 0, |v.items| - i
  {
    if i == |v.items| {
      Utf8.AsciiRun(Utf8.ACCEPT, RBRACKET, rest);
    } else {
      var more := ItemsFrom(fl, v, i + 1, rest);
      ItemsFromValid(fl, v, i + 1, rest);
      SerializeValid(fl, v.items[i], more);
      SeparatedValid(i, SerializeOnto(fl, v.items[i], more));
    }
  }

  lemma {:induction false} MembersFromValid(fl: FloatLib, v: Value, i: nat, rest: bytes)
    requires WellFormed(v) && v.Object? && i <= |v.keys| && fl.Prints() && Utf8.Valid(rest)
    ensures Utf8.Valid(MembersFrom(fl, v, i, rest))
    decreases v, 0, |v.keys| - i
  {
    if i == |v.keys| {
      Utf8.AsciiRun(Utf8.ACCEPT, RBRACE, rest);
    } else {
      var more := MembersFrom(fl, v, i + 1, rest);
      var val := SerializeOnto(fl, v.vals[i], more);
      MembersFromValid(fl, v, i + 1, rest);
      SerializeValid(fl, v.vals[i], more);
      Utf8.AsciiRun(Utf8.ACCEPT, COLON, val);
      QuotedValid(v.keys[i], [COLON] + val);
      SeparatedValid(i, QuotedOnto(v.keys[i], [COLON] + val));
    }
  }

  predicate Printable(s: bytes) {
    forall i :: 0 <= i < |s| ==> s[i] >= 0x20
  }

  lemma {:induction false} EscapedPrintable(s: bytes, rest: bytes)
    requires Printable(rest)
    ensures Printable(EscapedOnto(s, rest))
  {
    if s != [] {
      EscapedPrintable(s[1..], rest);
      assert Printable(EscapeByte(s[0]));
    }
  }

  lemma NumberPrintable(n: NumberToken, rest: bytes)
    requires NumberOk(n) && Printable(rest)
    ensures Printable(NumberOnto(n, rest))
  {
    assert Printable(n.whole) && Printable(n.frac);
    if n.exp.Exponent? {
      assert Printable(n.exp.sign) && Printable(n.exp.digits);
    }
    assert Printable(ExponentOnto(n.exp, rest));
    assert Printable(FractionOnto(n.frac, ExponentOnto(n.exp, rest)));
  }

  /** Serialized JSON never contains a byte below 0x20. */
  lemma {:induction false} SerializePrintable(fl: FloatLib, v: Value, rest: bytes)
    requires WellFormed(v) && fl.Prints() && Printable(rest)
    ensures Printable(SerializeOnto(fl, v, rest))
    decreases v, 0
  {
    match v
    case Number(d) => NumberPrintable(fl.print17(d), rest);
    case String(s) => EscapedPrintable(s, rest);
    case Array(_) => ItemsFromPrintable(fl, v, 0, rest);
    case Object(_, _) => MembersFromPrintable(fl, v, 0, rest);
    case _ =>
  }

  lemma {:induction false} ItemsFromPrintable(fl: FloatLib, v: Value, i: nat, rest: bytes)
    requires WellFormed(v) && v.Array? && i <= |v.items| && fl.Prints() && Printable(rest)
    ensures Printable(ItemsFrom(fl, v, i, rest))
    decreases v, 0, |v.items| - i
  {
    if i < |v.items| {
      ItemsFromPrintable(fl, v, i + 1, rest);
      SerializePrintable(fl, v.items[i], ItemsFrom(fl, v, i + 1, rest));
    }
  }

  lemma {:induction false} MembersFromPrintable(fl: FloatLib, v: Value, i: nat, rest: bytes)
    requires WellFormed(v) && v.Object? && i <= |v.keys| && fl.Prints() && Printable(rest)
    ensures Printable(MembersFrom(fl, v, i, rest))
    decreases v, 0, |v.keys| - i
  {
    if i < |v.keys| {
      var more := MembersFrom(fl, v, i + 1, rest);
      MembersFromPrintable(fl, v, i + 1, rest);
      SerializePrintable(fl, v.vals[i], more);
      EscapedPrintable(v.keys[i], [COLON] + SerializeOnto(fl, v.vals[i], more));
    }
  }

  // The round trip.

  /** Parsing what was printed gives the value back, up to the depth limit, and nothing beyond it. */
  lemma SerializeParseRoundTrip(fl: FloatLib, v: Value, limit: nat)
    requires WellFormed(v) && fl.Faithful()
    ensures Parse(fl, Serialize(fl, v), limit) == if Depth(v) <= limit then Some(v) else None
  {
    var doc := Document([], TreeOf(fl, v), []);
    TreeOfText(fl, v, []);
    assert DocumentText(doc) == Serialize(fl, v);
    TreeOfMeaning(fl, v);
    SerializeValid(fl, v, []);
    if Depth(v) <= limit {
      ReadDocumentComplete(fl, doc, Serialize(fl, v), limit);
    } else {
      TooDeepIsRejected(fl, doc, limit);
    }
  }

  // Faithful libraries exist: any printing that tells the doubles apart can be read back.

  lemma NumberTextInjective(n: NumberToken, m: NumberToken)
    requires NumberOk(n) && NumberOk(m) && NumberText(n) == NumberText(m)
    ensures n == m
  {
    ReadNumberComplete(n, []);
    ReadNumberComplete(m, []);
  }

  /** Mantissa and exponent in decimal. */
  function Parts(d: Double): (n: NumberToken)
    ensures NumberOk(n)
  {
    var (sign, size) := if d.exponent < 0 then ([MINUS], -d.exponent) else ([], d.exponent);
    NumberToken(d.negative, ToDecimal(d.mantissa), [], Exponent(0x65, sign, ToDecimal(size)))
  }

  lemma PartsInjective(d: Double, e: Double)
    requires Parts(d) == Parts(e)
    ensures d == e
  {
    hide ToDecimal;
    DecimalOfPrinted(d.mantissa);
    DecimalOfPrinted(e.mantissa);
    DecimalOfPrinted(if d.exponent < 0 then -d.exponent else d.exponent);
    DecimalOfPrinted(if e.exponent < 0 then -e.exponent else e.exponent);
  }

  ghost function Recovered(text: bytes): Option<Double> {
    if exists d: Double :: NumberText(Parts(d)) == text then
      var d: Double :| NumberText(Parts(d)) == text;
      Some(d)
    else None
  }

  lemma FaithfulLibraryExists() returns (fl: FloatLib)
    ensures fl.Faithful()
  {
    fl := FloatLib(Recovered, (d: Double) => Parts(d));
    forall d: Double
      ensures fl.strtod(NumberText(fl.print17(d))) == Some(d)
    {
      RecoveredParts(d);
    }
  }

  lemma RecoveredParts(d: Double)
    ensures Recovered(NumberText(Parts(d))) == Some(d)
  {
    hide Parts, NumberText;
    var e := Recovered(NumberText(Parts(d))).value;
    NumberTextInjective(Parts(d), Parts(e));
    PartsInjective(d, e);
  }
}
