/**
  The grammar of sections 2 to 8 of RFC 8259 as concrete syntax trees.

  A tree keeps every byte of its text, white space and spelling of escapes included.
  `XOnto(x, rest)` is the text of `x` followed by `rest`.
 */
module JsonGrammar {
  import opened Bytes
  import opened Decimals
  import opened JsonValue
  import Utf8

  datatype List<+T> = Nil | Cons(head: T, tail: List<T>)

  // Section 2: white space.

  predicate IsWs(b: byte) {
    b == SPACE || b == TAB || b == LF || b == CR
  }

  predicate Ws(s: bytes) {
    forall i :: 0 <= i < |s| ==> IsWs(s[i])
  }

  // Section 7: strings.

  datatype Item =
    | Raw(b: byte)
    | Escape(c: byte)
    | Unicode(h: bytes)
    | Surrogates(hi: bytes, lo: bytes)

  predicate Hex4(h: bytes) {
    |h| == 4 && HexValue(h[0]) >= 0 && HexValue(h[1]) >= 0 && HexValue(h[2]) >= 0 && HexValue(h[3]) >= 0
  }

  function Hex4Value(h: bytes): (v: int)
    requires Hex4(h)
    ensures 0 <= v <= 0xFFFF
  {
    HexValue(h[0]) * 4096 + HexValue(h[1]) * 256 + HexValue(h[2]) * 16 + HexValue(h[3])
  }

  predicate IsHigh(v: int) { 0xD800 <= v <= 0xDBFF }

  predicate IsLow(v: int) { 0xDC00 <= v <= 0xDFFF }

  /** The byte a two-character escape stands for, if it is one of the eight. */
  function Escaped(c: byte): (r: Option<byte>)
    ensures r.Some? ==> r.value < 0x80
  {
    if c == QUOTE || c == BACKSLASH || c == SLASH then Some(c)
    else if c == 0x62 then Some(BACKSPACE)
    else if c == 0x66 then Some(FORMFEED)
    else if c == 0x6E then Some(LF)
    else if c == 0x72 then Some(CR)
    else if c == 0x74 then Some(TAB)
    else None
  }

  const U: byte := 0x75

  predicate ItemOk(it: Item) {
    match it
    case Raw(b) => b >= 0x20 && b != QUOTE && b != BACKSLASH
    case Escape(c) => Escaped(c).Some?
    case Unicode(h) => Hex4(h) && !IsHigh(Hex4Value(h)) && !IsLow(Hex4Value(h))
    case Surrogates(hi, lo) => Hex4(hi) && IsHigh(Hex4Value(hi)) && Hex4(lo) && IsLow(Hex4Value(lo))
  }

  function PairValue(hi: int, lo: int): int {
    0x10000 + (hi - 0xD800) * 1024 + (lo - 0xDC00)
  }

  /** The UTF-8 bytes an item contributes to the string's value. */
  function ItemText(it: Item): bytes
    requires ItemOk(it)
  {
    match it
    case Raw(b) => [b]
    case Escape(c) => [Escaped(c).value]
    case Unicode(h) => Utf8.Encode(Hex4Value(h))
    case Surrogates(hi, lo) => Utf8.Encode(PairValue(Hex4Value(hi), Hex4Value(lo)))
  }

  function ItemOnto(it: Item, rest: bytes): bytes {
    match it
    case Raw(b) => [b] + rest
    case Escape(c) => [BACKSLASH, c] + rest
    case Unicode(h) => [BACKSLASH, U] + h + rest
    case Surrogates(hi, lo) => [BACKSLASH, U] + hi + [BACKSLASH, U] + lo + rest
  }

  predicate ItemsOk(items: List<Item>) {
    items.Cons? ==> ItemOk(items.head) && ItemsOk(items.tail)
  }

  function ItemsText(items: List<Item>): bytes
    requires ItemsOk(items)
  {
    if items.Nil? then [] else ItemText(items.head) + ItemsText(items.tail)
  }

  /** The items, the closing quote and what follows. */
  function ItemsOnto(items: List<Item>, rest: bytes): bytes {
    if items.Nil? then [QUOTE] + rest else ItemOnto(items.head, ItemsOnto(items.tail, rest))
  }

  // Section 6: numbers.

  datatype Exponent = NoExponent | Exponent(e: byte, sign: bytes, digits: bytes)

  /** An empty `frac` means there is no fraction part. */
  datatype NumberToken = NumberToken(minus: bool, whole: bytes, frac: bytes, exp: Exponent)

  predicate WholeOk(w: bytes) {
    w == [0x30] || (w != [] && Digits(w) && w[0] != 0x30)
  }

  predicate ExponentOk(x: Exponent) {
    x.Exponent? ==>
      && (x.e == 0x65 || x.e == 0x45)
      && (x.sign == [] || x.sign == [PLUS] || x.sign == [MINUS])
      && x.digits != [] && Digits(x.digits)
  }

  predicate NumberOk(n: NumberToken) {
    WholeOk(n.whole) && Digits(n.frac) && ExponentOk(n.exp)
  }

  function ExponentOnto(x: Exponent, rest: bytes): bytes {
    match x
    case NoExponent => rest
    case Exponent(e, sign, digits) => [e] + (sign + (digits + rest))
  }

  function FractionOnto(frac: bytes, rest: bytes): bytes {
    if frac == [] then rest else [DOT] + (frac + rest)
  }

  function NumberOnto(n: NumberToken, rest: bytes): bytes {
    var body := n.whole + FractionOnto(n.frac, ExponentOnto(n.exp, rest));
    if n.minus then [MINUS] + body else body
  }

  /** The token's own text, as it is handed to `strtod`. */
  function NumberText(n: NumberToken): bytes {
    NumberOnto(n, [])
  }

  lemma NumberOntoText(n: NumberToken, rest: bytes)
    ensures NumberOnto(n, rest) == NumberText(n) + rest
  {
    assert ExponentOnto(n.exp, rest) == ExponentOnto(n.exp, []) + rest;
    assert FractionOnto(n.frac, ExponentOnto(n.exp, rest)) == FractionOnto(n.frac, ExponentOnto(n.exp, [])) + rest;
  }

  // Sections 3 to 5: values, objects and arrays.

  datatype Tree =
    | TNull
    | TBool(b: bool)
    | TNumber(n: NumberToken)
    | TString(items: List<Item>)
    | TEmptyArray(ws: bytes)
    | TArray(elems: Elems)
    | TEmptyObject(ws: bytes)
    | TObject(members: Members)

  datatype Elems =
    | LastElem(pre: bytes, v: Tree, post: bytes)
    | MoreElems(pre: bytes, v: Tree, post: bytes, next: Elems)

  datatype Members =
    | LastMember(pre: bytes, key: List<Item>, mid: bytes, gap: bytes, v: Tree, post: bytes)
    | MoreMembers(pre: bytes, key: List<Item>, mid: bytes, gap: bytes, v: Tree, post: bytes, next: Members)

  const NULL_TEXT: bytes := [0x6E, 0x75, 0x6C, 0x6C]
  const TRUE_TEXT: bytes := [0x74, 0x72, 0x75, 0x65]
  const FALSE_TEXT: bytes := [0x66, 0x61, 0x6C, 0x73, 0x65]

  predicate TreeOk(t: Tree) {
    match t
    case TNumber(n) => NumberOk(n)
    case TString(items) => ItemsOk(items)
    case TEmptyArray(ws) => Ws(ws)
    case TArray(es) => ElemsOk(es)
    case TEmptyObject(ws) => Ws(ws)
    case TObject(ms) => MembersOk(ms)
    case _ => true
  }

  predicate ElemsOk(es: Elems) {
    Ws(es.pre) && TreeOk(es.v) && Ws(es.post) && (es.MoreElems? ==> ElemsOk(es.next))
  }

  predicate MembersOk(ms: Members) {
    && Ws(ms.pre) && ItemsOk(ms.key) && Ws(ms.mid) && Ws(ms.gap) && TreeOk(ms.v) && Ws(ms.post)
    && (ms.MoreMembers? ==> MembersOk(ms.next))
  }

  function TreeOnto(t: Tree, rest: bytes): bytes
    decreases t
  {
    match t
    case TNull => NULL_TEXT + rest
    case TBool(b) => (if b then TRUE_TEXT else FALSE_TEXT) + rest
    case TNumber(n) => NumberOnto(n, rest)
    case TString(items) => [QUOTE] + ItemsOnto(items, rest)
    case TEmptyArray(ws) => [LBRACKET] + (ws + ([RBRACKET] + rest))
    case TArray(es) => [LBRACKET] + ElemsOnto(es, rest)
    case TEmptyObject(ws) => [LBRACE] + (ws + ([RBRACE] + rest))
    case TObject(ms) => [LBRACE] + MembersOnto(ms, rest)
  }

  function ElemsOnto(es: Elems, rest: bytes): bytes
    decreases es, 1
  {
    es.pre + TreeOnto(es.v, es.post + AfterElem(es, rest))
  }

  function AfterElem(es: Elems, rest: bytes): bytes
    decreases es, 0
  {
    if es.LastElem? then [RBRACKET] + rest else [COMMA] + ElemsOnto(es.next, rest)
  }

  function MembersOnto(ms: Members, rest: bytes): bytes
    decreases ms, 1
  {
    ms.pre + ([QUOTE] + ItemsOnto(ms.key, ms.mid + ([COLON] + (ms.gap + TreeOnto(ms.v, ms.post + AfterMember(ms, rest))))))
  }

  function AfterMember(ms: Members, rest: bytes): bytes
    decreases ms, 0
  {
    if ms.LastMember? then [RBRACE] + rest else [COMMA] + MembersOnto(ms.next, rest)
  }

  /** A JSON text: one value with white space around it. */
  datatype Document = Document(pre: bytes, v: Tree, post: bytes)

  predicate DocumentOk(doc: Document) {
    Ws(doc.pre) && TreeOk(doc.v) && Ws(doc.post)
  }

  function DocumentText(doc: Document): bytes {
    doc.pre + TreeOnto(doc.v, doc.post)
  }

  // What a tree denotes.

  /** How deep arrays and objects nest. */
  function Nesting(t: Tree): nat {
    match t
    case TEmptyArray(_) => 1
    case TArray(es) => 1 + ElemsNesting(es)
    case TEmptyObject(_) => 1
    case TObject(ms) => 1 + MembersNesting(ms)
    case _ => 0
  }

  function Max(a: nat, b: nat): nat {
    if a < b then b else a
  }

  function ElemsNesting(es: Elems): nat {
    if es.LastElem? then Nesting(es.v) else Max(Nesting(es.v), ElemsNesting(es.next))
  }

  function MembersNesting(ms: Members): nat {
    if ms.LastMember? then Nesting(ms.v) else Max(Nesting(ms.v), MembersNesting(ms.next))
  }

  /**
    The floating-point library: `strtod`, undefined where the result is not finite,
    and `%.17g`, given as the parts of the token it prints.
   */
  datatype FloatLib = FloatLib(strtod: bytes -> Option<Double>, print17: Double -> NumberToken) {
    /** Whatever is printed for a finite double is a number of section 6. */
    ghost predicate Prints() {
      forall d: Double :: NumberOk(print17(d))
    }

    /** Printing a finite double with 17 significant digits and reading it back is the identity. */
    ghost predicate Faithful() {
      Prints() && forall d: Double :: strtod(NumberText(print17(d))) == Some(d)
    }
  }

  /** Every number of the tree converts to a finite double. */
  predicate Finite(fl: FloatLib, t: Tree) {
    match t
    case TNumber(n) => fl.strtod(NumberText(n)).Some?
    case TArray(es) => ElemsFinite(fl, es)
    case TObject(ms) => MembersFinite(fl, ms)
    case _ => true
  }

  predicate ElemsFinite(fl: FloatLib, es: Elems) {
    Finite(fl, es.v) && (es.MoreElems? ==> ElemsFinite(fl, es.next))
  }

  predicate MembersFinite(fl: FloatLib, ms: Members) {
    Finite(fl, ms.v) && (ms.MoreMembers? ==> MembersFinite(fl, ms.next))
  }

  /** The document: strings end at an escaped NUL, members are inserted in order. */
  function Eval(fl: FloatLib, t: Tree): Value
    requires TreeOk(t) && Finite(fl, t)
    decreases t
  {
    match t
    case TNull => Null
    case TBool(b) => Bool(b)
    case TNumber(n) => Number(fl.strtod(NumberText(n)).value)
    case TString(items) => String(CStr(ItemsText(items)))
    case TEmptyArray(_) => Array([])
    case TArray(es) => Array(ElemValues(fl, es))
    case TEmptyObject(_) => Object([], [])
    case TObject(ms) => var (ks, vs) := SetAll(MemberPairs(fl, ms)); Object(ks, vs)
  }

  function ElemValues(fl: FloatLib, es: Elems): seq<Value>
    requires ElemsOk(es) && ElemsFinite(fl, es)
    decreases es
  {
    [Eval(fl, es.v)] + if es.LastElem? then [] else ElemValues(fl, es.next)
  }

  function MemberPair(fl: FloatLib, ms: Members): Pair
    requires MembersOk(ms) && MembersFinite(fl, ms)
    decreases ms, 0
  {
    Pair(CStr(ItemsText(ms.key)), Eval(fl, ms.v))
  }

  function MemberPairs(fl: FloatLib, ms: Members): seq<Pair>
    requires MembersOk(ms) && MembersFinite(fl, ms)
    decreases ms, 1
  {
    [MemberPair(fl, ms)] + if ms.LastMember? then [] else MemberPairs(fl, ms.next)
  }

  // Encoding of the strings.

  /** Every string of the tree, unescaped, is valid UTF-8. */
  predicate StringsValid(t: Tree)
    requires TreeOk(t)
  {
    match t
    case TString(items) => Utf8.Valid(ItemsText(items))
    case TArray(es) => ElemsStringsValid(es)
    case TObject(ms) => MembersStringsValid(ms)
    case _ => true
  }

  predicate ElemsStringsValid(es: Elems)
    requires ElemsOk(es)
  {
    StringsValid(es.v) && (es.MoreElems? ==> ElemsStringsValid(es.next))
  }

  predicate MembersStringsValid(ms: Members)
    requires MembersOk(ms)
  {
    && Utf8.Valid(ItemsText(ms.key)) && StringsValid(ms.v)
    && (ms.MoreMembers? ==> MembersStringsValid(ms.next))
  }
}
