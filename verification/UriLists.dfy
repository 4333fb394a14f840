/**
  What expansion and matching mean in the words of RFC 6570, byte for byte: the
  character that starts an expansion, the separators of a list, percent-encoding,
  and the prefix modifier.
 */
module UriLists {
  import opened Bytes
  import opened JsonValue
  import opened UriSyntax
  import opened UriMatch
  import opened UriVariables
  import opened UriExpand
  import Utf8

  // Percent-encoding.

  const UPPER_HEX: bytes :=
    [0x30, 0x31, 0x32, 0x33, 0x34, 0x35, 0x36, 0x37, 0x38, 0x39, 0x41, 0x42, 0x43, 0x44, 0x45, 0x46]

  /** Letters, digits and `-._~` always; `:/?#[]@!$&'()*+,;=` where reserved characters may stay. */
  predicate Stays(c: byte, reserved: bool) {
    || 0x41 <= c <= 0x5A || 0x61 <= c <= 0x7A || 0x30 <= c <= 0x39
    || c == 0x2D || c == 0x2E || c == 0x5F || c == 0x7E
    || (reserved && (|| c == 0x3A || c == 0x2F || c == 0x3F || c == 0x23 || c == 0x5B || c == 0x5D || c == 0x40
                     || c == 0x21 || c == 0x24 || 0x26 <= c <= 0x2C || c == 0x3B || c == 0x3D))
  }

  function Percent(c: byte, reserved: bool): bytes {
    if Stays(c, reserved) then [c] else [0x25, UPPER_HEX[c / 16], UPPER_HEX[c % 16]]
  }

  lemma EncodedByte(c: byte, reserved: bool)
    ensures EncodeByte(c, reserved) == Percent(c, reserved)
  {
    assert Allowed(c, reserved) == Stays(c, reserved);
    UpperHexDigit(c / 16);
    UpperHexDigit(c % 16);
  }

  lemma UpperHexDigit(n: nat)
    requires n < 16
    ensures UpperHex(n) == UPPER_HEX[n]
  {
  }

  /** A string is encoded byte by byte. */
  lemma {:induction false} EncodedString(s: bytes, reserved: bool)
    ensures EncodeAll(s, reserved) == Concat(seq(|s|, i requires 0 <= i < |s| => Percent(s[i], reserved)))
  {
    hide EncodeByte, Percent;
    var ps := seq(|s|, i requires 0 <= i < |s| => Percent(s[i], reserved));
    if s != [] {
      EncodedByte(s[0], reserved);
      EncodedString(s[1..], reserved);
      assert ps[1..] == seq(|s| - 1, i requires 0 <= i < |s| - 1 => Percent(s[1..][i], reserved));
    }
  }

  /** Two hexadecimal digits of either case after a percent sign stand for a byte; nothing else does. */
  lemma DecodedByte(s: bytes, x: nat, y: nat)
    requires s != [] && x < 16 && y < 16
    ensures |s| >= 3 && s[0] == 0x25 && IsHexDigit(s[1], x) && IsHexDigit(s[2], y) ==>
              UrlDecode(s) == [x * 16 + y] + UrlDecode(s[3..])
    ensures s[0] != 0x25 || |s| < 3 || NotHex(s[1]) || NotHex(s[2]) ==>
              UrlDecode(s) == [s[0]] + UrlDecode(s[1..])
  {
    hide HexValue, IsHexDigit, NotHex;
    if |s| >= 3 {
      HexDigits(s[1], x);
      HexDigits(s[2], y);
    }
  }

  // The prefix modifier.

  lemma EncodedShape(cp: int)
    requires Utf8.IsScalar(cp)
    ensures var c := Utf8.Encode(cp);
            c != [] && !IsContinuation(c[0]) && forall i :: 1 <= i < |c| ==> IsContinuation(c[i])
  {
  }

  lemma {:induction false} SkipTail(tail: bytes, rest: bytes, n: nat)
    requires forall i :: 0 <= i < |tail| ==> IsContinuation(tail[i])
    ensures TakeChars(tail + rest, n) == tail + TakeChars(rest, n)
    decreases |tail|
  {
    if tail == [] {
      assert tail + rest == rest;
    } else {
      assert (tail + rest)[1..] == tail[1..] + rest;
      SkipTail(tail[1..], rest, n);
      assert tail == [tail[0]] + tail[1..];
    }
  }

  lemma TakeOne(c: bytes, rest: bytes, n: nat)
    requires c != [] && !IsContinuation(c[0]) && forall i :: 1 <= i < |c| ==> IsContinuation(c[i])
    ensures TakeChars(c + rest, n) == if n == 0 then [] else c + TakeChars(rest, n - 1)
  {
    assert (c + rest)[1..] == c[1..] + rest;
    if n > 0 {
      SkipTail(c[1..], rest, n - 1);
      assert c == [c[0]] + c[1..];
    }
  }

  /** The prefix of length `n` of a text is its first `n` characters. */
  lemma {:induction false} FirstCharacters(cps: seq<int>, n: nat)
    requires forall i :: 0 <= i < |cps| ==> Utf8.IsScalar(cps[i])
    ensures TakeChars(Utf8.Spelled(cps), n) == Utf8.Spelled(if n < |cps| then cps[..n] else cps)
    decreases |cps|
  {
    hide IsContinuation;
    if cps != [] {
      EncodedShape(cps[0]);
      TakeOne(Utf8.Encode(cps[0]), Utf8.Spelled(cps[1..]), n);
      if n > 0 {
        FirstCharacters(cps[1..], n - 1);
        assert n < |cps| ==> cps[..n][1..] == cps[1..][..n - 1];
      }
    }
  }

  // Lists.

  /** What an expansion starts with. */
  function First(op: Op, name: bytes): bytes {
    match op
    case Hash => [0x23]
    case Slash => [0x2F]
    case Dot => [0x2E]
    case Query => [0x3F] + name + [0x3D]
    case _ => []
  }

  /** What stands between the items of an exploded list. */
  function Between(op: Op, name: bytes): bytes {
    match op
    case Slash => [0x2F]
    case Dot => [0x2E]
    case Query => [0x26] + name + [0x3D]
    case _ => [0x2C]
  }

  function Joined(sep: bytes, parts: seq<bytes>): bytes
    requires parts != []
  {
    if |parts| == 1 then parts[0] else parts[0] + (sep + Joined(sep, parts[1..]))
  }

  lemma JoinedMore(sep: bytes, parts: seq<bytes>, i: nat)
    requires i + 1 < |parts|
    ensures Joined(sep, parts[i..]) == parts[i] + (sep + Joined(sep, parts[i + 1..]))
  {
    assert parts[i..][1..] == parts[i + 1..];
  }

  lemma JoinedLast(sep: bytes, parts: seq<bytes>, i: nat)
    requires i + 1 == |parts|
    ensures Joined(sep, parts[i..]) == parts[i]
  {
  }

  /** Strings stand for themselves, numbers are printed, anything else is empty. */
  predicate PrintsAs(fmt: NumberFormat, v: Value, text: bytes) {
    text == match v
      case String(s) => s
      case Number(d) => fmt(d)
      case _ => []
  }

  /** The encodings of some texts; only `+` and `#` let reserved characters stay. */
  function Encodings(e: VarExpr, texts: seq<bytes>): (es: seq<bytes>)
    ensures |es| == |texts|
  {
    seq(|texts|, i requires 0 <= i < |texts| => Encode(texts[i], e.op == Plus || e.op == Hash, e.mod))
  }

  /** A list expands to the operator's first character and the items' encodings, separated as the operator says. */
  lemma ExpandedList(fmt: NumberFormat, e: VarExpr, key: bytes, items: seq<Value>, texts: seq<bytes>)
    requires items != [] && |texts| == |items| && forall i :: 0 <= i < |items| ==> PrintsAs(fmt, items[i], texts[i])
    ensures ExpandValue(fmt, e, key, Array(items))
         == First(e.op, key) + Joined(if e.mod == Explode then Between(e.op, key) else [0x2C], Encodings(e, texts))
  {
    hide Encode, ExplodedFrom, JoinedFrom, Joined;
    var es := Encodings(e, texts);
    if e.mod == Explode {
      ExplodedTail(fmt, e, key, items, texts, 0);
      assert es[0..] == es;
    } else {
      JoinedTail(fmt, e, items, texts, 0);
      assert es[0..] == es;
    }
  }

  lemma ItemStep(fmt: NumberFormat, e: VarExpr, key: bytes, items: seq<Value>, texts: seq<bytes>, i: nat)
    requires i < |items| == |texts| && PrintsAs(fmt, items[i], texts[i])
    ensures Encode(ItemText(fmt, items[i]), Reserved(e.op), e.mod) == Encodings(e, texts)[i]
    ensures ItemLead(e, key, i) == if i == 0 then First(e.op, key) else Between(e.op, key)
  {
    hide Encode;
    assert ItemText(fmt, items[i]) == texts[i];
  }

  lemma {:induction false} ExplodedTail(fmt: NumberFormat, e: VarExpr, key: bytes,
                                        items: seq<Value>, texts: seq<bytes>, i: nat)
    requires i < |items| == |texts| && forall j :: 0 <= j < |items| ==> PrintsAs(fmt, items[j], texts[j])
    ensures ExplodedFrom(fmt, e, key, items, i)
         == (if i == 0 then First(e.op, key) else Between(e.op, key))
            + Joined(Between(e.op, key), Encodings(e, texts)[i..])
    decreases |items| - i
  {
    hide Encode, Encodings, ItemLead, ItemText, First, Between, Joined, PrintsAs;
    var es, sep := Encodings(e, texts), Between(e.op, key);
    var lead := ItemLead(e, key, i);
    ItemStep(fmt, e, key, items, texts, i);
    if i + 1 == |items| {
      JoinedLast(sep, es, i);
      assert lead + es[i] + [] == lead + es[i];
    } else {
      ExplodedTail(fmt, e, key, items, texts, i + 1);
      JoinedMore(sep, es, i);
      assert lead + es[i] + (sep + Joined(sep, es[i + 1..])) == lead + (es[i] + (sep + Joined(sep, es[i + 1..])));
    }
  }

  lemma {:induction false} JoinedTail(fmt: NumberFormat, e: VarExpr, items: seq<Value>, texts: seq<bytes>, i: nat)
    requires i < |items| == |texts| && forall j :: 0 <= j < |items| ==> PrintsAs(fmt, items[j], texts[j])
    ensures JoinedFrom(fmt, e, items, i) == (if i == 0 then [] else [0x2C]) + Joined([0x2C], Encodings(e, texts)[i..])
    decreases |items| - i
  {
    hide Encode, Encodings, ItemText, Joined, PrintsAs;
    var es, sep := Encodings(e, texts), [0x2C];
    var lead := if i == 0 then [] else [0x2C];
    ItemStep(fmt, e, [], items, texts, i);
    if i + 1 == |items| {
      JoinedLast(sep, es, i);
      assert lead + es[i] + [] == lead + es[i];
    } else {
      JoinedTail(fmt, e, items, texts, i + 1);
      JoinedMore(sep, es, i);
      assert lead + es[i] + (sep + Joined(sep, es[i + 1..])) == lead + (es[i] + (sep + Joined(sep, es[i + 1..])));
    }
  }

  /** Strings and numbers expand to the operator's first character and their encoding, everything else to nothing. */
  lemma ExpandedScalar(fmt: NumberFormat, e: VarExpr, key: bytes, v: Value, text: bytes)
    requires PrintsAs(fmt, v, text) && (v.Array? ==> v.items == [])
    ensures ExpandValue(fmt, e, key, v)
         == if v.String? || v.Number? then First(e.op, key) + Encode(text, e.op == Plus || e.op == Hash, e.mod) else []
  {
    hide Encode;
  }

  // Splitting an exploded value.

  predicate Lacks(parts: seq<bytes>, d: byte) {
    forall i :: 0 <= i < |parts| ==> d !in parts[i]
  }

  lemma FindAfter(a: bytes, d: byte, rest: bytes)
    requires d !in a
    ensures Find(a + ([d] + rest), d) == |a| && Find(a, d) == |a|
  {
    hide Find;
    var s := a + ([d] + rest);
    assert s[|a|] == d && forall i :: 0 <= i < |a| ==> s[i] == a[i];
  }

  lemma SplitFirst(a: bytes, d: byte, rest: bytes)
    requires d !in a
    ensures SplitOn(a, d) == [a]
    ensures SplitOn(a + ([d] + rest), d) == [a] + SplitOn(rest, d)
  {
    hide Find;
    var s := a + ([d] + rest);
    FindAfter(a, d, rest);
    assert s[..|a|] == a && s[|a| + 1..] == rest;
  }

  /** Splitting undoes joining with a byte that no part contains. */
  lemma {:induction false} SplitJoined(d: byte, parts: seq<bytes>)
    requires parts != [] && Lacks(parts, d)
    ensures SplitOn(Joined([d], parts), d) == parts
    decreases |parts|
  {
    hide SplitOn;
    if |parts| == 1 {
      SplitFirst(parts[0], d, []);
      assert parts == [parts[0]];
    } else {
      SplitFirst(parts[0], d, Joined([d], parts[1..]));
      SplitJoined(d, parts[1..]);
      assert parts == [parts[0]] + parts[1..];
    }
  }

  /** The separator byte of an exploded list. */
  function Separator(op: Op): byte {
    match op
    case Slash => 0x2F
    case Dot => 0x2E
    case Query => 0x26
    case _ => 0x2C
  }

  /** The pieces between separators: for a query every piece but the first repeats the name. */
  function Pieces(op: Op, name: bytes, es: seq<bytes>): (ps: seq<bytes>)
    ensures |ps| == |es|
  {
    seq(|es|, i requires 0 <= i < |es| => if op == Query && i > 0 then name + [0x3D] + es[i] else es[i])
  }

  lemma {:induction false} JoinedPieces(op: Op, name: bytes, es: seq<bytes>, i: nat)
    requires i < |es|
    ensures Joined([Separator(op)], Pieces(op, name, es)[i..])
         == (if op == Query && i > 0 then name + [0x3D] else []) + Joined(Between(op, name), es[i..])
    decreases |es| - i
  {
    hide Joined;
    var ps := Pieces(op, name, es);
    var lead := if op == Query && i > 0 then name + [0x3D] else [];
    assert ps[i] == lead + es[i];
    if i + 1 == |es| {
      JoinedLast([Separator(op)], ps, i);
      JoinedLast(Between(op, name), es, i);
    } else {
      JoinedPieces(op, name, es, i + 1);
      JoinedMore([Separator(op)], ps, i);
      JoinedMore(Between(op, name), es, i);
      var more := Joined(Between(op, name), es[i + 1..]);
      assert Between(op, name) == [Separator(op)] + (if op == Query then name + [0x3D] else []);
      Reassociate(lead, es[i], [Separator(op)], if op == Query then name + [0x3D] else [], more);
    }
  }

  lemma Reassociate(a: bytes, b: bytes, c: bytes, d: bytes, e: bytes)
    ensures (a + b) + (c + (d + e)) == a + (b + ((c + d) + e))
  {
  }

  /** An exploded value splits back into the encodings it was joined from. */
  lemma SplitExploded(op: Op, name: bytes, es: seq<bytes>)
    requires es != [] && Lacks(es, Separator(op)) && (op == Query ==> 0x26 !in name)
    ensures SplitOn(Joined(Between(op, name), es), Delimiter(op)) == Pieces(op, name, es)
  {
    hide SplitOn, Joined;
    var ps := Pieces(op, name, es);
    JoinedPieces(op, name, es, 0);
    assert ps[0..] == ps && es[0..] == es;
    assert [] + Joined(Between(op, name), es) == Joined(Between(op, name), es);
    SplitJoined(Separator(op), ps);
  }

  lemma PieceValue(op: Op, name: bytes, es: seq<bytes>, i: nat)
    requires i < |es|
    ensures TokenValue(op, name, Pieces(op, name, es)[i], i == 0) == es[i]
  {
    if op == Query && i > 0 {
      var p := Pieces(op, name, es)[i];
      assert p == name + [0x3D] + es[i];
      assert p[..|name| + 1] == name + [EQUALS] && p[|name| + 1..] == es[i];
    }
  }

  // Limits of a value.

  /** Which bytes a captured value may contain, and how many. */
  lemma ValueLimits(e: VarExpr, v: bytes, last: bool)
    ensures Fits(e, v, last) <==>
      match e.mod
      case Explode => true
      case _ =>
        && (e.op == Simple || e.op == Slash || e.op == Dot || e.op == Query ==> 0x2F !in v)
        && (e.op == Query ==> 0x26 !in v && (last || 0x23 !in v))
        && (e.mod.Prefix? ==> |v| <= e.mod.n)
  {
  }
}
