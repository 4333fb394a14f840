/**
  The recursive-descent parser as a function from the unread text to a syntax
  tree and the text left over, and the proof that it reads exactly the grammar.
  `room` is the number of further nesting levels the depth limit allows.
 */
module JsonParser {
  import opened Bytes
  import opened Decimals
  import opened JsonGrammar
  import Utf8

  datatype Read<+T> = Fail | Done(v: T, rest: bytes)

  // Scanning.

  /** The white space a text starts with, and what follows it. */
  function TakeWs(s: bytes): (r: bytes)
    ensures Ws(r)
  {
    if s == [] || !IsWs(s[0]) then [] else [s[0]] + TakeWs(s[1..])
  }

  function SkipWs(s: bytes): (r: bytes)
    ensures |r| <= |s|
  {
    if s == [] || !IsWs(s[0]) then s else SkipWs(s[1..])
  }

  lemma Regroup(s: bytes, a: bytes, b: bytes)
    requires s != [] && s[1..] == a + b
    ensures s == ([s[0]] + a) + b
  {
    assert s == [s[0]] + s[1..];
  }

  lemma {:induction false} SplitWs(s: bytes)
    ensures s == TakeWs(s) + SkipWs(s)
  {
    if !(s == [] || !IsWs(s[0])) {
      SplitWs(s[1..]);
      Regroup(s, TakeWs(s[1..]), SkipWs(s[1..]));
    }
  }

  lemma {:induction false} SkipWsOf(ws: bytes, s: bytes)
    requires Ws(ws) && (s == [] || !IsWs(s[0]))
    ensures TakeWs(ws + s) == ws && SkipWs(ws + s) == s
  {
    if ws == [] {
      assert ws + s == s;
    } else {
      assert (ws + s)[1..] == ws[1..] + s;
      SkipWsOf(ws[1..], s);
    }
  }

  /** The digits a text starts with, and what follows them. */
  function TakeDigits(s: bytes): (r: bytes)
    ensures Digits(r)
  {
    if s == [] || !IsDigit(s[0]) then [] else [s[0]] + TakeDigits(s[1..])
  }

  function SkipDigits(s: bytes): (r: bytes)
    ensures |r| <= |s|
    ensures s != [] && IsDigit(s[0]) ==> |r| < |s|
  {
    if s == [] || !IsDigit(s[0]) then s else SkipDigits(s[1..])
  }

  lemma {:induction false} SplitDigits(s: bytes)
    ensures s == TakeDigits(s) + SkipDigits(s)
  {
    if !(s == [] || !IsDigit(s[0])) {
      SplitDigits(s[1..]);
      Regroup(s, TakeDigits(s[1..]), SkipDigits(s[1..]));
    }
  }

  lemma {:induction false} SkipDigitsOf(d: bytes, s: bytes)
    requires Digits(d) && (s == [] || !IsDigit(s[0]))
    ensures TakeDigits(d + s) == d && SkipDigits(d + s) == s
  {
    if d == [] {
      assert d + s == s;
    } else {
      assert (d + s)[1..] == d[1..] + s;
      SkipDigitsOf(d[1..], s);
    }
  }

  function NextItem(s: bytes): (r: Read<Item>)
    requires s != []
    ensures r.Done? ==> |r.rest| < |s|
  {
    if s[0] == BACKSLASH then
      if |s| < 2 then Fail
      else if s[1] == U then
        if |s| < 6 || !Hex4(s[2..6]) then Fail
        else if IsHigh(Hex4Value(s[2..6])) then
          if |s| < 12 || s[6] != BACKSLASH || s[7] != U || !Hex4(s[8..12]) || !IsLow(Hex4Value(s[8..12])) then Fail
          else Done(Surrogates(s[2..6], s[8..12]), s[12..])
        else if IsLow(Hex4Value(s[2..6])) then Fail
        else Done(Unicode(s[2..6]), s[6..])
      else if Escaped(s[1]).Some? then Done(Escape(s[1]), s[2..])
      else Fail
    else if s[0] < 0x20 then Fail
    else Done(Raw(s[0]), s[1..])
  }

  /** Everything after an opening quote. */
  function ReadItems(s: bytes): (r: Read<List<Item>>)
    ensures r.Done? ==> |r.rest| < |s|
    decreases |s|
  {
    if s == [] then Fail
    else if s[0] == QUOTE then Done(Nil, s[1..])
    else
      var i := NextItem(s);
      if i.Fail? then Fail
      else
        var more := ReadItems(i.rest);
        if more.Fail? then Fail else Done(Cons(i.v, more.v), more.rest)
  }

  lemma {:induction false} ReadItemsSound(s: bytes)
    requires ReadItems(s).Done?
    ensures ItemsOk(ReadItems(s).v) && ItemsOnto(ReadItems(s).v, ReadItems(s).rest) == s
    decreases |s|
  {
    if s[0] == QUOTE {
    } else {
      var i := NextItem(s);
      NextItemSound(s);
      ReadItemsSound(i.rest);
    }
  }

  lemma NextItemSound(s: bytes)
    requires s != [] && s[0] != QUOTE && NextItem(s).Done?
    ensures ItemOk(NextItem(s).v) && ItemOnto(NextItem(s).v, NextItem(s).rest) == s
  {
    if s[0] == BACKSLASH {
      if s[1] == U {
        if IsHigh(Hex4Value(s[2..6])) {
          assert s == [BACKSLASH, U] + s[2..6] + [BACKSLASH, U] + s[8..12] + s[12..];
        } else {
          assert s == [BACKSLASH, U] + s[2..6] + s[6..];
        }
      }
    }
  }

  lemma NextItemComplete(it: Item, rest: bytes)
    requires ItemOk(it)
    ensures var s := ItemOnto(it, rest); s != [] && s[0] != QUOTE && NextItem(s) == Done(it, rest)
  {
    var s := ItemOnto(it, rest);
    match it
    case Raw(b) =>
    case Escape(c) =>
    case Unicode(h) =>
      assert s[2..6] == h && s[6..] == rest;
    case Surrogates(hi, lo) =>
      assert s[2..6] == hi && s[8..12] == lo && s[12..] == rest;
  }

  lemma {:induction false} ReadItemsComplete(items: List<Item>, rest: bytes)
    requires ItemsOk(items)
    ensures ReadItems(ItemsOnto(items, rest)) == Done(items, rest)
  {
    match items
    case Nil =>
    case Cons(it, tail) =>
      NextItemComplete(it, ItemsOnto(tail, rest));
      ReadItemsComplete(tail, rest);
  }

  /** `parse_string_raw` after its opening quote: the unescaped bytes are validated again. */
  function ReadString(s: bytes): (r: Read<List<Item>>)
    ensures r.Done? ==> |r.rest| < |s|
  {
    var r := ReadItems(s);
    if r.Done? && (ReadItemsSound(s); Utf8.Valid(ItemsText(r.v))) then r else Fail
  }

  // Numbers.

  function ReadWhole(s: bytes): (r: Read<bytes>)
    ensures r.Done? ==> |r.rest| < |s|
  {
    if s == [] then Fail
    else if s[0] == 0x30 then Done([0x30], s[1..])
    else if IsDigit(s[0]) then Done(TakeDigits(s), SkipDigits(s))
    else Fail
  }

  function ReadFraction(s: bytes): (r: Read<bytes>)
    ensures r.Done? ==> |r.rest| <= |s|
  {
    if s == [] || s[0] != DOT then Done([], s)
    else if TakeDigits(s[1..]) == [] then Fail
    else Done(TakeDigits(s[1..]), SkipDigits(s[1..]))
  }

  function ReadExponent(s: bytes): (r: Read<Exponent>)
    ensures r.Done? ==> |r.rest| <= |s|
  {
    if s == [] || !(s[0] == 0x65 || s[0] == 0x45) then Done(NoExponent, s)
    else
      var sign: bytes := if |s| > 1 && (s[1] == PLUS || s[1] == MINUS) then [s[1]] else [];
      var t := s[1 + |sign|..];
      if TakeDigits(t) == [] then Fail else Done(Exponent(s[0], sign, TakeDigits(t)), SkipDigits(t))
  }

  /** `scan_number`. */
  function ReadNumber(s: bytes): (r: Read<NumberToken>)
    ensures r.Done? ==> |r.rest| < |s|
  {
    var minus := s != [] && s[0] == MINUS;
    var whole := ReadWhole(if minus then s[1..] else s);
    if whole.Fail? then Fail
    else
      var frac := ReadFraction(whole.rest);
      if frac.Fail? then Fail
      else
        var exp := ReadExponent(frac.rest);
        if exp.Fail? then Fail
        else Done(NumberToken(minus, whole.v, frac.v, exp.v), exp.rest)
  }

  lemma ReadWholeSound(s: bytes)
    requires ReadWhole(s).Done?
    ensures var Done(w, rest) := ReadWhole(s); s == w + rest && WholeOk(w)
  {
    if s[0] == 0x30 {
      assert s == [0x30] + s[1..];
    } else {
      SplitDigits(s);
    }
  }

  lemma ReadFractionSound(s: bytes)
    requires ReadFraction(s).Done?
    ensures var Done(f, rest) := ReadFraction(s); s == FractionOnto(f, rest) && Digits(f)
  {
    if !(s == [] || s[0] != DOT) {
      SplitDigits(s[1..]);
      assert s == [DOT] + s[1..];
    }
  }

  lemma ReadExponentSound(s: bytes)
    requires ReadExponent(s).Done?
    ensures var Done(x, rest) := ReadExponent(s); s == ExponentOnto(x, rest) && ExponentOk(x)
  {
    if s != [] && (s[0] == 0x65 || s[0] == 0x45) {
      var x := ReadExponent(s).v;
      var t := s[1 + |x.sign|..];
      SplitDigits(t);
      assert s == [s[0]] + (x.sign + t);
    }
  }

  lemma ReadNumberSound(s: bytes)
    requires ReadNumber(s).Done?
    ensures NumberOk(ReadNumber(s).v) && NumberOnto(ReadNumber(s).v, ReadNumber(s).rest) == s
  {
    var minus := s != [] && s[0] == MINUS;
    var s1 := if minus then s[1..] else s;
    assert minus ==> s == [MINUS] + s1;
    var whole := ReadWhole(s1);
    ReadWholeSound(s1);
    ReadFractionSound(whole.rest);
    ReadExponentSound(ReadFraction(whole.rest).rest);
  }

  /** What can follow a value inside a text: nothing, white space or punctuation. */
  predicate Stops(s: bytes) {
    s == [] || IsWs(s[0]) || s[0] == COMMA || s[0] == RBRACKET || s[0] == RBRACE
  }

  lemma ReadExponentComplete(x: Exponent, rest: bytes)
    requires ExponentOk(x) && Stops(rest)
    ensures ReadExponent(ExponentOnto(x, rest)) == Done(x, rest)
    ensures var s := ExponentOnto(x, rest); s == [] || (!IsDigit(s[0]) && s[0] != DOT)
  {
    hide TakeDigits, SkipDigits;
    if x.Exponent? {
      var s := ExponentOnto(x, rest);
      var t := x.digits + rest;
      assert IsDigit(t[0]);
      if x.sign == [] {
        assert s == [x.e] + t;
        assert s[1..] == t;
      } else {
        assert s == [x.e, x.sign[0]] + t;
        assert s[2..] == t;
      }
      SkipDigitsOf(x.digits, rest);
    }
  }

  lemma ReadFractionComplete(frac: bytes, rest: bytes)
    requires Digits(frac) && (rest == [] || (!IsDigit(rest[0]) && rest[0] != DOT))
    ensures ReadFraction(FractionOnto(frac, rest)) == Done(frac, rest)
    ensures var s := FractionOnto(frac, rest); s == [] || !IsDigit(s[0])
  {
    if frac != [] {
      assert FractionOnto(frac, rest)[1..] == frac + rest;
      SkipDigitsOf(frac, rest);
    }
  }

  lemma ReadWholeComplete(whole: bytes, rest: bytes)
    requires WholeOk(whole) && (rest == [] || !IsDigit(rest[0]))
    ensures ReadWhole(whole + rest) == Done(whole, rest)
    ensures (whole + rest)[0] != MINUS
  {
    if whole == [0x30] {
      assert (whole + rest)[1..] == rest;
    } else {
      assert IsDigit(whole[0]);
      SkipDigitsOf(whole, rest);
    }
  }

  lemma ReadNumberComplete(n: NumberToken, rest: bytes)
    requires NumberOk(n) && Stops(rest)
    ensures ReadNumber(NumberOnto(n, rest)) == Done(n, rest)
  {
    var s3 := ExponentOnto(n.exp, rest);
    var s2 := FractionOnto(n.frac, s3);
    ReadExponentComplete(n.exp, rest);
    ReadFractionComplete(n.frac, s3);
    ReadWholeComplete(n.whole, s2);
    assert n.minus ==> NumberOnto(n, rest)[1..] == n.whole + s2;
  }

  // Values.

  function ReadLiteral(s: bytes, lit: bytes, t: Tree): (r: Read<Tree>)
    requires lit != []
    ensures r.Done? ==> |r.rest| < |s|
  {
    if StartsWith(s, lit) then Done(t, s[|lit|..]) else Fail
  }

  /** `parse_value`. */
  function ReadValue(fl: FloatLib, s: bytes, room: nat): (r: Read<Tree>)
    ensures r.Done? ==> |r.rest| < |s|
    decreases |s|, 1
  {
    if s == [] then Fail
    else if s[0] == 0x6E then ReadLiteral(s, NULL_TEXT, TNull)
    else if s[0] == 0x74 then ReadLiteral(s, TRUE_TEXT, TBool(true))
    else if s[0] == 0x66 then ReadLiteral(s, FALSE_TEXT, TBool(false))
    else if s[0] == QUOTE then
      var r := ReadString(s[1..]);
      if r.Fail? then Fail else Done(TString(r.v), r.rest)
    else if s[0] == LBRACKET then ReadArray(fl, s[1..], room)
    else if s[0] == LBRACE then ReadObject(fl, s[1..], room)
    else
      var r := ReadNumber(s);
      if r.Fail? || fl.strtod(NumberText(r.v)).None? then Fail else Done(TNumber(r.v), r.rest)
  }

  /** `parse_array` after its bracket. */
  function ReadArray(fl: FloatLib, s: bytes, room: nat): (r: Read<Tree>)
    ensures r.Done? ==> |r.rest| < |s|
    decreases |s|, 3
  {
    var after := SkipWs(s);
    if room == 0 then Fail
    else if after != [] && after[0] == RBRACKET then Done(TEmptyArray(TakeWs(s)), after[1..])
    else
      var r := ReadElems(fl, s, room - 1);
      if r.Fail? then Fail else Done(TArray(r.v), r.rest)
  }

  function ReadElems(fl: FloatLib, s: bytes, room: nat): (r: Read<Elems>)
    ensures r.Done? ==> |r.rest| < |s|
    decreases |s|, 2
  {
    var v := ReadValue(fl, SkipWs(s), room);
    if v.Fail? then Fail else ReadElemsTail(fl, TakeWs(s), v.v, v.rest, room)
  }

  function ReadElemsTail(fl: FloatLib, pre: bytes, v: Tree, s: bytes, room: nat): (r: Read<Elems>)
    ensures r.Done? ==> |r.rest| < |s|
    decreases |s|, 3
  {
    var t := SkipWs(s);
    if t == [] then Fail
    else if t[0] == COMMA then
      var more := ReadElems(fl, t[1..], room);
      if more.Fail? then Fail else Done(MoreElems(pre, v, TakeWs(s), more.v), more.rest)
    else if t[0] == RBRACKET then Done(LastElem(pre, v, TakeWs(s)), t[1..])
    else Fail
  }

  /** `parse_object` after its brace. */
  function ReadObject(fl: FloatLib, s: bytes, room: nat): (r: Read<Tree>)
    ensures r.Done? ==> |r.rest| < |s|
    decreases |s|, 3
  {
    var after := SkipWs(s);
    if room == 0 then Fail
    else if after != [] && after[0] == RBRACE then Done(TEmptyObject(TakeWs(s)), after[1..])
    else
      var r := ReadMembers(fl, s, room - 1);
      if r.Fail? then Fail else Done(TObject(r.v), r.rest)
  }

  /** A key with the colon and the white space around it, up to the member's value. */
  datatype Head = Head(pre: bytes, key: List<Item>, mid: bytes, gap: bytes)

  function ReadHead(s: bytes): (r: Read<Head>)
    ensures r.Done? ==> |r.rest| < |s|
  {
    var a := SkipWs(s);
    if a == [] || a[0] != QUOTE then Fail
    else
      var key := ReadString(a[1..]);
      if key.Fail? then Fail
      else
        var b := SkipWs(key.rest);
        if b == [] || b[0] != COLON then Fail
        else Done(Head(TakeWs(s), key.v, TakeWs(key.rest), TakeWs(b[1..])), SkipWs(b[1..]))
  }

  function ReadMembers(fl: FloatLib, s: bytes, room: nat): (r: Read<Members>)
    ensures r.Done? ==> |r.rest| < |s|
    decreases |s|, 2
  {
    var h := ReadHead(s);
    if h.Fail? then Fail
    else
      var v := ReadValue(fl, h.rest, room);
      if v.Fail? then Fail else ReadMembersTail(fl, h.v, v.v, v.rest, room)
  }

  function ReadMembersTail(fl: FloatLib, h: Head, v: Tree, s: bytes, room: nat): (r: Read<Members>)
    ensures r.Done? ==> |r.rest| < |s|
    decreases |s|, 3
  {
    var t := SkipWs(s);
    if t == [] then Fail
    else if t[0] == COMMA then
      var more := ReadMembers(fl, t[1..], room);
      if more.Fail? then Fail
      else Done(MoreMembers(h.pre, h.key, h.mid, h.gap, v, TakeWs(s), more.v), more.rest)
    else if t[0] == RBRACE then Done(LastMember(h.pre, h.key, h.mid, h.gap, v, TakeWs(s)), t[1..])
    else Fail
  }

  // Soundness: what is read is a legal tree and its text is what was consumed.

  ghost predicate Legal(fl: FloatLib, t: Tree, room: nat) {
    TreeOk(t) && Finite(fl, t) && StringsValid(t) && Nesting(t) <= room
  }

  ghost predicate ElemsLegal(fl: FloatLib, es: Elems, room: nat) {
    ElemsOk(es) && ElemsFinite(fl, es) && ElemsStringsValid(es) && ElemsNesting(es) <= room
  }

  ghost predicate MembersLegal(fl: FloatLib, ms: Members, room: nat) {
    MembersOk(ms) && MembersFinite(fl, ms) && MembersStringsValid(ms) && MembersNesting(ms) <= room
  }

  lemma {:induction false} ReadValueSound(fl: FloatLib, s: bytes, room: nat)
    requires ReadValue(fl, s, room).Done?
    ensures var r := ReadValue(fl, s, room); Legal(fl, r.v, room) && TreeOnto(r.v, r.rest) == s
    decreases |s|, 1
  {
    if s[0] == QUOTE {
      ReadItemsSound(s[1..]);
    } else if s[0] == LBRACKET {
      ReadArraySound(fl, s[1..], room);
    } else if s[0] == LBRACE {
      ReadObjectSound(fl, s[1..], room);
    } else if s[0] != 0x6E && s[0] != 0x74 && s[0] != 0x66 {
      ReadNumberSound(s);
    }
  }

  lemma {:induction false} ReadArraySound(fl: FloatLib, s: bytes, room: nat)
    requires ReadArray(fl, s, room).Done?
    ensures var r := ReadArray(fl, s, room); Legal(fl, r.v, room) && TreeOnto(r.v, r.rest) == [LBRACKET] + s
    decreases |s|, 3
  {
    hide ReadElems, SkipWs, TakeWs, ElemsOnto;
    SplitWs(s);
    var after := SkipWs(s);
    if after != [] && after[0] == RBRACKET {
      assert after == [RBRACKET] + after[1..];
    } else {
      ReadElemsSound(fl, s, room - 1);
    }
  }

  lemma {:induction false} ReadElemsSound(fl: FloatLib, s: bytes, room: nat)
    requires ReadElems(fl, s, room).Done?
    ensures var r := ReadElems(fl, s, room); ElemsLegal(fl, r.v, room) && ElemsOnto(r.v, r.rest) == s
    decreases |s|, 2
  {
    SplitWs(s);
    var v := ReadValue(fl, SkipWs(s), room);
    ReadValueSound(fl, SkipWs(s), room);
    ReadElemsTailSound(fl, TakeWs(s), v.v, v.rest, room);
  }

  lemma {:induction false} ReadElemsTailSound(fl: FloatLib, pre: bytes, v: Tree, s: bytes, room: nat)
    requires ReadElemsTail(fl, pre, v, s, room).Done?
    ensures var Done(es, rest) := ReadElemsTail(fl, pre, v, s, room);
            && es.pre == pre && es.v == v && Ws(es.post) && s == es.post + AfterElem(es, rest)
            && (es.MoreElems? ==> ElemsLegal(fl, es.next, room))
    decreases |s|, 3
  {
    SplitWs(s);
    var t := SkipWs(s);
    assert t == [t[0]] + t[1..];
    if t[0] == COMMA {
      ReadElemsSound(fl, t[1..], room);
    }
  }

  lemma ReadHeadSound(s: bytes)
    requires ReadHead(s).Done?
    ensures var Done(h, rest) := ReadHead(s);
            && Ws(h.pre) && ItemsOk(h.key) && Utf8.Valid(ItemsText(h.key)) && Ws(h.mid) && Ws(h.gap)
            && s == h.pre + ([QUOTE] + ItemsOnto(h.key, h.mid + ([COLON] + (h.gap + rest))))
  {
    SplitWs(s);
    var a := SkipWs(s);
    ReadItemsSound(a[1..]);
    var key := ReadString(a[1..]);
    SplitWs(key.rest);
    var b := SkipWs(key.rest);
    SplitWs(b[1..]);
    assert b == [COLON] + b[1..];
    assert a == [QUOTE] + a[1..];
  }

  lemma {:induction false} ReadObjectSound(fl: FloatLib, s: bytes, room: nat)
    requires ReadObject(fl, s, room).Done?
    ensures var r := ReadObject(fl, s, room); Legal(fl, r.v, room) && TreeOnto(r.v, r.rest) == [LBRACE] + s
    decreases |s|, 3
  {
    hide ReadMembers, SkipWs, TakeWs, MembersOnto;
    SplitWs(s);
    var after := SkipWs(s);
    if after != [] && after[0] == RBRACE {
      assert after == [RBRACE] + after[1..];
    } else {
      ReadMembersSound(fl, s, room - 1);
    }
  }

  lemma {:induction false} ReadMembersSound(fl: FloatLib, s: bytes, room: nat)
    requires ReadMembers(fl, s, room).Done?
    ensures var r := ReadMembers(fl, s, room); MembersLegal(fl, r.v, room) && MembersOnto(r.v, r.rest) == s
    decreases |s|, 2
  {
    ReadHeadSound(s);
    var h := ReadHead(s);
    var v := ReadValue(fl, h.rest, room);
    ReadValueSound(fl, h.rest, room);
    ReadMembersTailSound(fl, h.v, v.v, v.rest, room);
  }

  lemma {:induction false} ReadMembersTailSound(fl: FloatLib, h: Head, v: Tree, s: bytes, room: nat)
    requires ReadMembersTail(fl, h, v, s, room).Done?
    ensures var Done(ms, rest) := ReadMembersTail(fl, h, v, s, room);
            && Head(ms.pre, ms.key, ms.mid, ms.gap) == h && ms.v == v
            && Ws(ms.post) && s == ms.post + AfterMember(ms, rest)
            && (ms.MoreMembers? ==> MembersLegal(fl, ms.next, room))
    decreases |s|, 3
  {
    SplitWs(s);
    var t := SkipWs(s);
    assert t == [t[0]] + t[1..];
    if t[0] == COMMA {
      ReadMembersSound(fl, t[1..], room);
    }
  }

  // Completeness: the text of every legal tree is read back as that tree.

  /** A value never starts with white space or with a closing bracket. */
  lemma TreeStart(t: Tree, rest: bytes)
    requires TreeOk(t)
    ensures var s := TreeOnto(t, rest); s != [] && !IsWs(s[0]) && s[0] != RBRACKET
  {
    if t.TNumber? {
      assert IsDigit(t.n.whole[0]);
    }
  }

  lemma ReadScalarComplete(fl: FloatLib, t: Tree, rest: bytes, room: nat)
    requires Legal(fl, t, room) && Stops(rest)
    requires t.TNull? || t.TBool? || t.TNumber? || t.TString?
    ensures ReadValue(fl, TreeOnto(t, rest), room) == Done(t, rest)
  {
    hide ReadItems, ItemsOnto, ReadNumber, NumberOnto, ReadArray, ReadObject;
    var s := TreeOnto(t, rest);
    match t
    case TNull => assert s[..4] == NULL_TEXT && s[4..] == rest;
    case TBool(b) =>
      assert b ==> s[..4] == TRUE_TEXT && s[4..] == rest;
      assert !b ==> s[..5] == FALSE_TEXT && s[5..] == rest;
    case TNumber(n) =>
      ReadNumberComplete(n, rest);
      NumberStart(n, rest);
    case TString(items) =>
      ReadItemsComplete(items, rest);
      assert s[1..] == ItemsOnto(items, rest);
  }

  lemma NumberStart(n: NumberToken, rest: bytes)
    requires NumberOk(n)
    ensures var s := NumberOnto(n, rest); s != [] && (s[0] == MINUS || IsDigit(s[0]))
  {
    assert IsDigit(n.whole[0]);
  }

  lemma {:induction false} ReadValueComplete(fl: FloatLib, t: Tree, rest: bytes, room: nat)
    requires Legal(fl, t, room) && Stops(rest)
    ensures ReadValue(fl, TreeOnto(t, rest), room) == Done(t, rest)
    decreases t, 0
  {
    hide ReadItems, ReadNumber, ReadElems, ReadMembers, SkipWs, TakeWs, ElemsOnto, MembersOnto;
    var s := TreeOnto(t, rest);
    match t
    case TEmptyArray(ws) =>
      assert s[1..] == ws + ([RBRACKET] + rest);
      SkipWsOf(ws, [RBRACKET] + rest);
    case TArray(es) =>
      assert s[1..] == ElemsOnto(es, rest);
      ReadArrayComplete(fl, es, rest, room);
    case TEmptyObject(ws) =>
      assert s[1..] == ws + ([RBRACE] + rest);
      SkipWsOf(ws, [RBRACE] + rest);
    case TObject(ms) =>
      assert s[1..] == MembersOnto(ms, rest);
      ReadObjectComplete(fl, ms, rest, room);
    case _ => ReadScalarComplete(fl, t, rest, room);
  }

  lemma {:induction false} ReadArrayComplete(fl: FloatLib, es: Elems, rest: bytes, room: nat)
    requires room > 0 && ElemsLegal(fl, es, room - 1)
    ensures ReadArray(fl, ElemsOnto(es, rest), room) == Done(TArray(es), rest)
    decreases es, 2
  {
    var body := TreeOnto(es.v, es.post + AfterElem(es, rest));
    TreeStart(es.v, es.post + AfterElem(es, rest));
    SkipWsOf(es.pre, body);
    ReadElemsComplete(fl, es, rest, room - 1);
  }

  lemma {:induction false} ReadObjectComplete(fl: FloatLib, ms: Members, rest: bytes, room: nat)
    requires room > 0 && MembersLegal(fl, ms, room - 1)
    ensures ReadObject(fl, MembersOnto(ms, rest), room) == Done(TObject(ms), rest)
    decreases ms, 2
  {
    var tail := [QUOTE] + ItemsOnto(ms.key, ms.mid + ([COLON] + (ms.gap + TreeOnto(ms.v, ms.post + AfterMember(ms, rest)))));
    SkipWsOf(ms.pre, tail);
    ReadMembersComplete(fl, ms, rest, room - 1);
  }

  lemma {:induction false} ReadElemsComplete(fl: FloatLib, es: Elems, rest: bytes, room: nat)
    requires ElemsLegal(fl, es, room)
    ensures ReadElems(fl, ElemsOnto(es, rest), room) == Done(es, rest)
    decreases es, 1
  {
    var after := AfterElem(es, rest);
    var body := TreeOnto(es.v, es.post + after);
    TreeStart(es.v, es.post + after);
    SkipWsOf(es.pre, body);
    ReadValueComplete(fl, es.v, es.post + after, room);
    SkipWsOf(es.post, after);
    if es.MoreElems? {
      assert after[1..] == ElemsOnto(es.next, rest);
      ReadElemsComplete(fl, es.next, rest, room);
    } else {
      assert after[1..] == rest;
    }
  }

  lemma ReadHeadComplete(h: Head, rest: bytes)
    requires Ws(h.pre) && ItemsOk(h.key) && Utf8.Valid(ItemsText(h.key)) && Ws(h.mid) && Ws(h.gap)
    requires rest == [] || !IsWs(rest[0])
    ensures ReadHead(h.pre + ([QUOTE] + ItemsOnto(h.key, h.mid + ([COLON] + (h.gap + rest))))) == Done(h, rest)
  {
    var c := h.gap + rest;
    var b := [COLON] + c;
    var a := [QUOTE] + ItemsOnto(h.key, h.mid + b);
    SkipWsOf(h.pre, a);
    assert a[1..] == ItemsOnto(h.key, h.mid + b);
    ReadItemsComplete(h.key, h.mid + b);
    SkipWsOf(h.mid, b);
    assert b[1..] == c;
    SkipWsOf(h.gap, rest);
  }

  lemma {:induction false} ReadMembersComplete(fl: FloatLib, ms: Members, rest: bytes, room: nat)
    requires MembersLegal(fl, ms, room)
    ensures ReadMembers(fl, MembersOnto(ms, rest), room) == Done(ms, rest)
    decreases ms, 1
  {
    var after := AfterMember(ms, rest);
    TreeStart(ms.v, ms.post + after);
    ReadHeadComplete(Head(ms.pre, ms.key, ms.mid, ms.gap), TreeOnto(ms.v, ms.post + after));
    ReadValueComplete(fl, ms.v, ms.post + after, room);
    SkipWsOf(ms.post, after);
    if ms.MoreMembers? {
      assert after[1..] == MembersOnto(ms.next, rest);
      ReadMembersComplete(fl, ms.next, rest, room);
    } else {
      assert after[1..] == rest;
    }
  }
}
