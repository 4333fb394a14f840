/**
  The parser as the source runs it: one cursor and one depth counter shared by
  mutually recursive methods. Each method does what the function of the same step
  in `JsonParser` says, and restores the depth on every path.
 */
module JsonReader {
  import opened Bytes
  import opened JsonValue
  import opened JsonGrammar
  import opened JsonParser
  import opened JsonText
  import Utf8

  const MAX_DEPTH: nat := 128

  // What the methods compute, as functions of the unread text.

  ghost function ValueAt(fl: FloatLib, s: bytes, room: nat): Read<Value> {
    var r := ReadValue(fl, s, room);
    if r.Fail? then Fail else (ReadValueSound(fl, s, room); Done(Eval(fl, r.v), r.rest))
  }

  ghost function ArrayAt(fl: FloatLib, s: bytes, room: nat): Read<Value> {
    var r := ReadArray(fl, s, room);
    if r.Fail? then Fail else (ReadArraySound(fl, s, room); Done(Eval(fl, r.v), r.rest))
  }

  ghost function ObjectAt(fl: FloatLib, s: bytes, room: nat): Read<Value> {
    var r := ReadObject(fl, s, room);
    if r.Fail? then Fail else (ReadObjectSound(fl, s, room); Done(Eval(fl, r.v), r.rest))
  }

  ghost function StringAt(s: bytes): Read<bytes> {
    var r := ReadString(s);
    if r.Fail? then Fail else (ReadItemsSound(s); Done(ItemsText(r.v), r.rest))
  }

  /** The unescaped key of a member, and the text of its value. */
  ghost function KeyAt(s: bytes): Read<bytes> {
    var h := ReadHead(s);
    if h.Fail? then Fail else (ReadHeadSound(s); Done(ItemsText(h.v.key), h.rest))
  }

  ghost function MemberAt(fl: FloatLib, s: bytes, room: nat): Read<Pair> {
    var h := KeyAt(s);
    if h.Fail? then Fail
    else
      var v := ValueAt(fl, h.rest, room);
      if v.Fail? then Fail else Done(Pair(CStr(h.v), v.v), v.rest)
  }

  /** The items still to come, appended to those already read. */
  ghost function ElemsAt(fl: FloatLib, acc: seq<Value>, s: bytes, room: nat): Read<seq<Value>> {
    var r := ReadElems(fl, s, room);
    if r.Fail? then Fail else (ReadElemsSound(fl, s, room); Done(acc + ElemValues(fl, r.v), r.rest))
  }

  ghost function MembersAt(fl: FloatLib, acc: seq<Pair>, s: bytes, room: nat): Read<seq<Pair>> {
    var r := ReadMembers(fl, s, room);
    if r.Fail? then Fail else (ReadMembersSound(fl, s, room); Done(acc + MemberPairs(fl, r.v), r.rest))
  }

  lemma ElemsAtStep(fl: FloatLib, acc: seq<Value>, s: bytes, room: nat)
    ensures var v := ValueAt(fl, SkipWs(s), room);
            ElemsAt(fl, acc, s, room) ==
              if v.Fail? then Fail
              else
                var t := SkipWs(v.rest);
                if t == [] then Fail
                else if t[0] == COMMA then ElemsAt(fl, acc + [v.v], t[1..], room)
                else if t[0] == RBRACKET then Done(acc + [v.v], t[1..])
                else Fail
  {
    var r := ReadElems(fl, s, room);
    var v := ReadValue(fl, SkipWs(s), room);
    if r.Done? {
      ReadElemsSound(fl, s, room);
      ReadValueSound(fl, SkipWs(s), room);
      var t := SkipWs(v.rest);
      if t[0] == COMMA {
        ReadElemsSound(fl, t[1..], room);
        assert acc + ElemValues(fl, r.v) == acc + [Eval(fl, v.v)] + ElemValues(fl, r.v.next);
      } else {
        assert ElemValues(fl, r.v) == [Eval(fl, v.v)];
      }
    }
  }

  lemma MembersAtStep(fl: FloatLib, acc: seq<Pair>, s: bytes, room: nat)
    ensures MembersAt(fl, acc, s, room) ==
            var m := MemberAt(fl, s, room);
            if m.Fail? then Fail
            else
              var t := SkipWs(m.rest);
              if t == [] then Fail
              else if t[0] == COMMA then MembersAt(fl, acc + [m.v], t[1..], room)
              else if t[0] == RBRACE then Done(acc + [m.v], t[1..])
              else Fail
  {
    var h := ReadHead(s);
    if h.Done? {
      var v := ReadValue(fl, h.rest, room);
      if v.Done? {
        MembersTailStep(fl, acc, s, h.v, v.v, v.rest, room);
      }
    }
  }

  lemma MembersTailStep(fl: FloatLib, acc: seq<Pair>, s: bytes, h: Head, v: Tree, rest: bytes, room: nat)
    requires ReadHead(s).Done? && ReadHead(s).v == h
    requires ReadValue(fl, ReadHead(s).rest, room) == Done(v, rest)
    ensures ItemsOk(h.key) && TreeOk(v) && Finite(fl, v)
    ensures MembersAt(fl, acc, s, room) ==
            var p := Pair(CStr(ItemsText(h.key)), Eval(fl, v));
            var t := SkipWs(rest);
            if t == [] then Fail
            else if t[0] == COMMA then MembersAt(fl, acc + [p], t[1..], room)
            else if t[0] == RBRACE then Done(acc + [p], t[1..])
            else Fail
  {
    hide ReadHead, ReadValue, SkipWs, Eval, ItemsText, CStr, MembersOk, MembersFinite, MembersStringsValid,
         MembersNesting;
    ReadHeadSound(s);
    ReadValueSound(fl, ReadHead(s).rest, room);
    var p := Pair(CStr(ItemsText(h.key)), Eval(fl, v));
    var r := ReadMembers(fl, s, room);
    assert r == ReadMembersTail(fl, h, v, rest, room);
    if r.Done? {
      ReadMembersSound(fl, s, room);
      var t := SkipWs(rest);
      assert MemberPair(fl, r.v) == p;
      if t[0] == COMMA {
        ReadMembersSound(fl, t[1..], room);
        assert acc + MemberPairs(fl, r.v) == acc + [p] + MemberPairs(fl, r.v.next);
      } else {
        assert MemberPairs(fl, r.v) == [p];
      }
    }
  }

  class Parser {
    const text: bytes
    const fl: FloatLib
    var p: nat
    var depth: nat

    ghost predicate Ready()
      reads this
    {
      p <= |text| && depth <= MAX_DEPTH
    }

    ghost function Rest(): bytes
      requires Ready()
      reads this
    {
      text[p..]
    }

    ghost function Room(): nat
      requires Ready()
      reads this
    {
      MAX_DEPTH - depth
    }

    constructor (text: bytes, fl: FloatLib)
      ensures this.text == text && this.fl == fl && p == 0 && depth == 0
    {
      this.text, this.fl, p, depth := text, fl, 0, 0;
    }

    /** On success the value and the cursor are as `want` says; the depth is back where it was. */
    ghost predicate Delivers<T>(want: Read<T>, r: Option<T>, p0: nat, depth0: nat)
      reads this
    {
      && Ready() && depth == depth0 && p >= p0
      && (r.Some? <==> want.Done?)
      && (r.Some? ==> r.value == want.v && text[p..] == want.rest)
    }

    method SkipWhite()
      requires Ready()
      modifies this`p
      ensures Ready() && p >= old(p) && Rest() == SkipWs(old(Rest()))
    {
      while p < |text| && IsWs(text[p])
        invariant old(p) <= p <= |text| && SkipWs(text[p..]) == SkipWs(old(Rest()))
      {
        assert text[p..][1..] == text[p + 1..];
        p := p + 1;
      }
    }

    method MatchLiteral(lit: bytes) returns (ok: bool)
      requires Ready() && lit != []
      modifies this`p
      ensures Ready() && p >= old(p)
      ensures ok == StartsWith(old(Rest()), lit)
      ensures ok ==> Rest() == old(Rest())[|lit|..]
    {
      if |text| - p < |lit| || text[p..p + |lit|] != lit {
        assert |text| - p >= |lit| ==> text[p..][..|lit|] == text[p..p + |lit|];
        return false;
      }
      assert text[p..][..|lit|] == text[p..p + |lit|];
      p := p + |lit|;
      return true;
    }

    /** The digit loops of `scan_number`, from position `k`. */
    method ScanDigits(k: nat) returns (e: nat)
      requires k <= |text|
      ensures k <= e <= |text|
      ensures text[k..e] == TakeDigits(text[k..]) && text[e..] == SkipDigits(text[k..])
    {
      e := k;
      while e < |text| && IsDigit(text[e])
        invariant k <= e <= |text|
        invariant SkipDigits(text[e..]) == SkipDigits(text[k..])
        invariant text[k..e] + TakeDigits(text[e..]) == TakeDigits(text[k..])
      {
        assert text[e..][1..] == text[e + 1..];
        MoveOne(text, k, e, TakeDigits(text[e + 1..]));
        e := e + 1;
      }
    }

    // The three parts of `scan_number`, each from position `k`.

    method ScanWhole(k: nat) returns (ok: bool, e: nat)
      requires k <= |text|
      ensures ok == ReadWhole(text[k..]).Done?
      ensures ok ==> k < e <= |text| && text[e..] == ReadWhole(text[k..]).rest
    {
      if k >= |text| { return false, k; }
      if text[k] == 0x30 {
        assert text[k..][1..] == text[k + 1..];
        return true, k + 1;
      } else if IsDigit(text[k]) {
        e := ScanDigits(k);
        return true, e;
      }
      return false, k;
    }

    method ScanFraction(k: nat) returns (ok: bool, e: nat)
      requires k <= |text|
      ensures ok == ReadFraction(text[k..]).Done?
      ensures ok ==> k <= e <= |text| && text[e..] == ReadFraction(text[k..]).rest
    {
      if k >= |text| || text[k] != DOT { return true, k; }
      assert text[k..][1..] == text[k + 1..];
      e := ScanDigits(k + 1);
      ok := e != k + 1;
    }

    method ScanExponent(k: nat) returns (ok: bool, e: nat)
      requires k <= |text|
      ensures ok == ReadExponent(text[k..]).Done?
      ensures ok ==> k <= e <= |text| && text[e..] == ReadExponent(text[k..]).rest
    {
      hide TakeDigits, SkipDigits;
      if k >= |text| || (text[k] != 0x65 && text[k] != 0x45) { return true, k; }
      var d := k + 1;
      ghost var s := text[k..];
      ghost var sign: bytes := [];
      if d < |text| && (text[d] == PLUS || text[d] == MINUS) {
        sign := [s[1]];
        d := d + 1;
      }
      assert s[1 + |sign|..] == text[d..];
      assert ReadExponent(s) ==
        if TakeDigits(text[d..]) == [] then Fail
        else Done(Exponent(s[0], sign, TakeDigits(text[d..])), SkipDigits(text[d..]));
      e := ScanDigits(d);
      ok := e != d;
    }

    /** `scan_number`: the end of the longest number token at the cursor. */
    method ScanNumber() returns (ok: bool, e: nat)
      requires Ready()
      ensures ok == ReadNumber(Rest()).Done?
      ensures ok ==> p < e <= |text| && text[e..] == ReadNumber(Rest()).rest
      ensures ok ==> text[p..e] == NumberText(ReadNumber(Rest()).v)
    {
      var k := if p < |text| && text[p] == MINUS then p + 1 else p;
      assert Rest()[k - p..] == text[k..];
      ok, e := ScanWhole(k);
      if !ok { return; }
      ok, e := ScanFraction(e);
      if !ok { return; }
      ok, e := ScanExponent(e);
      if !ok { return; }
      TokenText(text, p, e);
    }

    method ParseNumber() returns (r: Option<Value>)
      requires Ready() && p < |text|
      modifies this`p
      ensures var n := ReadNumber(old(Rest()));
              var want := if n.Done? && fl.strtod(NumberText(n.v)).Some?
                          then Done(Number(fl.strtod(NumberText(n.v)).value), n.rest) else Fail;
              Delivers(want, r, old(p), old(depth))
    {
      var ok, e := ScanNumber();
      if !ok { return None; }
      var d := fl.strtod(text[p..e]);
      if d.None? { return None; }
      p := e;
      return Some(Number(d.value));
    }

    /** `parse_hex4`: four digits accumulated by shifting. */
    method ParseHex4() returns (r: Option<int>)
      requires Ready()
      modifies this`p
      ensures Ready()
      ensures r.Some? <==> old(p) + 4 <= |text| && Hex4(text[old(p)..old(p) + 4])
      ensures r.Some? ==> p == old(p) + 4 && r.value == Hex4Value(text[old(p)..old(p) + 4])
      ensures r.None? ==> p == old(p)
    {
      if |text| - p < 4 { return None; }
      ghost var h := text[p..p + 4];
      var v := 0;
      for i := 0 to 4
        invariant p == old(p)
        invariant forall j :: 0 <= j < i ==> HexValue(h[j]) >= 0
        invariant i == 0 ==> v == 0
        invariant i == 1 ==> v == HexValue(h[0])
        invariant i == 2 ==> v == HexValue(h[0]) * 16 + HexValue(h[1])
        invariant i == 3 ==> v == HexValue(h[0]) * 256 + HexValue(h[1]) * 16 + HexValue(h[2])
        invariant i == 4 ==> v == HexValue(h[0]) * 4096 + HexValue(h[1]) * 256 + HexValue(h[2]) * 16 + HexValue(h[3])
      {
        var d := HexValue(text[p + i]);
        assert h[i] == text[p + i];
        if d < 0 { return None; }
        v := v * 16 + d;
      }
      p := p + 4;
      return Some(v);
    }

    /** `parse_unicode_escape`, with the cursor after the `u`. */
    method ParseUnicodeEscape() returns (r: Option<bytes>)
      requires Ready() && p >= 2 && text[p - 2] == BACKSLASH && text[p - 1] == U
      modifies this`p
      ensures Ready() && p >= old(p)
      ensures var i := NextItem(text[old(p) - 2..]);
              && (r.Some? <==> i.Done?)
              && (r.Some? ==> ItemOk(i.v) && r.value == ItemText(i.v) && text[p..] == i.rest)
    {
      hide Hex4, Hex4Value, Utf8.Encode;
      ghost var s := text[p - 2..];
      assert |text| - p >= 4 ==> s[2..6] == text[p..p + 4];
      assert |text| - p >= 10 ==> s[8..12] == text[p + 6..p + 10];
      var hi := ParseHex4();
      if hi.None? { return None; }
      if IsHigh(hi.value) {
        if |text| - p < 6 || text[p] != BACKSLASH || text[p + 1] != U { return None; }
        p := p + 2;
        var lo := ParseHex4();
        if lo.None? || !IsLow(lo.value) { return None; }
        assert NextItem(s) == Done(Surrogates(s[2..6], s[8..12]), s[12..]);
        return Some(Utf8.Encode(PairValue(hi.value, lo.value)));
      } else if IsLow(hi.value) {
        return None;
      }
      assert NextItem(s) == Done(Unicode(s[2..6]), s[6..]);
      return Some(Utf8.Encode(hi.value));
    }

    /** One character of a string: `NextItem` at the cursor. */
    method ParseItem() returns (r: Option<bytes>)
      requires Ready() && p < |text| && text[p] != QUOTE
      modifies this`p
      ensures Ready() && p >= old(p)
      ensures var i := NextItem(text[old(p)..]);
              && (r.Some? <==> i.Done?)
              && (r.Some? ==> ItemOk(i.v) && r.value == ItemText(i.v) && text[p..] == i.rest)
    {
      var c := text[p];
      if c == BACKSLASH {
        p := p + 1;
        if p >= |text| { return None; }
        var e := text[p];
        p := p + 1;
        if e == U {
          r := ParseUnicodeEscape();
        } else {
          if Escaped(e).None? { return None; }
          return Some([Escaped(e).value]);
        }
      } else if c < 0x20 {
        return None;
      } else {
        p := p + 1;
        return Some([c]);
      }
    }

    /** `parse_string_raw`, with the cursor on the opening quote. */
    method ParseStringRaw() returns (r: Option<bytes>)
      requires Ready() && p < |text| && text[p] == QUOTE
      modifies this`p
      ensures Delivers(StringAt(text[old(p) + 1..]), r, old(p), old(depth))
      ensures r.Some? ==> p > old(p)
    {
      p := p + 1;
      var b: bytes := [];
      ghost var start := text[p..];
      assert ItemsAt(b, start) == ItemsAt([], start);
      while p < |text| && text[p] != QUOTE
        invariant old(p) < p <= |text| && depth == old(depth)
        invariant ItemsAt(b, text[p..]) == ItemsAt([], start)
        decreases |text| - p
      {
        ItemsAtStep(b, text[p..]);
        ghost var i := NextItem(text[p..]);
        var piece := ParseItem();
        if piece.None? { return None; }
        b := b + piece.value;
      }
      if p >= |text| { return None; }
      ItemsAtStep(b, text[p..]);
      assert text[p..][1..] == text[p + 1..];
      p := p + 1;
      var valid := Utf8.CheckValid(b);
      assert StringAt(start) == if valid then Done(b, text[p..]) else Fail by {
        assert ItemsAt([], start) == Done(b, text[p..]);
        ReadItemsSound(start);
        assert [] + ItemsText(ReadItems(start).v) == ItemsText(ReadItems(start).v);
      }
      if !valid { return None; }
      return Some(b);
    }

    /** `parse_array`, with the cursor on the bracket. */
    method ParseArray() returns (r: Option<Value>)
      requires Ready() && p < |text| && text[p] == LBRACKET
      modifies this
      ensures Delivers(ArrayAt(fl, text[old(p) + 1..], old(Room())), r, old(p), old(depth))
      ensures r.Some? ==> p > old(p)
      decreases |text| - p, 0
    {
      hide ElemsAt, ReadElems, SkipWs, TakeWs;
      if depth + 1 > MAX_DEPTH { return None; }
      depth := depth + 1;
      p := p + 1;
      ghost var start, room := text[p..], Room();
      SkipWhite();
      if p < |text| && text[p] == RBRACKET {
        assert text[p..][1..] == text[p + 1..];
        p := p + 1;
        depth := depth - 1;
        return Some(Array([]));
      }
      ElemsAtSkip(fl, [], start, room);
      ArrayFromElems(fl, start, room + 1);
      r := ParseElems();
    }

    /** The loop of `parse_array`, which leaves the array's nesting level. */
    method ParseElems() returns (r: Option<Value>)
      requires Ready() && depth > 0
      modifies this
      ensures Delivers(AsArray(ElemsAt(fl, [], text[old(p)..], old(Room()))), r, old(p), old(depth) - 1)
      ensures r.Some? ==> p > old(p)
      decreases |text| - p, 2
    {
      hide ElemsAt, ValueAt, SkipWs;
      ghost var start, room := text[p..], Room();
      var items: seq<Value> := [];
      while true
        invariant Ready() && old(p) <= p && depth == old(depth)
        invariant items != [] ==> old(p) < p
        invariant ElemsAt(fl, items, text[p..], room) == ElemsAt(fl, [], start, room)
        decreases |text| - p
      {
        ElemsAtStep(fl, items, text[p..], room);
        SkipWhite();
        var item := ParseValue();
        if item.None? {
          depth := depth - 1;
          return None;
        }
        items := items + [item.value];
        SkipWhite();
        if p >= |text| {
          depth := depth - 1;
          return None;
        }
        assert text[p..][1..] == text[p + 1..];
        if text[p] == COMMA {
          p := p + 1;
          continue;
        }
        if text[p] == RBRACKET {
          p := p + 1;
          depth := depth - 1;
          return Some(Array(items));
        }
        depth := depth - 1;
        return None;
      }
    }

    /** `parse_object`, with the cursor on the brace. */
    method ParseObject() returns (r: Option<Value>)
      requires Ready() && p < |text| && text[p] == LBRACE
      modifies this
      ensures Delivers(ObjectAt(fl, text[old(p) + 1..], old(Room())), r, old(p), old(depth))
      ensures r.Some? ==> p > old(p)
      decreases |text| - p, 0
    {
      hide MembersAt, ReadMembers, SkipWs, TakeWs;
      if depth + 1 > MAX_DEPTH { return None; }
      depth := depth + 1;
      p := p + 1;
      ghost var start, room := text[p..], Room();
      SkipWhite();
      if p < |text| && text[p] == RBRACE {
        assert text[p..][1..] == text[p + 1..];
        p := p + 1;
        depth := depth - 1;
        return Some(Object([], []));
      }
      MembersAtSkip(fl, [], start, room);
      ObjectFromMembers(fl, start, room + 1);
      r := ParseMembers();
    }

    /** The loop of `parse_object`, which leaves the object's nesting level. */
    method ParseMembers() returns (r: Option<Value>)
      requires Ready() && depth > 0
      modifies this
      ensures Delivers(AsObject(MembersAt(fl, [], text[old(p)..], old(Room()))), r, old(p), old(depth) - 1)
      ensures r.Some? ==> p > old(p)
      decreases |text| - p, 3
    {
      hide MembersAt, MemberAt, SkipWs, SetAll, SetKey;
      SetAllEmpty();
      var obj := new ObjectStore();
      ghost var start, room := text[p..], Room();
      ghost var pairs: seq<Pair> := [];
      while true
        invariant Ready() && old(p) <= p && depth == old(depth)
        invariant pairs != [] ==> old(p) < p
        invariant MembersAt(fl, pairs, text[p..], room) == MembersAt(fl, [], start, room)
        invariant |obj.keys| == |obj.vals| && (obj.keys, obj.vals) == SetAll(pairs)
        decreases |text| - p
      {
        MembersAtStep(fl, pairs, text[p..], room);
        ghost var m := MemberAt(fl, text[p..], room);
        var ok := ParseMember(obj);
        if !ok {
          depth := depth - 1;
          return None;
        }
        SetAllAppend(pairs, m.v);
        pairs := pairs + [m.v];
        SkipWhite();
        if p >= |text| {
          depth := depth - 1;
          return None;
        }
        assert text[p..][1..] == text[p + 1..];
        if text[p] == COMMA {
          p := p + 1;
          continue;
        }
        if text[p] == RBRACE {
          p := p + 1;
          depth := depth - 1;
          return Some(Object(obj.keys, obj.vals));
        }
        depth := depth - 1;
        return None;
      }
    }

    /** One member, inserted into the object under construction. */
    method ParseMember(obj: ObjectStore) returns (ok: bool)
      requires Ready() && |obj.keys| == |obj.vals|
      modifies this, obj
      ensures Ready() && depth == old(depth) && p >= old(p) && |obj.keys| == |obj.vals|
      ensures var m := MemberAt(fl, text[old(p)..], old(Room()));
              && ok == m.Done?
              && (ok ==> p > old(p) && text[p..] == m.rest
                         && (obj.keys, obj.vals) == SetKey(old(obj.keys), old(obj.vals), m.v.key, m.v.val))
      decreases |text| - p, 2
    {
      hide KeyAt, ValueAt, SetKey;
      ghost var s := text[p..];
      var key := ParseKey();
      if key.None? { return false; }
      var val := ParseValue();
      if val.None? { return false; }
      KeyAtValid(s);
      ok := obj.Set(key.value, val.value);
    }

    /** The key of a member, its colon and the white space up to the value. */
    method ParseKey() returns (r: Option<bytes>)
      requires Ready()
      modifies this`p
      ensures Delivers(KeyAt(text[old(p)..]), r, old(p), old(depth))
      ensures r.Some? ==> p > old(p)
    {
      hide ReadString, SkipWs;
      SkipWhite();
      if p >= |text| || text[p] != QUOTE { return None; }
      assert text[p..][1..] == text[p + 1..];
      var key := ParseStringRaw();
      if key.None? { return None; }
      SkipWhite();
      if p >= |text| || text[p] != COLON { return None; }
      assert text[p..][1..] == text[p + 1..];
      p := p + 1;
      SkipWhite();
      return key;
    }

    /** `parse_value`. */
    method ParseValue() returns (r: Option<Value>)
      requires Ready()
      modifies this
      ensures Delivers(ValueAt(fl, text[old(p)..], old(Room())), r, old(p), old(depth))
      ensures r.Some? ==> p > old(p)
      decreases |text| - p, 1
    {
      if p >= |text| { return None; }
      ghost var s := text[p..];
      assert s[1..] == text[p + 1..];
      var c := text[p];
      if c == 0x6E {
        var ok := MatchLiteral(NULL_TEXT);
        return if ok then Some(Null) else None;
      } else if c == 0x74 {
        var ok := MatchLiteral(TRUE_TEXT);
        return if ok then Some(Bool(true)) else None;
      } else if c == 0x66 {
        var ok := MatchLiteral(FALSE_TEXT);
        return if ok then Some(Bool(false)) else None;
      } else if c == QUOTE {
        var str := ParseStringRaw();
        if str.None? { return None; }
        var cut := CStr(str.value);
        ReadItemsSound(s[1..]);
        Utf8.CStrRun(Utf8.ACCEPT, str.value);
        var valid := Utf8.CheckValid(cut);
        if !valid { return None; }
        return Some(String(cut));
      } else if c == LBRACKET {
        r := ParseArray();
      } else if c == LBRACE {
        r := ParseObject();
      } else {
        r := ParseNumber();
      }
    }
  }

  /** `builtin_parse`. */
  method BuiltinParse(fl: FloatLib, text: bytes) returns (r: Option<Value>)
    ensures r == Parse(fl, text, MAX_DEPTH)
  {
    var valid := Utf8.CheckValid(text);
    if !valid { return None; }
    var ps := new Parser(text, fl);
    assert text[0..] == text;
    ps.SkipWhite();
    r := ps.ParseValue();
    if r.None? { return; }
    ps.SkipWhite();
    if ps.p != |text| { return None; }
  }

  // Skipping white space twice changes nothing.

  lemma {:induction false} SkipWsTwice(s: bytes)
    ensures SkipWs(SkipWs(s)) == SkipWs(s)
  {
    if !(s == [] || !IsWs(s[0])) {
      SkipWsTwice(s[1..]);
    }
  }

  lemma ElemsAtSkip(fl: FloatLib, acc: seq<Value>, s: bytes, room: nat)
    ensures ElemsAt(fl, acc, SkipWs(s), room) == ElemsAt(fl, acc, s, room)
  {
    SkipWsTwice(s);
    ElemsAtStep(fl, acc, s, room);
    ElemsAtStep(fl, acc, SkipWs(s), room);
  }

  lemma MembersAtSkip(fl: FloatLib, acc: seq<Pair>, s: bytes, room: nat)
    ensures MembersAt(fl, acc, SkipWs(s), room) == MembersAt(fl, acc, s, room)
  {
    SkipWsTwice(s);
    MembersAtStep(fl, acc, s, room);
    MembersAtStep(fl, acc, SkipWs(s), room);
  }

  ghost function AsArray(r: Read<seq<Value>>): Read<Value> {
    if r.Fail? then Fail else Done(Array(r.v), r.rest)
  }

  ghost function AsObject(r: Read<seq<Pair>>): Read<Value> {
    if r.Fail? then Fail else Done(Object(SetAll(r.v).0, SetAll(r.v).1), r.rest)
  }

  lemma ArrayFromElems(fl: FloatLib, s: bytes, room: nat)
    requires room > 0 && !(SkipWs(s) != [] && SkipWs(s)[0] == RBRACKET)
    ensures ArrayAt(fl, s, room) == AsArray(ElemsAt(fl, [], s, room - 1))
  {
    var r := ReadElems(fl, s, room - 1);
    assert ReadArray(fl, s, room) == if r.Fail? then Fail else Done(TArray(r.v), r.rest);
    if r.Done? {
      ReadElemsSound(fl, s, room - 1);
      var vs := ElemValues(fl, r.v);
      assert [] + vs == vs;
      assert Eval(fl, TArray(r.v)) == Array(vs);
    }
  }

  lemma ObjectFromMembers(fl: FloatLib, s: bytes, room: nat)
    requires room > 0 && !(SkipWs(s) != [] && SkipWs(s)[0] == RBRACE)
    ensures ObjectAt(fl, s, room) == AsObject(MembersAt(fl, [], s, room - 1))
  {
    hide ReadMembers, SetAll, MemberPairs, SkipWs;
    var r := ReadMembers(fl, s, room - 1);
    assert ReadObject(fl, s, room) == if r.Fail? then Fail else Done(TObject(r.v), r.rest);
    if r.Done? {
      ReadMembersSound(fl, s, room - 1);
      var ps := MemberPairs(fl, r.v);
      assert [] + ps == ps;
      assert Eval(fl, TObject(r.v)) == Object(SetAll(ps).0, SetAll(ps).1);
    }
  }

  lemma SetAllEmpty()
    ensures SetAll([]) == ([], [])
  {
  }

  lemma SetAllAppend(ps: seq<Pair>, p: Pair)
    ensures SetAll(ps + [p]) == SetKey(SetAll(ps).0, SetAll(ps).1, p.key, p.val)
  {
    assert (ps + [p])[..|ps|] == ps;
  }

  /** A key that `parse_string_raw` delivered is still valid after `strlen` cuts it. */
  lemma KeyAtValid(s: bytes)
    requires KeyAt(s).Done?
    ensures Utf8.Valid(CStr(KeyAt(s).v))
  {
    ReadHeadSound(s);
    Utf8.CStrRun(Utf8.ACCEPT, KeyAt(s).v);
  }

  /** The bytes of the items still to come, appended to those already unescaped. */
  ghost function ItemsAt(acc: bytes, s: bytes): Read<bytes> {
    var r := ReadItems(s);
    if r.Fail? then Fail else (ReadItemsSound(s); Done(acc + ItemsText(r.v), r.rest))
  }

  lemma ItemsAtStep(acc: bytes, s: bytes)
    requires s != []
    ensures s[0] == QUOTE ==> ItemsAt(acc, s) == Done(acc, s[1..])
    ensures s[0] != QUOTE && NextItem(s).Fail? ==> ItemsAt(acc, s) == Fail
    ensures s[0] != QUOTE && NextItem(s).Done? ==>
              ItemOk(NextItem(s).v) &&
              ItemsAt(acc, s) == ItemsAt(acc + ItemText(NextItem(s).v), NextItem(s).rest)
  {
    if s[0] == QUOTE {
      assert acc + [] == acc;
    } else if NextItem(s).Done? {
      NextItemSound(s);
      var r := ReadItems(s);
      if r.Done? {
        ReadItemsSound(s);
        ReadItemsSound(NextItem(s).rest);
        assert acc + ItemsText(r.v) == acc + ItemText(r.v.head) + ItemsText(r.v.tail);
      }
    }
  }

  lemma TokenText(text: bytes, p: nat, e: nat)
    requires p <= e <= |text|
    requires ReadNumber(text[p..]).Done? && ReadNumber(text[p..]).rest == text[e..]
    ensures text[p..e] == NumberText(ReadNumber(text[p..]).v)
  {
    var n := ReadNumber(text[p..]).v;
    ReadNumberSound(text[p..]);
    NumberOntoText(n, text[e..]);
    SameSuffix(text, p, e, NumberText(n));
  }

  lemma MoveOne(text: bytes, k: nat, e: nat, more: bytes)
    requires k <= e < |text|
    ensures text[k..e] + ([text[e]] + more) == text[k..e + 1] + more
  {
    assert text[k..e] + [text[e]] == text[k..e + 1];
  }

  lemma SameSuffix(text: bytes, p: nat, e: nat, front: bytes)
    requires p <= e <= |text| && text[p..] == front + text[e..]
    ensures text[p..e] == front
  {
    assert text[p..][..|front|] == front;
    assert |front| == e - p;
  }
}
