/**
  Matching inverts expansion: what a template expands to is matched back to the
  variables it was expanded with, as long as every value ends where the template says.
 */
module UriRoundTrip {
  import opened Bytes
  import opened JsonValue
  import opened UriSyntax
  import opened UriMatch
  import opened UriVariables
  import opened UriExpand
  import opened UriLists

  // Decoding inverts encoding, in both modes.

  lemma DecodeEncodeByte(c: byte, reserved: bool, rest: bytes)
    ensures UrlDecode(EncodeByte(c, reserved) + rest) == [c] + UrlDecode(rest)
  {
    var s := EncodeByte(c, reserved) + rest;
    if Allowed(c, reserved) {
      assert s[1..] == rest && c != PERCENT;
    } else {
      assert HexValue(UpperHex(c / 16)) == c / 16 && HexValue(UpperHex(c % 16)) == c % 16;
      assert s[3..] == rest;
      assert c / 16 * 16 + c % 16 == c;
    }
  }

  lemma {:induction false} DecodeEncode(s: bytes, reserved: bool)
    ensures UrlDecode(EncodeAll(s, reserved)) == s
  {
    hide UrlDecode, EncodeByte;
    if s == [] {
      DecodeNothing();
    } else {
      DecodeEncodeByte(s[0], reserved, EncodeAll(s[1..], reserved));
      DecodeEncode(s[1..], reserved);
      assert s == [s[0]] + s[1..];
    }
  }

  lemma DecodeNothing()
    ensures UrlDecode([]) == []
  {
  }

  lemma {:induction false} EncodeGrows(s: bytes, reserved: bool)
    ensures |s| <= |EncodeAll(s, reserved)|
  {
    if s != [] {
      EncodeGrows(s[1..], reserved);
    }
  }

  lemma {:induction false} TakeAll(s: bytes, n: nat)
    requires |s| <= n
    ensures TakeChars(s, n) == s
  {
    if s != [] {
      TakeAll(s[1..], if IsContinuation(s[0]) then n else n - 1);
      assert s == [s[0]] + s[1..];
    }
  }

  // The values the law is about.

  /**
    The values that a variable brings back: a string, for a prefix one whose encoding is
    short enough, and for an exploded variable a list of strings whose encodings lack the
    operator's separator.
   */
  predicate Keeps(e: VarExpr, v: Value) {
    match e.mod
    case NoModifier => v.String?
    case Prefix(n) => v.String? && |EncodeAll(v.s, Reserved(e.op))| <= n
    case Explode =>
      && v.Array? && v.items != [] && (forall i :: 0 <= i < |v.items| ==> v.items[i].String?)
      && Lacks(ItemEncodings(e, v.items), Separator(e.op))
      && (e.op == Query ==> 0x26 !in e.name)
  }

  function ItemEncodings(e: VarExpr, items: seq<Value>): (es: seq<bytes>)
    requires forall i :: 0 <= i < |items| ==> items[i].String?
    ensures |es| == |items|
  {
    seq(|items|, i requires 0 <= i < |items| => EncodeAll(items[i].s, Reserved(e.op)))
  }

  /** What stands for the variable after the operator's first character. */
  function ValueText(e: VarExpr, v: Value): bytes
    requires Keeps(e, v)
  {
    if e.mod == Explode then Joined(Between(e.op, e.name), ItemEncodings(e, v.items))
    else EncodeAll(v.s, Reserved(e.op))
  }

  /** The bytes of a value where nothing reserved may stay. */
  predicate InEncoding(c: byte) {
    IsUnreserved(c) || c == PERCENT
  }

  predicate InValue(e: VarExpr, c: byte) {
    || InEncoding(c)
    || (e.mod == Explode && c in Between(e.op, e.name))
  }

  lemma {:induction false} EncodeAlphabet(s: bytes)
    ensures forall i :: 0 <= i < |EncodeAll(s, false)| ==> InEncoding(EncodeAll(s, false)[i])
  {
    if s != [] {
      EncodeAlphabet(s[1..]);
      EncodeByteAlphabet(s[0]);
    }
  }

  lemma EncodeByteAlphabet(c: byte)
    ensures forall i :: 0 <= i < |EncodeByte(c, false)| ==> InEncoding(EncodeByte(c, false)[i])
  {
  }

  lemma {:induction false} JoinedAlphabet(sep: bytes, parts: seq<bytes>)
    requires parts != [] && forall i :: 0 <= i < |parts| ==> forall c :: c in parts[i] ==> InEncoding(c)
    ensures forall c :: c in Joined(sep, parts) ==> InEncoding(c) || c in sep
    decreases |parts|
  {
    hide InEncoding;
    if |parts| > 1 {
      JoinedAlphabet(sep, parts[1..]);
    }
  }

  lemma ValueAlphabet(e: VarExpr, v: Value)
    requires Keeps(e, v) && !Reserved(e.op)
    ensures forall c :: c in ValueText(e, v) ==> InValue(e, c)
  {
    hide EncodeAll, InEncoding, Lacks;
    if e.mod == Explode {
      var es := ItemEncodings(e, v.items);
      forall i | 0 <= i < |es|
        ensures forall c :: c in es[i] ==> InEncoding(c)
      {
        EncodeAlphabet(v.items[i].s);
      }
      JoinedAlphabet(Between(e.op, e.name), es);
    } else {
      EncodeAlphabet(v.s);
    }
  }

  lemma ValueFits(e: VarExpr, v: Value, last: bool)
    requires Keeps(e, v) && (Reserved(e.op) ==> last)
    ensures Fits(e, ValueText(e, v), last)
  {
    hide EncodeAll, Joined, Lacks;
    if !Reserved(e.op) && e.mod != Explode {
      ValueAlphabet(e, v);
      assert !InValue(e, SLASH) && !InValue(e, AMP) && !InValue(e, HASH);
    }
  }

  lemma ValueExpands(fmt: NumberFormat, e: VarExpr, v: Value)
    requires Keeps(e, v)
    ensures ExpandValue(fmt, e, e.name, v) == Lead(e) + ValueText(e, v)
  {
    hide EncodeAll, ExpandValue, TakeChars;
    if e.mod == Explode {
      var texts := seq(|v.items|, i requires 0 <= i < |v.items| => v.items[i].s);
      ExpandedList(fmt, e, e.name, v.items, texts);
      assert Encodings(e, texts) == ItemEncodings(e, v.items);
    } else {
      ExpandedScalar(fmt, e, e.name, v, v.s);
      if e.mod.Prefix? {
        EncodeGrows(v.s, Reserved(e.op));
        TakeAll(v.s, e.mod.n);
      }
    }
  }

  // What a captured value reads as.

  lemma {:induction false} TokensRead(e: VarExpr, items: seq<Value>, i: nat)
    requires i <= |items| && forall j :: 0 <= j < |items| ==> items[j].String? && Text(items[j].s)
    ensures TokenValues(e.op, e.name, Pieces(e.op, e.name, ItemEncodings(e, items))[i..], i == 0) == Some(items[i..])
    decreases |items| - i
  {
    hide EncodeAll, Pieces, TokenValue, UrlDecode, TextValue;
    var es := ItemEncodings(e, items);
    var ps := Pieces(e.op, e.name, es);
    if i == |items| {
      assert ps[i..] == [] && items[i..] == [];
    } else {
      TokensRead(e, items, i + 1);
      assert ps[i..][1..] == ps[i + 1..] && items[i..] == [items[i]] + items[i + 1..];
      PieceValue(e.op, e.name, es, i);
      TextRead(items[i].s, Reserved(e.op));
    }
  }

  lemma TextRead(s: bytes, reserved: bool)
    requires Text(s)
    ensures TextValue(UrlDecode(EncodeAll(s, reserved))) == Some(String(s))
  {
    hide EncodeAll, UrlDecode;
    DecodeEncode(s, reserved);
  }

  lemma ValueReads(e: VarExpr, v: Value)
    requires Keeps(e, v) && WellFormed(v)
    ensures CaptureValue(Capture(e, ValueText(e, v)), e.name) == Some(v)
  {
    hide EncodeAll, UrlDecode, TextValue, Joined, Pieces, SplitOn, TokenValues, Delimiter, Separator, Between;
    if e.mod == Explode {
      ItemsAreText(v);
      SplitExploded(e.op, e.name, ItemEncodings(e, v.items));
      TokensRead(e, v.items, 0);
      var ps := Pieces(e.op, e.name, ItemEncodings(e, v.items));
      assert ps[0..] == ps && v.items[0..] == v.items;
    } else {
      TextRead(v.s, Reserved(e.op));
    }
  }

  lemma ItemsAreText(v: Value)
    requires v.Array? && WellFormed(v) && forall i :: 0 <= i < |v.items| ==> v.items[i].String?
    ensures forall i :: 0 <= i < |v.items| ==> v.items[i].String? && Text(v.items[i].s)
  {
    forall i | 0 <= i < |v.items|
      ensures v.items[i].String? && Text(v.items[i].s)
    {
      assert WellFormed(v.items[i]);
    }
  }

  // The templates of the law.

  /** The byte that a segment always starts with, if any. */
  function StartByte(seg: Segment): Option<byte> {
    match seg
    case Literal(c) => Some(c)
    case Var(e) => (match e.op
                    case Hash => Some(0x23)
                    case Slash => Some(0x2F)
                    case Dot => Some(0x2E)
                    case Query => Some(0x3F)
                    case _ => None)
    case Malformed => None
  }

  /** Each variable is followed by the end or by a byte its value cannot contain; `+` and `#` stand only last. */
  predicate Separated(segs: seq<Segment>) {
    segs != [] ==>
      && (segs[0].Var? ==>
            && |segs[0].e.name| <= 127
            && (|segs| > 1 ==>
                  && StartByte(segs[1]).Some? && !InValue(segs[0].e, StartByte(segs[1]).value)
                  && !Reserved(segs[0].e.op)))
      && Separated(segs[1..])
  }

  function Names(segs: seq<Segment>): seq<bytes> {
    if segs == [] then []
    else if segs[0].Var? then [segs[0].e.name] + Names(segs[1..])
    else Names(segs[1..])
  }

  /** Every variable of the template has a value it keeps. */
  ghost predicate Kept(segs: seq<Segment>, vars: Value)
    requires WellFormed(vars)
  {
    segs != [] ==>
      && (segs[0].Var? ==>
            && Lookup(vars, segs[0].e.name).Some?
            && Keeps(segs[0].e, Lookup(vars, segs[0].e.name).value))
      && Kept(segs[1..], vars)
  }

  ghost function Values(segs: seq<Segment>, vars: Value): seq<Value>
    requires WellFormed(vars) && Kept(segs, vars)
  {
    if segs == [] then []
    else if segs[0].Var? then [Lookup(vars, segs[0].e.name).value] + Values(segs[1..], vars)
    else Values(segs[1..], vars)
  }

  ghost function Encoded(segs: seq<Segment>, vars: Value): seq<bytes>
    requires WellFormed(vars) && Kept(segs, vars)
  {
    if segs == [] then []
    else if segs[0].Var? then
      [ValueText(segs[0].e, Lookup(vars, segs[0].e.name).value)] + Encoded(segs[1..], vars)
    else Encoded(segs[1..], vars)
  }

  // The expansion is the rebuilding of the encoded values, and it solves the template.

  lemma {:induction false} ExpandRebuilds(fmt: NumberFormat, segs: seq<Segment>, vars: Value)
    requires WellFormed(vars) && Separated(segs) && Kept(segs, vars) && Malformed !in segs
    ensures ExpandSegments(fmt, segs, vars) == Some(Rebuild(segs, Encoded(segs, vars)))
    decreases |segs|
  {
    hide Lead, ValueText, Keeps, Lookup, ExpandValue, InValue, StartByte, WellFormed;
    if segs != [] {
      ExpandRebuilds(fmt, segs[1..], vars);
      if segs[0].Var? {
        var e := segs[0].e;
        var text := ValueText(e, Lookup(vars, e.name).value);
        ValueExpands(fmt, e, Lookup(vars, e.name).value);
        assert ExpandVar(fmt, e, vars) == Lead(e) + text;
        var more := Rebuild(segs[1..], Encoded(segs[1..], vars));
        assert Encoded(segs, vars)[1..] == Encoded(segs[1..], vars);
        assert (Lead(e) + text) + more == Lead(e) + (text + more);
      }
    }
  }

  lemma {:induction false} EncodedSolves(segs: seq<Segment>, vars: Value)
    requires WellFormed(vars) && Separated(segs) && Kept(segs, vars) && Malformed !in segs
    ensures |Encoded(segs, vars)| == VarCount(segs) && AllFit(segs, Encoded(segs, vars))
    decreases |segs|
  {
    hide Fits, ValueText, Keeps, InValue, StartByte, Lookup;
    if segs != [] {
      EncodedSolves(segs[1..], vars);
      if segs[0].Var? {
        var e := segs[0].e;
        ValueFits(e, Lookup(vars, e.name).value, |segs| == 1);
        assert Encoded(segs, vars)[1..] == Encoded(segs[1..], vars);
      }
    }
  }

  // No shorter values solve it: the byte after a value is never part of one.

  lemma RebuildStart(segs: seq<Segment>, vals: seq<bytes>)
    requires segs != [] && StartByte(segs[0]).Some? && |vals| == VarCount(segs)
    ensures var s := Rebuild(segs, vals); s != [] && s[0] == StartByte(segs[0]).value
  {
  }

  lemma {:induction false} NoShorterSolution(segs: seq<Segment>, vars: Value, vals: seq<bytes>)
    requires WellFormed(vars) && Separated(segs) && Kept(segs, vars) && Malformed !in segs
    requires Solves(segs, Rebuild(segs, Encoded(segs, vars)), vals)
    requires LexLe(vals, Encoded(segs, vars))
    ensures vals == Encoded(segs, vars)
    decreases |segs|
  {
    hide Fits, ValueText, Keeps, Lead, InValue, StartByte, Lookup;
    var encs := Encoded(segs, vars);
    EncodedSolves(segs, vars);
    if segs != [] {
      var tail := Encoded(segs[1..], vars);
      match segs[0]
      case Literal(c) =>
        assert Rebuild(segs, vals)[1..] == Rebuild(segs[1..], vals);
        assert Rebuild(segs, encs)[1..] == Rebuild(segs[1..], encs);
        NoShorterSolution(segs[1..], vars, vals);
      case Var(e) =>
        var n := |Lead(e)|;
        var a, b := vals[0] + Rebuild(segs[1..], vals[1..]), encs[0] + Rebuild(segs[1..], encs[1..]);
        assert Rebuild(segs, vals)[n..] == a && Rebuild(segs, encs)[n..] == b;
        assert encs[1..] == tail;
        FirstValueSame(segs, vars, vals, a);
        NoShorterSolution(segs[1..], vars, vals[1..]);
        assert vals == [vals[0]] + vals[1..] && encs == [encs[0]] + tail;
    }
  }

  lemma FirstValueSame(segs: seq<Segment>, vars: Value, vals: seq<bytes>, s: bytes)
    requires WellFormed(vars) && Separated(segs) && Kept(segs, vars) && segs != [] && segs[0].Var?
    requires |vals| == VarCount(segs) == |Encoded(segs, vars)|
    requires LexLe(vals, Encoded(segs, vars))
    requires s == vals[0] + Rebuild(segs[1..], vals[1..])
    requires s == Encoded(segs, vars)[0] + Rebuild(segs[1..], Encoded(segs, vars)[1..])
    ensures vals[0] == Encoded(segs, vars)[0]
    ensures Rebuild(segs[1..], vals[1..]) == Rebuild(segs[1..], Encoded(segs, vars)[1..])
    ensures LexLe(vals[1..], Encoded(segs, vars)[1..])
  {
    hide ValueText, Keeps, Rebuild, InValue, StartByte;
    var e := segs[0].e;
    var enc := Encoded(segs, vars)[0];
    var k := |vals[0]|;
    if |segs| == 1 {
      LastRebuild(segs[1..], vals[1..]);
    } else {
      RebuildStart(segs[1..], vals[1..]);
      ValueAlphabet(e, Lookup(vars, e.name).value);
      Boundary(e, s, vals[0], Rebuild(segs[1..], vals[1..]), enc);
    }
    assert k == |enc|;
    assert s[..k] == vals[0] && s[..k] == enc;
    assert s[k..] == Rebuild(segs[1..], vals[1..]);
  }

  /** A value cannot stop inside a run of value bytes. */
  lemma Boundary(e: VarExpr, s: bytes, a: bytes, rest: bytes, enc: bytes)
    requires s == a + rest && enc <= s && rest != [] && !InValue(e, rest[0])
    requires forall c :: c in enc ==> InValue(e, c)
    ensures |enc| <= |a|
  {
    hide InValue;
    assert forall i :: 0 <= i < |enc| ==> s[i] == enc[i] && InValue(e, s[i]);
    assert s[|a|] == rest[0];
  }

  lemma LastRebuild(segs: seq<Segment>, vals: seq<bytes>)
    requires segs == []
    ensures Rebuild(segs, vals) == []
  {
  }

  // What the captures are collected into.

  lemma {:induction false} CollectsValues(segs: seq<Segment>, vars: Value,
                                          before: seq<Capture>, keys: seq<bytes>, vals: seq<Value>)
    requires WellFormed(vars) && Separated(segs) && Kept(segs, vars) && Malformed !in segs
    requires |keys| == |vals| && Collect(before) == Some((keys, vals))
    requires Distinct(keys + Names(segs))
    ensures Collect(before + Bind(segs, Encoded(segs, vars)))
         == Some((keys + Names(segs), vals + Values(segs, vars)))
    decreases |segs|
  {
    hide Collect, ValueText, Keeps, Names, Values, Encoded, Bind, Lookup, InValue, StartByte;
    if segs == [] {
      NothingToCollect(vars);
      assert before + [] == before && keys + [] == keys && vals + [] == vals;
    } else if segs[0].Var? {
      var e := segs[0].e;
      var v := Lookup(vars, e.name).value;
      var c := Capture(e, ValueText(e, v));
      VarFirst(segs, vars);
      var names := Names(segs[1..]);
      assert keys + ([e.name] + names) == (keys + [e.name]) + names;
      NameIsNew(keys, e.name, names);
      CollectOne(e, vars, before, keys, vals);
      CollectsValues(segs[1..], vars, before + [c], keys + [e.name], vals + [v]);
      Regroup(before, c, Bind(segs[1..], Encoded(segs[1..], vars)));
      Regroup(vals, v, Values(segs[1..], vars));
    } else {
      LiteralFirst(segs, vars);
      CollectsValues(segs[1..], vars, before, keys, vals);
    }
  }

  lemma Regroup<T>(a: seq<T>, x: T, b: seq<T>)
    ensures a + ([x] + b) == (a + [x]) + b
  {
  }

  lemma NameIsNew(keys: seq<bytes>, name: bytes, names: seq<bytes>)
    requires Distinct(keys + ([name] + names))
    ensures name !in keys
  {
    var all := keys + ([name] + names);
    assert all[|keys|] == name && forall i :: 0 <= i < |keys| ==> all[i] == keys[i];
  }

  lemma NothingToCollect(vars: Value)
    requires WellFormed(vars) && Kept([], vars)
    ensures Names([]) == [] && Bind([], Encoded([], vars)) == [] && Values([], vars) == []
  {
  }

  lemma VarFirst(segs: seq<Segment>, vars: Value)
    requires WellFormed(vars) && Kept(segs, vars) && segs != [] && segs[0].Var?
    ensures var e := segs[0].e;
            var v := Lookup(vars, e.name).value;
            && Names(segs) == [e.name] + Names(segs[1..])
            && Bind(segs, Encoded(segs, vars))
               == [Capture(e, ValueText(e, v))] + Bind(segs[1..], Encoded(segs[1..], vars))
            && Values(segs, vars) == [v] + Values(segs[1..], vars)
  {
    hide ValueText, Keeps, Lookup, Bind, WellFormed;
    var e := segs[0].e;
    BindFirst(segs, ValueText(e, Lookup(vars, e.name).value), Encoded(segs[1..], vars));
  }

  lemma BindFirst(segs: seq<Segment>, v: bytes, vals: seq<bytes>)
    requires segs != [] && segs[0].Var?
    ensures Bind(segs, [v] + vals) == [Capture(segs[0].e, v)] + Bind(segs[1..], vals)
  {
    assert ([v] + vals)[1..] == vals;
  }

  lemma LiteralFirst(segs: seq<Segment>, vars: Value)
    requires WellFormed(vars) && Kept(segs, vars) && segs != [] && !segs[0].Var?
    ensures Names(segs) == Names(segs[1..]) && Values(segs, vars) == Values(segs[1..], vars)
    ensures Bind(segs, Encoded(segs, vars)) == Bind(segs[1..], Encoded(segs[1..], vars))
  {
    hide ValueText, Keeps, Lookup;
  }

  lemma CollectOne(e: VarExpr, vars: Value, before: seq<Capture>, keys: seq<bytes>, vals: seq<Value>)
    requires WellFormed(vars) && Lookup(vars, e.name).Some? && Keeps(e, Lookup(vars, e.name).value)
    requires |e.name| <= NAME_CAP && e.name !in keys
    requires |keys| == |vals| && Collect(before) == Some((keys, vals))
    ensures var v := Lookup(vars, e.name).value;
            Collect(before + [Capture(e, ValueText(e, v))]) == Some((keys + [e.name], vals + [v]))
  {
    hide ValueText, Keeps, CaptureValue, Lookup;
    var v := Lookup(vars, e.name).value;
    var c := Capture(e, ValueText(e, v));
    LookupText(vars, e.name);
    ValueReads(e, v);
    assert (before + [c])[..|before|] == before;
    assert IndexOf(keys, e.name) == |keys|;
  }

  lemma LookupText(vars: Value, key: bytes)
    requires WellFormed(vars) && Lookup(vars, key).Some?
    ensures Text(key) && WellFormed(Lookup(vars, key).value)
  {
    var i := IndexOf(vars.keys, key);
    assert Text(vars.keys[i]) && WellFormed(vars.vals[i]);
  }

  // The law.

  /**
    For a template with distinct variables that end where a value cannot go on, matching
    its expansion gives back exactly the variables' values, strings and lists alike, in
    template order, if and only if there are at most as many variables as the matcher
    can capture.
   */
  lemma MatchInvertsExpand(fmt: NumberFormat, pattern: bytes, vars: Value)
    requires WellFormed(vars)
    requires ValidPattern(Segments(pattern)) && Separated(Segments(pattern))
    requires Distinct(Names(Segments(pattern))) && Kept(Segments(pattern), vars)
    ensures var segs := Segments(pattern);
            var uri := Expand(fmt, pattern, vars);
            && uri.Some?
            && MatchTemplate(pattern, uri.value) ==
                 if VarCount(segs) <= 64
                 then Matched(Ok, Some(Object(Names(segs), Values(segs, vars))))
                 else Matched(NotFound, None)
  {
    hide Segments, FindMatch, Rebuild, Encoded, Collect, Bind, Names, Separated, Kept, Values;
    var segs := Segments(pattern);
    ExpandRebuilds(fmt, segs, vars);
    EncodedSolves(segs, vars);
    var encs := Encoded(segs, vars);
    var uri := Rebuild(segs, encs);
    if VarCount(segs) <= MAX_CAPTURES {
      FindMatchComplete(segs, uri, MAX_CAPTURES, encs);
      FindMatchSound(segs, uri, MAX_CAPTURES);
      NoShorterSolution(segs, vars, FindMatch(segs, uri, MAX_CAPTURES).value);
      CollectNothing();
      assert [] + Names(segs) == Names(segs);
      CollectsValues(segs, vars, [], [], []);
      assert [] + Bind(segs, encs) == Bind(segs, encs);
      assert [] + Values(segs, vars) == Values(segs, vars);
    } else if FindMatch(segs, uri, MAX_CAPTURES).Some? {
      FindMatchSound(segs, uri, MAX_CAPTURES);
    }
  }

  /** A lone exploded variable reads a joined list of strings as that list. */
  lemma MatchSplitsList(fmt: NumberFormat, pattern: bytes, e: VarExpr, strings: seq<bytes>)
    requires Segments(pattern) == [Var(e)] && e.mod == Explode && |e.name| <= NAME_CAP && Text(e.name)
    requires strings != [] && forall i :: 0 <= i < |strings| ==> Text(strings[i])
    requires Lacks(Encodings(e, strings), Separator(e.op)) && (e.op == Query ==> 0x26 !in e.name)
    ensures MatchTemplate(pattern, First(e.op, e.name) + Joined(Between(e.op, e.name), Encodings(e, strings)))
         == Matched(Ok, Some(Object([e.name], [Array(AsValues(strings))])))
  {
    hide MatchTemplate, Expand, Segments, First, Between, Joined, EncodeAll, ExpandValue, Lacks;
    hide Kept, Separated, Values, Names;
    var list := Array(AsValues(strings));
    var vars := Object([e.name], [list]);
    assert WellFormed(list);
    assert Encodings(e, strings) == ItemEncodings(e, list.items);
    assert IndexOf(vars.keys, e.name) == 0;
    var segs := [Var(e)];
    AloneIsSeparated(e, vars);
    MatchInvertsExpand(fmt, pattern, vars);
    OneVariable(fmt, pattern, e, vars);
    ExpandedList(fmt, e, e.name, list.items, strings);
  }

  lemma AloneIsSeparated(e: VarExpr, vars: Value)
    requires WellFormed(vars) && |e.name| <= NAME_CAP
    requires Lookup(vars, e.name).Some? && Keeps(e, Lookup(vars, e.name).value)
    ensures Separated([Var(e)]) && Names([Var(e)]) == [e.name]
    ensures Kept([Var(e)], vars) && Values([Var(e)], vars) == [Lookup(vars, e.name).value]
  {
    hide Keeps, Lookup, WellFormed;
    var segs := [Var(e)];
    assert segs[1..] == [] && segs[0] == Var(e);
    assert Kept(segs[1..], vars) && Values(segs[1..], vars) == [] && Names(segs[1..]) == [];
  }

  lemma OneVariable(fmt: NumberFormat, pattern: bytes, e: VarExpr, vars: Value)
    requires WellFormed(vars) && Segments(pattern) == [Var(e)] && |e.name| <= NAME_CAP
    requires Lookup(vars, e.name).Some?
    ensures Expand(fmt, pattern, vars) == Some(ExpandValue(fmt, e, e.name, Lookup(vars, e.name).value))
  {
    hide ExpandValue, Lookup;
    var segs := [Var(e)];
    assert segs[1..] == [] && ExpandSegments(fmt, segs[1..], vars) == Some([]);
    var text := ExpandVar(fmt, e, vars);
    assert text + [] == text;
  }

  function AsValues(ss: seq<bytes>): (vs: seq<Value>)
    ensures |vs| == |ss|
  {
    seq(|ss|, i requires 0 <= i < |ss| => String(ss[i]))
  }

  lemma CollectNothing()
    ensures Collect([]) == Some(([], []))
  {
  }

  /** Two variables that nothing separates. */
  function Adjacent(a: bytes, b: bytes): seq<Segment> {
    [Var(VarExpr(Simple, a, NoModifier)), Var(VarExpr(Simple, b, NoModifier))]
  }

  /** Without separation there is no inverse: moving a string from one variable to the next keeps the expansion. */
  lemma AdjacentVariablesCollide(fmt: NumberFormat, a: bytes, b: bytes, s: bytes)
    requires a != b && |a| <= NAME_CAP && |b| <= NAME_CAP
    requires WellFormed(Object([a, b], [String(s), String([])])) && WellFormed(Object([a, b], [String([]), String(s)]))
    ensures ExpandSegments(fmt, Adjacent(a, b), Object([a, b], [String(s), String([])]))
         == ExpandSegments(fmt, Adjacent(a, b), Object([a, b], [String([]), String(s)]))
  {
    hide EncodeAll;
    var first, second := Object([a, b], [String(s), String([])]), Object([a, b], [String([]), String(s)]);
    AdjacentExpansion(fmt, a, b, first, s, []);
    AdjacentExpansion(fmt, a, b, second, [], s);
    EncodeNone();
    assert EncodeAll(s, false) + [] == [] + EncodeAll(s, false);
  }

  lemma EncodeNone()
    ensures EncodeAll([], false) == []
  {
  }

  lemma AdjacentExpansion(fmt: NumberFormat, a: bytes, b: bytes, vars: Value, x: bytes, y: bytes)
    requires a != b && |a| <= NAME_CAP && |b| <= NAME_CAP
    requires WellFormed(vars) && vars == Object([a, b], [String(x), String(y)])
    ensures ExpandSegments(fmt, Adjacent(a, b), vars) == Some(EncodeAll(x, false) + EncodeAll(y, false))
  {
    hide EncodeAll, WellFormed;
    var segs := Adjacent(a, b);
    assert segs[1..] == [segs[1]] && segs[1..][1..] == [];
    assert Lookup(vars, a) == Some(String(x)) && Lookup(vars, b) == Some(String(y)) by {
      assert [a, b][1..] == [b] && [b][0] == b;
    }
    assert KeyOf(a) == a && KeyOf(b) == b;
    assert ExpandVar(fmt, segs[0].e, vars) == EncodeAll(x, false);
    assert ExpandVar(fmt, segs[1].e, vars) == EncodeAll(y, false);
    assert ExpandSegments(fmt, segs[1..][1..], vars) == Some([]);
    assert EncodeAll(y, false) + [] == EncodeAll(y, false);
    assert ExpandSegments(fmt, segs[1..], vars) == Some(EncodeAll(y, false));
    assert segs[0] != Malformed;
  }
}
