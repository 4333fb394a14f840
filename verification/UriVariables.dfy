/** From captures to variables: percent-decoding, exploded lists and the result object of a match. */
module UriVariables {
  import opened Bytes
  import opened JsonValue
  import opened UriSyntax
  import opened UriMatch
  import Utf8

  // Percent-decoding.

  predicate EscapeAt(s: bytes) {
    |s| >= 3 && s[0] == PERCENT && HexValue(s[1]) >= 0 && HexValue(s[2]) >= 0
  }

  /** `url_decode`: a percent sign without two hexadecimal digits after it stands for itself. */
  function UrlDecode(s: bytes): bytes {
    if s == [] then []
    else if EscapeAt(s) then [HexValue(s[1]) * 16 + HexValue(s[2])] + UrlDecode(s[3..])
    else [s[0]] + UrlDecode(s[1..])
  }

  method DecodeUrl(s: bytes) returns (out: bytes)
    ensures out == UrlDecode(s)
  {
    out := [];
    var i := 0;
    while i < |s|
      invariant 0 <= i <= |s|
      invariant out + UrlDecode(s[i..]) == UrlDecode(s)
    {
      if s[i] == PERCENT && i + 2 < |s| && HexValue(s[i + 1]) >= 0 && HexValue(s[i + 2]) >= 0 {
        var c: byte := HexValue(s[i + 1]) * 16 + HexValue(s[i + 2]);
        assert s[i..][3..] == s[i + 3..];
        Onward(out, c, UrlDecode(s[i + 3..]));
        out := out + [c];
        i := i + 3;
      } else {
        assert s[i..][1..] == s[i + 1..];
        Onward(out, s[i], UrlDecode(s[i + 1..]));
        out := out + [s[i]];
        i := i + 1;
      }
    }
    assert s[i..] == [];
  }

  lemma Onward(a: bytes, c: byte, b: bytes)
    ensures a + ([c] + b) == (a + [c]) + b
  {
  }

  // The value of a capture.

  /** `mcp_json_string_new` on a C string: it must be valid UTF-8. */
  function TextValue(s: bytes): Option<Value> {
    if Utf8.Valid(CStr(s)) then Some(String(CStr(s))) else None
  }

  function SplitOn(s: bytes, d: byte): (ts: seq<bytes>)
    ensures ts != []
    decreases |s|
  {
    var k := Find(s, d);
    if k == |s| then [s] else [s[..k]] + SplitOn(s[k + 1..], d)
  }

  function Delimiter(op: Op): byte {
    match op
    case Slash => SLASH
    case Query => AMP
    case Dot => DOT
    case _ => COMMA
  }

  /** From the second token on, a query token may repeat the name. */
  function TokenValue(op: Op, key: bytes, token: bytes, first: bool): bytes {
    if op == Query && !first && StartsWith(token, key + [EQUALS]) then token[|key| + 1..] else token
  }

  function TokenValues(op: Op, key: bytes, tokens: seq<bytes>, first: bool): Option<seq<Value>> {
    if tokens == [] then Some([])
    else
      var v := TextValue(UrlDecode(TokenValue(op, key, tokens[0], first)));
      var more := TokenValues(op, key, tokens[1..], false);
      if v.None? || more.None? then None else Some([v.value] + more.value)
  }

  function CaptureValue(c: Capture, key: bytes): Option<Value> {
    if c.e.mod == Explode then
      var vs := TokenValues(c.e.op, key, SplitOn(c.val, Delimiter(c.e.op)), true);
      if vs.None? then None else Some(Array(vs.value))
    else TextValue(UrlDecode(c.val))
  }

  const NAME_CAP: nat := 127

  /** Names are copied into a 128-byte buffer. */
  function KeyOf(name: bytes): bytes {
    if |name| > NAME_CAP then name[..NAME_CAP] else name
  }

  /** The result object after the first captures; undefined when one of them cannot be stored. */
  function Collect(caps: seq<Capture>): (r: Option<(seq<bytes>, seq<Value>)>)
    ensures r.Some? ==> |r.value.0| == |r.value.1|
    decreases |caps|
  {
    if caps == [] then Some(([], []))
    else
      var n := |caps| - 1;
      var before := Collect(caps[..n]);
      var key := CStr(KeyOf(caps[n].e.name));
      var v := CaptureValue(caps[n], KeyOf(caps[n].e.name));
      if before.None? || v.None? || !Utf8.Valid(key) then None
      else Some(SetKey(before.value.0, before.value.1, key, v.value))
  }

  method MakeText(s: bytes) returns (r: Option<Value>)
    ensures r == TextValue(s)
  {
    var c := CStr(s);
    var ok := Utf8.CheckValid(c);
    if !ok { return None; }
    return Some(String(c));
  }

  /** The splitting loop for an exploded variable. */
  method ExplodeValue(op: Op, key: bytes, val: bytes) returns (r: Option<Value>)
    ensures var vs := TokenValues(op, key, SplitOn(val, Delimiter(op)), true);
            r == if vs.None? then None else Some(Array(vs.value))
  {
    hide TextValue, UrlDecode, TokenValue, TokenValues, SplitOn, Prepend;
    var delim := Delimiter(op);
    var out: seq<Value> := [];
    var start := 0;
    assert val[0..] == val;
    PrependNothing(TokenValues(op, key, SplitOn(val, delim), true));
    while true
      invariant 0 <= start <= |val|
      invariant Prepend(out, TokenValues(op, key, SplitOn(val[start..], delim), start == 0))
             == TokenValues(op, key, SplitOn(val, delim), true)
      decreases |val| - start
    {
      var end := start;
      while end < |val| && val[end] != delim
        invariant start <= end <= |val|
        invariant forall j :: start <= j < end ==> val[j] != delim
      {
        end := end + 1;
      }
      FirstToken(val, start, end, delim);
      var token := val[start..end];
      if op == Query && start > 0 {
        if |token| >= |key| + 1 && token[..|key|] == key && token[|key|] == EQUALS {
          token := token[|key| + 1..];
        }
      }
      TokenValueOf(op, key, val[start..end], start == 0, token);
      var decoded := DecodeUrl(token);
      var item := MakeText(decoded);
      TokensStep(op, key, SplitOn(val[start..], delim), start == 0, out);
      if item.None? { return None; }
      out := out + [item.value];
      if end >= |val| { return Some(Array(out)); }
      start := end + 1;
    }
  }

  ghost function Prepend(a: seq<Value>, r: Option<seq<Value>>): Option<seq<Value>> {
    if r.None? then None else Some(a + r.value)
  }

  lemma PrependNothing(r: Option<seq<Value>>)
    ensures Prepend([], r) == r
  {
    if r.Some? {
      assert [] + r.value == r.value;
    }
  }

  lemma FirstToken(val: bytes, start: nat, end: nat, delim: byte)
    requires start <= end <= |val| && (end == |val| || val[end] == delim)
    requires forall j :: start <= j < end ==> val[j] != delim
    ensures SplitOn(val[start..], delim) ==
            if end == |val| then [val[start..end]] else [val[start..end]] + SplitOn(val[end + 1..], delim)
  {
    hide Find;
    var s := val[start..];
    var k := Find(s, delim);
    assert k == end - start;
    assert s[..k] == val[start..end];
    if k < |s| {
      assert s[k + 1..] == val[end + 1..];
    } else {
      assert s[..k] == s;
    }
  }

  lemma TokenValueOf(op: Op, key: bytes, t: bytes, first: bool, token: bytes)
    requires token == if op == Query && !first && |t| >= |key| + 1 && t[..|key|] == key && t[|key|] == EQUALS
                      then t[|key| + 1..] else t
    ensures token == TokenValue(op, key, t, first)
  {
    if |t| >= |key| + 1 {
      assert t[..|key| + 1] == t[..|key|] + [t[|key|]];
    }
    if StartsWith(t, key + [EQUALS]) {
      assert t[..|key|] == (key + [EQUALS])[..|key|];
    }
  }

  lemma TokensStep(op: Op, key: bytes, tokens: seq<bytes>, first: bool, out: seq<Value>)
    requires tokens != []
    ensures var v := TextValue(UrlDecode(TokenValue(op, key, tokens[0], first)));
            && (v.None? ==> Prepend(out, TokenValues(op, key, tokens, first)) == None)
            && (v.Some? ==> Prepend(out, TokenValues(op, key, tokens, first))
                            == Prepend(out + [v.value], TokenValues(op, key, tokens[1..], false)))
            && (v.Some? && |tokens| == 1 ==> Prepend(out, TokenValues(op, key, tokens, first)) == Some(out + [v.value]))
  {
    hide TextValue, UrlDecode, TokenValue;
    var v := TextValue(UrlDecode(TokenValue(op, key, tokens[0], first)));
    var more := TokenValues(op, key, tokens[1..], false);
    if v.Some? && more.Some? {
      assert out + ([v.value] + more.value) == (out + [v.value]) + more.value;
    }
    if v.Some? && |tokens| == 1 {
      assert tokens[1..] == [];
      assert more == Some([]);
      assert (out + [v.value]) + [] == out + [v.value];
    }
  }

  // The whole match.

  datatype Status = Ok | InvalidArgument | NotFound | NoMemory

  datatype Matched = Matched(status: Status, vars: Option<Value>)

  function MatchTemplate(pattern: bytes, uri: bytes): Matched {
    var segs := Segments(pattern);
    if !ValidPattern(segs) then Matched(InvalidArgument, None)
    else
      var r := FindMatch(segs, uri, MAX_CAPTURES);
      if r.None? then Matched(NotFound, None)
      else
        var vars := Collect(Bind(segs, r.value));
        if vars.None? then Matched(NoMemory, None) else Matched(Ok, Some(Object(vars.value.0, vars.value.1)))
  }

  /** Without an output parameter the captures are not looked at. */
  function MatchOnly(pattern: bytes, uri: bytes): Matched {
    var segs := Segments(pattern);
    if !ValidPattern(segs) then Matched(InvalidArgument, None)
    else if FindMatch(segs, uri, MAX_CAPTURES).None? then Matched(NotFound, None)
    else Matched(Ok, None)
  }

  /** The validation scan at the head of `mcp_uri_template_match`. */
  method CheckPattern(pattern: bytes) returns (ok: bool)
    ensures ok == ValidPattern(Segments(pattern))
  {
    hide ParseVarExpr, Find;
    var p := 0;
    assert pattern[0..] == pattern;
    while p < |pattern|
      invariant 0 <= p <= |pattern|
      invariant ValidPattern(Segments(pattern)) <==> ValidPattern(Segments(pattern[p..]))
    {
      if pattern[p] == LBRACE {
        var close := p + Find(pattern[p..], RBRACE);
        BraceSegments(pattern, p, close);
        if close == |pattern| { return false; }
        var e := ScanVarExpr(pattern[p + 1..close]);
        if e.None? { return false; }
        ValidFirst(Var(e.value), Segments(pattern[close + 1..]));
        p := close + 1;
      } else {
        assert pattern[p..][1..] == pattern[p + 1..];
        ValidFirst(Literal(pattern[p]), Segments(pattern[p + 1..]));
        if pattern[p] == RBRACE { return false; }
        p := p + 1;
      }
    }
    assert pattern[p..] == [];
    return true;
  }

  lemma ValidFirst(first: Segment, segs: seq<Segment>)
    ensures ValidPattern([first] + segs) <==> first != Malformed && first != Literal(RBRACE) && ValidPattern(segs)
  {
    assert first in [first] + segs;
    assert forall x :: x in segs ==> x in [first] + segs;
  }

  /** `mcp_uri_template_match`; `wanted` says whether the caller passed an output parameter. */
  method UriTemplateMatch(pattern: bytes, uri: bytes, wanted: bool) returns (r: Matched)
    ensures r == if wanted then MatchTemplate(pattern, uri) else MatchOnly(pattern, uri)
  {
    hide Collect, FindMatch, Segments, Bind, ValidPattern;
    var valid := CheckPattern(pattern);
    if !valid { return Matched(InvalidArgument, None); }
    var caps := new Captures();
    assert pattern[0..] == pattern && uri[0..] == uri;
    var found := MatchStep(pattern, uri, 0, 0, caps);
    if !found { return Matched(NotFound, None); }
    if !wanted { return Matched(Ok, None); }
    ghost var all := Bind(Segments(pattern), FindMatch(Segments(pattern), uri, MAX_CAPTURES).value);
    assert caps.Taken() == [] + all == all;
    r := CollectAll(caps.items[..caps.count]);
  }

  /** The loop that fills the result object. */
  method CollectAll(caps: seq<Capture>) returns (r: Matched)
    ensures var vars := Collect(caps);
            r == if vars.None? then Matched(NoMemory, None)
                 else Matched(Ok, Some(Object(vars.value.0, vars.value.1)))
  {
    hide CaptureValue, SetKey;
    var obj := new ObjectStore();
    for i := 0 to |caps|
      invariant |obj.keys| == |obj.vals| && Collect(caps[..i]) == Some((obj.keys, obj.vals))
    {
      assert caps[..i + 1][..i] == caps[..i];
      var c := caps[i];
      var key := KeyOf(c.e.name);
      var v := ReadCapture(c, key);
      if v.None? {
        CollectFails(caps, i + 1);
        return Matched(NoMemory, None);
      }
      var ok := obj.Set(key, v.value);
      if !ok {
        CollectFails(caps, i + 1);
        return Matched(NoMemory, None);
      }
    }
    assert caps[..|caps|] == caps;
    return Matched(Ok, Some(Object(obj.keys, obj.vals)));
  }

  method ReadCapture(c: Capture, key: bytes) returns (v: Option<Value>)
    ensures v == CaptureValue(c, key)
  {
    if c.e.mod == Explode {
      v := ExplodeValue(c.e.op, key, c.val);
    } else {
      var decoded := DecodeUrl(c.val);
      v := MakeText(decoded);
    }
  }

  lemma {:induction false} CollectFails(caps: seq<Capture>, i: nat)
    requires i <= |caps| && Collect(caps[..i]) == None
    ensures Collect(caps) == None
    decreases |caps|
  {
    hide CaptureValue, SetKey, CStr, KeyOf, Utf8.Valid;
    if i == |caps| {
      assert caps[..i] == caps;
    } else {
      var n := |caps| - 1;
      assert caps[..n][..i] == caps[..i];
      CollectFails(caps[..n], i);
    }
  }
}
