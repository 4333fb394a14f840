/** Template expansion with percent-encoding (RFC 6570, section 3.2). */
module UriExpand {
  import opened Bytes
  import opened JsonValue
  import opened UriSyntax
  import opened UriMatch
  import opened UriVariables

  predicate IsUnreserved(c: byte) {
    || 0x61 <= c <= 0x7A
    || 0x41 <= c <= 0x5A
    || IsDigit(c)
    || c == MINUS || c == DOT || c == UNDERSCORE || c == TILDE
  }

  /** gen-delims and sub-delims of RFC 3986. */
  predicate IsReservedChar(c: byte) {
    c in {COLON, SLASH, QUESTION, HASH, LBRACKET, RBRACKET, 0x40, 0x21, 0x24, AMP, 0x27, 0x28, 0x29, STAR, PLUS, COMMA, 0x3B, EQUALS}
  }

  predicate Allowed(c: byte, reserved: bool) {
    IsUnreserved(c) || (reserved && IsReservedChar(c))
  }

  function UpperHex(n: nat): byte
    requires n < 16
  {
    if n < 10 then 0x30 + n else 0x41 + (n - 10)
  }

  function EncodeByte(c: byte, reserved: bool): bytes {
    if Allowed(c, reserved) then [c] else [PERCENT, UpperHex(c / 16), UpperHex(c % 16)]
  }

  function EncodeAll(s: bytes, reserved: bool): bytes {
    if s == [] then [] else EncodeByte(s[0], reserved) + EncodeAll(s[1..], reserved)
  }

  /** The two top bits are 10. */
  predicate IsContinuation(c: byte) {
    c / 64 == 2
  }

  /** The bytes before the one that would start character `n + 1`. */
  function TakeChars(s: bytes, n: nat): bytes {
    if s == [] then []
    else if IsContinuation(s[0]) then [s[0]] + TakeChars(s[1..], n)
    else if n == 0 then []
    else [s[0]] + TakeChars(s[1..], n - 1)
  }

  function Encode(s: bytes, reserved: bool, mod: Modifier): bytes {
    EncodeAll(if mod.Prefix? then TakeChars(s, mod.n) else s, reserved)
  }

  /** `append_encoded_str`: one loop counts characters and encodes. */
  method AppendEncoded(buf: bytes, s: bytes, reserved: bool, mod: Modifier) returns (out: bytes)
    ensures out == buf + Encode(s, reserved, mod)
  {
    hide EncodeByte, EncodeAll;
    out := buf;
    var chars := 0;
    assert s[0..] == s;
    EncodeNothing(reserved);
    for i := 0 to |s|
      invariant mod.Prefix? ==> chars <= mod.n
      invariant out + EncodeAll(if mod.Prefix? then TakeChars(s[i..], mod.n - chars) else s[i..], reserved)
             == buf + Encode(s, reserved, mod)
    {
      assert s[i..][1..] == s[i + 1..];
      if !IsContinuation(s[i]) {
        if mod.Prefix? && chars >= mod.n {
          assert TakeChars(s[i..], 0) == [];
          assert out + [] == out;
          return;
        }
        chars := chars + 1;
      }
      ghost var more := if mod.Prefix? then TakeChars(s[i + 1..], mod.n - chars) else s[i + 1..];
      EncodeFirst(s[i], more, reserved, out);
      assert !mod.Prefix? ==> [s[i]] + more == s[i..];
      out := out + EncodeByte(s[i], reserved);
    }
    assert out + [] == out;
  }

  lemma EncodeNothing(reserved: bool)
    ensures EncodeAll([], reserved) == []
  {
  }

  lemma EncodeFirst(c: byte, more: bytes, reserved: bool, out: bytes)
    ensures out + EncodeAll([c] + more, reserved) == (out + EncodeByte(c, reserved)) + EncodeAll(more, reserved)
  {
    assert ([c] + more)[1..] == more;
  }

  // The value of one expression.

  /** How `%g` prints a number is left to the C library. */
  type NumberFormat = Double -> bytes

  function ScalarText(fmt: NumberFormat, v: Value): Option<bytes> {
    match v
    case String(s) => Some(s)
    case Number(d) => Some(fmt(d))
    case _ => None
  }

  function ItemText(fmt: NumberFormat, v: Value): bytes {
    var t := ScalarText(fmt, v);
    if t.Some? then t.value else []
  }

  /** What precedes the `i`-th item of an exploded list. */
  function ItemLead(e: VarExpr, key: bytes, i: nat): bytes {
    match e.op
    case Query => [if i == 0 then QUESTION else AMP] + key + [EQUALS]
    case Slash => [SLASH]
    case Dot => [DOT]
    case Hash => if i == 0 then [HASH] else [COMMA]
    case _ => if i == 0 then [] else [COMMA]
  }

  function ExplodedFrom(fmt: NumberFormat, e: VarExpr, key: bytes, items: seq<Value>, i: nat): bytes
    requires i <= |items|
    decreases |items| - i
  {
    if i == |items| then []
    else ItemLead(e, key, i) + Encode(ItemText(fmt, items[i]), Reserved(e.op), e.mod) + ExplodedFrom(fmt, e, key, items, i + 1)
  }

  function JoinedFrom(fmt: NumberFormat, e: VarExpr, items: seq<Value>, i: nat): bytes
    requires i <= |items|
    decreases |items| - i
  {
    if i == |items| then []
    else (if i > 0 then [COMMA] else []) + Encode(ItemText(fmt, items[i]), Reserved(e.op), e.mod) + JoinedFrom(fmt, e, items, i + 1)
  }

  function ExpandValue(fmt: NumberFormat, e: VarExpr, key: bytes, v: Value): bytes {
    var lead := Lead(e.(name := key));
    if v.Array? then
      if v.items == [] then []
      else if e.mod == Explode then ExplodedFrom(fmt, e, key, v.items, 0)
      else lead + JoinedFrom(fmt, e, v.items, 0)
    else
      var t := ScalarText(fmt, v);
      if t.None? then [] else lead + Encode(t.value, Reserved(e.op), e.mod)
  }

  function Lookup(vars: Value, key: bytes): Option<Value>
    requires WellFormed(vars)
  {
    if vars.Object? && key in vars.keys then Some(vars.vals[IndexOf(vars.keys, key)]) else None
  }

  function ExpandVar(fmt: NumberFormat, e: VarExpr, vars: Value): bytes
    requires WellFormed(vars)
  {
    var key := KeyOf(e.name);
    var v := Lookup(vars, key);
    if v.None? then [] else ExpandValue(fmt, e, key, v.value)
  }

  /** Undefined when a brace opens nothing legal. */
  function ExpandSegments(fmt: NumberFormat, segs: seq<Segment>, vars: Value): Option<bytes>
    requires WellFormed(vars)
  {
    if segs == [] then Some([])
    else if segs[0] == Malformed then None
    else
      var first := if segs[0].Literal? then [segs[0].c] else ExpandVar(fmt, segs[0].e, vars);
      var more := ExpandSegments(fmt, segs[1..], vars);
      if more.None? then None else Some(first + more.value)
  }

  function Expand(fmt: NumberFormat, pattern: bytes, vars: Value): Option<bytes>
    requires WellFormed(vars)
  {
    ExpandSegments(fmt, Segments(pattern), vars)
  }

  // The source's expander, growing one buffer.

  method AppendExploded(fmt: NumberFormat, buf: bytes, e: VarExpr, key: bytes, items: seq<Value>) returns (out: bytes)
    ensures out == buf + ExplodedFrom(fmt, e, key, items, 0)
  {
    hide Encode, ItemLead, ItemText;
    out := buf;
    for i := 0 to |items|
      invariant out + ExplodedFrom(fmt, e, key, items, i) == buf + ExplodedFrom(fmt, e, key, items, 0)
    {
      ghost var enc := Encode(ItemText(fmt, items[i]), Reserved(e.op), e.mod);
      Regroup(out, ItemLead(e, key, i), enc, ExplodedFrom(fmt, e, key, items, i + 1));
      out := out + ItemLead(e, key, i);
      out := AppendEncoded(out, ItemText(fmt, items[i]), Reserved(e.op), e.mod);
    }
    assert out + [] == out;
  }

  method AppendJoined(fmt: NumberFormat, buf: bytes, e: VarExpr, items: seq<Value>) returns (out: bytes)
    ensures out == buf + JoinedFrom(fmt, e, items, 0)
  {
    hide Encode, ItemText;
    out := buf;
    for i := 0 to |items|
      invariant out + JoinedFrom(fmt, e, items, i) == buf + JoinedFrom(fmt, e, items, 0)
    {
      var comma := if i > 0 then [COMMA] else [];
      ghost var enc := Encode(ItemText(fmt, items[i]), Reserved(e.op), e.mod);
      Regroup(out, comma, enc, JoinedFrom(fmt, e, items, i + 1));
      out := out + comma;
      out := AppendEncoded(out, ItemText(fmt, items[i]), Reserved(e.op), e.mod);
    }
    assert out + [] == out;
  }

  method AppendValue(fmt: NumberFormat, buf: bytes, e: VarExpr, key: bytes, v: Value) returns (out: bytes)
    ensures out == buf + ExpandValue(fmt, e, key, v)
  {
    hide Encode, ExplodedFrom, JoinedFrom, Lead, ScalarText;
    out := buf;
    if v.Array? {
      if v.items == [] {
        assert out + [] == out;
        return;
      }
      if e.mod == Explode {
        out := AppendExploded(fmt, buf, e, key, v.items);
      } else {
        out := AppendJoined(fmt, out + Lead(e.(name := key)), e, v.items);
        Regroup(buf, Lead(e.(name := key)), JoinedFrom(fmt, e, v.items, 0), []);
      }
      return;
    }
    var t := ScalarText(fmt, v);
    if t.None? {
      assert out + [] == out;
      return;
    }
    out := AppendEncoded(buf + Lead(e.(name := key)), t.value, Reserved(e.op), e.mod);
    Regroup(buf, Lead(e.(name := key)), Encode(t.value, Reserved(e.op), e.mod), []);
  }

  lemma Regroup(a: bytes, b: bytes, c: bytes, d: bytes)
    ensures a + (b + c + d) == ((a + b) + c) + d
  {
  }

  /** `mcp_uri_template_expand`. */
  method UriTemplateExpand(fmt: NumberFormat, pattern: bytes, vars: Value) returns (r: Option<bytes>)
    requires WellFormed(vars)
    ensures r == Expand(fmt, pattern, vars)
  {
    hide ExpandValue, Segments, ParseVarExpr, Find;
    var buf: bytes := [];
    var p := 0;
    assert pattern[0..] == pattern;
    PrependNone(Expand(fmt, pattern, vars));
    while p < |pattern|
      invariant 0 <= p <= |pattern|
      invariant PrependText(buf, Expand(fmt, pattern[p..], vars)) == Expand(fmt, pattern, vars)
    {
      if pattern[p] != LBRACE {
        LiteralExpand(fmt, pattern, p, vars, buf);
        buf := buf + [pattern[p]];
        p := p + 1;
        continue;
      }
      var end := p + Find(pattern[p..], RBRACE);
      BraceSegments(pattern, p, end);
      if end == |pattern| { return None; }
      var expr := ScanVarExpr(pattern[p + 1..end]);
      if expr.None? { return None; }
      var e := expr.value;
      VarExpand(fmt, e, Segments(pattern[end + 1..]), vars, buf);
      p := end + 1;
      var key := KeyOf(e.name);
      var v := Lookup(vars, key);
      if v.Some? {
        buf := AppendValue(fmt, buf, e, key, v.value);
      } else {
        assert buf + [] == buf;
      }
    }
    EmptyExpand(fmt, pattern, p, vars, buf);
    return Some(buf);
  }

  ghost function PrependText(a: bytes, r: Option<bytes>): Option<bytes> {
    if r.None? then None else Some(a + r.value)
  }

  lemma PrependNone(r: Option<bytes>)
    ensures PrependText([], r) == r
  {
    if r.Some? {
      assert [] + r.value == r.value;
    }
  }

  lemma LiteralExpand(fmt: NumberFormat, pattern: bytes, p: nat, vars: Value, buf: bytes)
    requires WellFormed(vars) && p < |pattern| && pattern[p] != LBRACE
    ensures PrependText(buf, Expand(fmt, pattern[p..], vars))
         == PrependText(buf + [pattern[p]], Expand(fmt, pattern[p + 1..], vars))
  {
    hide ExpandVar;
    assert pattern[p..][1..] == pattern[p + 1..];
    var segs := Segments(pattern[p + 1..]);
    assert ([Literal(pattern[p])] + segs)[1..] == segs;
    var more := ExpandSegments(fmt, segs, vars);
    if more.Some? {
      assert buf + ([pattern[p]] + more.value) == (buf + [pattern[p]]) + more.value;
    }
  }

  lemma VarExpand(fmt: NumberFormat, e: VarExpr, segs: seq<Segment>, vars: Value, buf: bytes)
    requires WellFormed(vars)
    ensures PrependText(buf, ExpandSegments(fmt, [Var(e)] + segs, vars))
         == PrependText(buf + ExpandVar(fmt, e, vars), ExpandSegments(fmt, segs, vars))
  {
    hide ExpandVar;
    assert ([Var(e)] + segs)[1..] == segs;
    var more := ExpandSegments(fmt, segs, vars);
    if more.Some? {
      var x := ExpandVar(fmt, e, vars);
      assert buf + (x + more.value) == (buf + x) + more.value;
    }
  }

  lemma EmptyExpand(fmt: NumberFormat, pattern: bytes, p: nat, vars: Value, buf: bytes)
    requires WellFormed(vars) && p == |pattern|
    ensures PrependText(buf, Expand(fmt, pattern[p..], vars)) == Some(buf)
  {
    assert pattern[p..] == [];
    assert buf + [] == buf;
  }
}
