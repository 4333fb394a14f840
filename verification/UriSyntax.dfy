/** The syntax of URI templates: `{...}` expressions with operators and modifiers (RFC 6570, sections 2 and 3.2). */
module UriSyntax {
  import opened Bytes
  import opened Decimals

  datatype Op = Simple | Plus | Hash | Slash | Dot | Query

  datatype Modifier = NoModifier | Prefix(n: nat) | Explode

  datatype VarExpr = VarExpr(op: Op, name: bytes, mod: Modifier)

  function OpOf(c: byte): Op {
    if c == PLUS then Plus
    else if c == HASH then Hash
    else if c == SLASH then Slash
    else if c == DOT then Dot
    else if c == QUESTION then Query
    else Simple
  }

  predicate Reserved(op: Op) {
    op == Plus || op == Hash
  }

  const MAX_PREFIX: nat := 999999

  /** What stands between the braces: an operator, a name and at most one modifier. */
  function ParseVarExpr(body: bytes): (r: Option<VarExpr>)
    ensures r.Some? ==> r.value.name != []
  {
    if body == [] then None
    else
      var op := OpOf(body[0]);
      ParseName(op, if op == Simple then body else body[1..])
  }

  function ParseName(op: Op, s: bytes): (r: Option<VarExpr>)
    ensures r.Some? ==> r.value.name != []
  {
    var k := Find(s, COLON);
    if s == [] then None
    else if s[|s| - 1] == STAR then
      if k < |s| || |s| == 1 then None else Some(VarExpr(op, s[..|s| - 1], Explode))
    else if k < |s| then
      var digits := s[k + 1..];
      if k > 0 && AllDigits(digits) && 0 < Decimal(digits) <= MAX_PREFIX
      then Some(VarExpr(op, s[..k], Prefix(Decimal(digits))))
      else None
    else Some(VarExpr(op, s, NoModifier))
  }

  /** The number after the colon: the loop gives up as soon as the value is too large. */
  method ParsePrefixLength(digits: bytes) returns (r: Option<nat>)
    ensures r == if AllDigits(digits) && 0 < Decimal(digits) <= MAX_PREFIX then Some(Decimal(digits)) else None
  {
    if digits == [] { return None; }
    var n: nat := 0;
    for i := 0 to |digits|
      invariant Digits(digits[..i]) && n == Decimal(digits[..i]) <= MAX_PREFIX
    {
      if !IsDigit(digits[i]) { return None; }
      DecimalStep(digits, i);
      n := n * 10 + DigitValue(digits[i]);
      if n > MAX_PREFIX {
        if Digits(digits) {
          DecimalGrows(digits, i + 1);
        }
        return None;
      }
    }
    assert digits[..|digits|] == digits;
    if n == 0 { return None; }
    return Some(n);
  }

  /** `parse_var_expr` with its two scanning loops. */
  method ScanVarExpr(body: bytes) returns (r: Option<VarExpr>)
    ensures r == ParseVarExpr(body)
  {
    if body == [] { return None; }
    var op := OpOf(body[0]);
    var s := if op == Simple then body else body[1..];
    if s == [] { return None; }
    var colon := 0;
    while colon < |s| && s[colon] != COLON
      invariant 0 <= colon <= |s|
      invariant forall j :: 0 <= j < colon ==> s[j] != COLON
    {
      colon := colon + 1;
    }
    assert colon == Find(s, COLON);
    if s[|s| - 1] == STAR {
      if colon < |s| || |s| == 1 { return None; }
      return Some(VarExpr(op, s[..|s| - 1], Explode));
    } else if colon < |s| {
      if colon == 0 { return None; }
      var n := ParsePrefixLength(s[colon + 1..]);
      if n.None? { return None; }
      return Some(VarExpr(op, s[..colon], Prefix(n.value)));
    }
    return Some(VarExpr(op, s, NoModifier));
  }

  // Spelling an expression, and reading it back.

  function OpText(op: Op): bytes {
    match op
    case Simple => []
    case Plus => [0x2B]
    case Hash => [0x23]
    case Slash => [0x2F]
    case Dot => [0x2E]
    case Query => [0x3F]
  }

  /** The parts that spell an expression: names hold no colon and are not mistaken for an operator or a modifier. */
  predicate Legal(op: Op, name: bytes, digits: bytes, star: bool) {
    && name != [] && 0x3A !in name && (digits == [] || !star)
    && (op == Simple ==> name[0] !in {0x2B, 0x23, 0x2F, 0x2E, 0x3F})
    && (digits == [] && !star ==> name[|name| - 1] != 0x2A)
    && (digits != [] ==> Digits(digits) && 0 < Decimal(digits) <= 999999)
  }

  function NameText(name: bytes, digits: bytes, star: bool): bytes {
    name + (if digits != [] then [0x3A] + digits else if star then [0x2A] else [])
  }

  function ExprText(op: Op, name: bytes, digits: bytes, star: bool): bytes {
    OpText(op) + NameText(name, digits, star)
  }

  function ModifierOf(digits: bytes, star: bool): Modifier
    requires digits != [] ==> Digits(digits) && 0 < Decimal(digits)
  {
    if digits != [] then Prefix(Decimal(digits)) else if star then Explode else NoModifier
  }

  /** Every legal spelling is read as what it spells. */
  lemma ExprRoundTrip(op: Op, name: bytes, digits: bytes, star: bool)
    requires Legal(op, name, digits, star)
    ensures ParseVarExpr(ExprText(op, name, digits, star)) == Some(VarExpr(op, name, ModifierOf(digits, star)))
  {
    hide NameText, ParseName, Decimal, ModifierOf;
    var s := NameText(name, digits, star);
    NameRoundTrip(op, name, digits, star);
    var body := ExprText(op, name, digits, star);
    if op == Simple {
      assert body == s;
    } else {
      assert body[1..] == s;
    }
  }

  lemma NameRoundTrip(op: Op, name: bytes, digits: bytes, star: bool)
    requires Legal(op, name, digits, star)
    ensures ParseName(op, NameText(name, digits, star)) == Some(VarExpr(op, name, ModifierOf(digits, star)))
    ensures NameText(name, digits, star) != [] && NameText(name, digits, star)[0] == name[0]
  {
    hide Decimal, OpOf;
    var s := NameText(name, digits, star);
    var k := Find(s, COLON);
    assert forall i :: 0 <= i < |name| ==> s[i] != COLON;
    if digits != [] {
      assert s[|name|] == COLON && k == |name|;
      assert s[k + 1..] == digits && s[..k] == name;
      assert s[|s| - 1] == digits[|digits| - 1];
      assert IsDigit(s[|s| - 1]);
    } else if star {
      assert s[|s| - 1] == STAR && s[..|s| - 1] == name;
      assert k == |s|;
    } else {
      assert s == name;
      assert k == |s|;
    }
  }

  /** Nothing else is read: what is accepted has a legal spelling. */
  lemma ExprSpelled(body: bytes) returns (digits: bytes, star: bool)
    requires ParseVarExpr(body).Some?
    ensures var e := ParseVarExpr(body).value;
            && Legal(e.op, e.name, digits, star)
            && body == ExprText(e.op, e.name, digits, star)
            && e.mod == ModifierOf(digits, star)
  {
    hide ParseName, NameText, Legal, ModifierOf;
    var op := OpOf(body[0]);
    var s := if op == Simple then body else body[1..];
    digits, star := NameSpelled(op, s);
    assert op != Simple ==> body == [body[0]] + s;
    assert op == Simple ==> body == [] + s;
  }

  lemma NameSpelled(op: Op, s: bytes) returns (digits: bytes, star: bool)
    requires ParseName(op, s).Some? && (op == Simple ==> OpOf(s[0]) == Simple)
    ensures var e := ParseName(op, s).value;
            && e.op == op && Legal(op, e.name, digits, star)
            && s == NameText(e.name, digits, star)
            && e.mod == ModifierOf(digits, star)
  {
    hide Decimal;
    var k := Find(s, COLON);
    if s[|s| - 1] == STAR {
      digits, star := [], true;
      assert s == s[..|s| - 1] + [0x2A];
    } else if k < |s| {
      digits, star := s[k + 1..], false;
      assert s == s[..k] + ([0x3A] + s[k + 1..]);
    } else {
      digits, star := [], false;
    }
  }

  // Patterns.

  datatype Segment = Literal(c: byte) | Var(e: VarExpr) | Malformed

  /** A pattern as literal bytes and expressions, up to the first brace that opens nothing legal. */
  function Segments(p: bytes): seq<Segment>
    decreases |p|
  {
    if p == [] then []
    else if p[0] != LBRACE then [Literal(p[0])] + Segments(p[1..])
    else
      var k := Find(p, RBRACE);
      if k == |p| then [Malformed]
      else
        var e := ParseVarExpr(p[1..k]);
        if e.None? then [Malformed] else [Var(e.value)] + Segments(p[k + 1..])
  }

  /** A pattern the matcher takes on: every brace opens or closes an expression. */
  predicate ValidPattern(segs: seq<Segment>) {
    Malformed !in segs && Literal(RBRACE) !in segs
  }
  /** Braces delimit expressions and every other byte stands for itself. */
  lemma SegmentsSpelled(c: byte, op: Op, name: bytes, digits: bytes, star: bool, rest: bytes)
    requires Legal(op, name, digits, star) && 0x7D !in ExprText(op, name, digits, star)
    ensures c != 0x7B ==> Segments([c] + rest) == [Literal(c)] + Segments(rest)
    ensures Segments([0x7B] + ExprText(op, name, digits, star) + [0x7D] + rest)
         == [Var(VarExpr(op, name, ModifierOf(digits, star)))] + Segments(rest)
  {
    hide ExprText, ParseVarExpr, Find, Legal, ModifierOf;
    assert ([c] + rest)[1..] == rest;
    var body := ExprText(op, name, digits, star);
    var p := [0x7B] + body + [0x7D] + rest;
    ExprRoundTrip(op, name, digits, star);
    assert p[|body| + 1] == RBRACE && forall i :: 0 <= i < |body| ==> p[i + 1] == body[i];
    assert forall i :: 0 <= i < |body| + 1 ==> p[i] != RBRACE by {
      assert forall i :: 1 <= i < |body| + 1 ==> p[i] == body[i - 1];
    }
    assert Find(p, RBRACE) == |body| + 1;
    assert p[1..|body| + 1] == body && p[|body| + 2..] == rest;
  }
}
