/**
  The backtracking matcher. `FindMatch` is what the recursion computes; the theorems
  relate it to a specification that never searches: values, one per expression, that
  meet their limits and rebuild the URI from the template.
 */
module UriMatch {
  import opened Bytes
  import opened UriSyntax

  const MAX_CAPTURES: nat := 64

  // The specification.

  /** What an expression contributes before its value. */
  function Lead(e: VarExpr): bytes {
    match e.op
    case Hash => [HASH]
    case Slash => [SLASH]
    case Dot => [DOT]
    case Query => [QUESTION] + e.name + [EQUALS]
    case _ => []
  }

  /** The limits on a value; only the last expression of a template may hold a `#` in a query value. */
  predicate Fits(e: VarExpr, v: bytes, last: bool) {
    && (!Reserved(e.op) && e.mod != Explode ==> SLASH !in v)
    && (e.op == Query && e.mod != Explode ==> AMP !in v && (last || HASH !in v))
    && (e.mod.Prefix? ==> |v| <= e.mod.n)
  }

  function VarCount(segs: seq<Segment>): nat {
    if segs == [] then 0 else (if segs[0].Var? then 1 else 0) + VarCount(segs[1..])
  }

  /** The URI that the values make of the template. */
  function Rebuild(segs: seq<Segment>, vals: seq<bytes>): bytes {
    if segs == [] then []
    else
      match segs[0]
      case Literal(c) => [c] + Rebuild(segs[1..], vals)
      case Var(e) => if vals == [] then [] else Lead(e) + (vals[0] + Rebuild(segs[1..], vals[1..]))
      case Malformed => []
  }

  predicate AllFit(segs: seq<Segment>, vals: seq<bytes>) {
    if segs == [] then true
    else
      match segs[0]
      case Literal(c) => AllFit(segs[1..], vals)
      case Var(e) => vals != [] && Fits(e, vals[0], |segs| == 1) && AllFit(segs[1..], vals[1..])
      case Malformed => false
  }

  ghost predicate Solves(segs: seq<Segment>, uri: bytes, vals: seq<bytes>) {
    |vals| == VarCount(segs) && AllFit(segs, vals) && Rebuild(segs, vals) == uri
  }

  /** Shorter values first, from left to right. */
  predicate LexLe(a: seq<bytes>, b: seq<bytes>) {
    a == [] || b == [] || |a[0]| < |b[0]| || (|a[0]| == |b[0]| && LexLe(a[1..], b[1..]))
  }

  // The search.

  function FindMatch(segs: seq<Segment>, uri: bytes, room: nat): Option<seq<bytes>>
    decreases |segs|, 0
  {
    if segs == [] then if uri == [] then Some([]) else None
    else
      match segs[0]
      case Literal(c) => if uri != [] && uri[0] == c then FindMatch(segs[1..], uri[1..], room) else None
      case Malformed => None
      case Var(e) =>
        if !StartsWith(uri, Lead(e)) then None
        else
          var v := uri[|Lead(e)|..];
          if |segs| == 1 then if Fits(e, v, true) && room > 0 then Some([v]) else None
          else TryFrom(e, segs[1..], v, 0, room)
  }

  /** The loop over value lengths, from `len` on: it ends at the first length that does not fit. */
  function TryFrom(e: VarExpr, segs: seq<Segment>, v: bytes, len: nat, room: nat): Option<seq<bytes>>
    decreases |segs|, 1, |v| + 1 - len
  {
    if len > |v| || room == 0 || !Fits(e, v[..len], false) then None
    else
      var rest := FindMatch(segs, v[len..], room - 1);
      if rest.Some? then Some([v[..len]] + rest.value) else TryFrom(e, segs, v, len + 1, room)
  }

  // Soundness.

  lemma {:induction false} FindMatchSound(segs: seq<Segment>, uri: bytes, room: nat)
    requires FindMatch(segs, uri, room).Some?
    ensures var vs := FindMatch(segs, uri, room).value; Solves(segs, uri, vs) && |vs| <= room
    decreases |segs|, 0
  {
    if segs != [] {
      match segs[0]
      case Literal(c) =>
        FindMatchSound(segs[1..], uri[1..], room);
        assert uri == [c] + uri[1..];
      case Var(e) =>
        var v := uri[|Lead(e)|..];
        assert uri == Lead(e) + v;
        if |segs| == 1 {
          var vs := FindMatch(segs, uri, room).value;
          assert segs[1..] == [] && vs[1..] == [];
          assert v + [] == v;
        } else {
          TryFromSound(e, segs[1..], v, 0, room);
        }
    }
  }

  lemma {:induction false} TryFromSound(e: VarExpr, segs: seq<Segment>, v: bytes, len: nat, room: nat)
    requires TryFrom(e, segs, v, len, room).Some?
    ensures var vs := TryFrom(e, segs, v, len, room).value;
            && vs != [] && Fits(e, vs[0], false) && |vs| <= room
            && |vs| == 1 + VarCount(segs) && AllFit(segs, vs[1..])
            && v == vs[0] + Rebuild(segs, vs[1..])
    decreases |segs|, 1, |v| + 1 - len
  {
    hide Fits;
    var rest := FindMatch(segs, v[len..], room - 1);
    if rest.Some? {
      FindMatchSound(segs, v[len..], room - 1);
      assert ([v[..len]] + rest.value)[1..] == rest.value;
      assert v == v[..len] + v[len..];
    } else {
      TryFromSound(e, segs, v, len + 1, room);
    }
  }

  // Completeness: no early exit loses a solution, and the first one found is the least.

  lemma FitsPrefix(e: VarExpr, v: bytes, len: nat)
    requires len <= |v| && Fits(e, v, false)
    ensures Fits(e, v[..len], false)
  {
  }

  lemma {:induction false} FindMatchComplete(segs: seq<Segment>, uri: bytes, room: nat, vals: seq<bytes>)
    requires Solves(segs, uri, vals) && |vals| <= room
    ensures FindMatch(segs, uri, room).Some? && LexLe(FindMatch(segs, uri, room).value, vals)
    decreases |segs|, 0
  {
    hide Fits;
    if segs != [] {
      match segs[0]
      case Literal(c) =>
        assert uri[1..] == Rebuild(segs[1..], vals);
        FindMatchComplete(segs[1..], uri[1..], room, vals);
      case Var(e) =>
        var v := vals[0] + Rebuild(segs[1..], vals[1..]);
        assert uri == Lead(e) + v;
        assert uri[..|Lead(e)|] == Lead(e) && uri[|Lead(e)|..] == v;
        if |segs| == 1 {
          assert segs[1..] == [] && v == vals[0];
        } else {
          TryFromComplete(e, segs[1..], v, 0, room, vals);
        }
    }
  }

  lemma {:induction false} TryFromComplete(e: VarExpr, segs: seq<Segment>, v: bytes, len: nat, room: nat, vals: seq<bytes>)
    requires vals != [] && len <= |vals[0]| && Fits(e, vals[0], false) && |vals| <= room
    requires v == vals[0] + Rebuild(segs, vals[1..])
    requires Solves(segs, Rebuild(segs, vals[1..]), vals[1..])
    ensures TryFrom(e, segs, v, len, room).Some? && LexLe(TryFrom(e, segs, v, len, room).value, vals)
    decreases |segs|, 1, |v| + 1 - len
  {
    hide Fits;
    FitsPrefix(e, vals[0], len);
    assert v[..len] == vals[0][..len];
    var rest := FindMatch(segs, v[len..], room - 1);
    if len == |vals[0]| {
      assert v[len..] == Rebuild(segs, vals[1..]);
      FindMatchComplete(segs, v[len..], room - 1, vals[1..]);
      assert ([v[..len]] + rest.value)[1..] == rest.value;
    } else if rest.None? {
      TryFromComplete(e, segs, v, len + 1, room, vals);
    }
  }

  /**
    The matcher succeeds exactly when some values solve the template, with at most as
    many values as there is room for, and returns the lexicographically shortest ones.
   */
  lemma MatchIsSoundCompleteAndLeast(segs: seq<Segment>, uri: bytes, room: nat)
    ensures FindMatch(segs, uri, room).Some? <==> exists vals :: Solves(segs, uri, vals) && |vals| <= room
    ensures FindMatch(segs, uri, room).Some? ==>
              var best := FindMatch(segs, uri, room).value;
              && Solves(segs, uri, best)
              && forall vals :: Solves(segs, uri, vals) && |vals| <= room ==> LexLe(best, vals)
  {
    hide FindMatch;
    var r := FindMatch(segs, uri, room);
    if r.Some? {
      FindMatchSound(segs, uri, room);
    }
    forall vals | Solves(segs, uri, vals) && |vals| <= room
      ensures r.Some? && LexLe(r.value, vals)
    {
      FindMatchComplete(segs, uri, room, vals);
    }
  }

  /** The least solution is one: two solutions that are each as short as the other are the same. */
  lemma {:induction false} LeastIsUnique(segs: seq<Segment>, uri: bytes, a: seq<bytes>, b: seq<bytes>)
    requires Solves(segs, uri, a) && Solves(segs, uri, b) && LexLe(a, b) && LexLe(b, a)
    ensures a == b
    decreases |segs|
  {
    hide Fits;
    if segs != [] {
      match segs[0]
      case Literal(c) =>
        assert uri[1..] == Rebuild(segs[1..], a) && uri[1..] == Rebuild(segs[1..], b);
        LeastIsUnique(segs[1..], uri[1..], a, b);
      case Var(e) =>
        var v := uri[|Lead(e)|..];
        var ra, rb := Rebuild(segs[1..], a[1..]), Rebuild(segs[1..], b[1..]);
        assert v == a[0] + ra && v == b[0] + rb;
        var n := |a[0]|;
        assert v[..n] == a[0] && v[..n] == b[0];
        assert v[n..] == ra && v[n..] == rb;
        LeastIsUnique(segs[1..], ra, a[1..], b[1..]);
        assert a == [a[0]] + a[1..] && b == [b[0]] + b[1..];
    }
  }

  // The source's matcher: a stack of captures, pushed before and popped after a failed attempt.

  datatype Capture = Capture(e: VarExpr, val: bytes)

  class Captures {
    const items: array<Capture>
    var count: nat

    ghost predicate Ok()
      reads this
    {
      items.Length == MAX_CAPTURES && count <= MAX_CAPTURES
    }

    ghost function Taken(): seq<Capture>
      requires Ok()
      reads this, items
    {
      items[..count]
    }

    constructor ()
      ensures Ok() && fresh(items) && Taken() == []
    {
      items := new Capture[MAX_CAPTURES](_ => Capture(VarExpr(Simple, [], NoModifier), []));
      count := 0;
    }

    method Push(c: Capture)
      requires Ok() && count < MAX_CAPTURES
      modifies this, items
      ensures Ok() && count == old(count) + 1 && Taken() == old(Taken()) + [c]
    {
      items[count] := c;
      count := count + 1;
    }
  }

  /** The captures that go with a list of values. */
  function Bind(segs: seq<Segment>, vals: seq<bytes>): seq<Capture> {
    if segs == [] then []
    else if segs[0].Var? && vals != [] then [Capture(segs[0].e, vals[0])] + Bind(segs[1..], vals[1..])
    else Bind(segs[1..], vals)
  }

  /** What a call leaves behind: on failure the stack as it was, on success the new captures on top. */
  ghost predicate Outcome(ok: bool, want: Option<seq<bytes>>, segs: seq<Segment>, before: seq<Capture>, after: seq<Capture>) {
    && ok == want.Some?
    && after == if ok then before + Bind(segs, want.value) else before
  }

  lemma FitsStep(e: VarExpr, v: bytes, len: nat)
    requires len <= |v| && (len == 0 || Fits(e, v[..len - 1], false))
    ensures Fits(e, v[..len], false) <==>
            && !(!Reserved(e.op) && e.mod != Explode && len > 0 && v[len - 1] == SLASH)
            && !(e.op == Query && e.mod != Explode && len > 0 && (v[len - 1] == AMP || v[len - 1] == HASH))
            && (e.mod.Prefix? ==> len <= e.mod.n)
  {
    if len > 0 {
      assert v[..len] == v[..len - 1] + [v[len - 1]];
    }
  }

  /** The last expression of a template takes all that is left, or nothing. */
  method MatchLast(e: VarExpr, v: bytes, caps: Captures) returns (ok: bool)
    requires caps.Ok()
    modifies caps, caps.items
    ensures caps.Ok()
    ensures ok == (Fits(e, v, true) && old(caps.count) < MAX_CAPTURES)
    ensures caps.Taken() == old(caps.Taken()) + if ok then [Capture(e, v)] else []
  {
    if !Reserved(e.op) && e.mod != Explode && SLASH in v { return false; }
    if e.op == Query && e.mod != Explode && AMP in v { return false; }
    if e.mod.Prefix? && |v| > e.mod.n { return false; }
    if caps.count < MAX_CAPTURES {
      caps.Push(Capture(e, v));
      return true;
    }
    return false;
  }

  /** The loop over value lengths in `match_step`; `next` is the pattern after the expression. */
  method MatchLengths(pattern: bytes, uri: bytes, e: VarExpr, next: nat, u: nat, caps: Captures) returns (ok: bool)
    requires next < |pattern| && u <= |uri| && caps.Ok()
    modifies caps, caps.items
    ensures caps.Ok()
    ensures var segs := Segments(pattern[next..]);
            Outcome(ok, TryFrom(e, segs, uri[u..], 0, MAX_CAPTURES - old(caps.count)), [Var(e)] + segs,
                    old(caps.Taken()), caps.Taken())
    decreases |pattern| - next, 4
  {
    hide Segments, FindMatch, TryFrom, Fits, Bind;
    ghost var segs, v, room := Segments(pattern[next..]), uri[u..], MAX_CAPTURES - caps.count;
    ghost var before := caps.Taken();
    var maxLen := |uri| - u;
    if e.mod.Prefix? && e.mod.n < maxLen { maxLen := e.mod.n; }
    var len := 0;
    while len <= maxLen
      invariant 0 <= len <= maxLen + 1
      invariant len == 0 || (len <= |v| + 1 && Fits(e, v[..len - 1], false))
      invariant caps.Ok() && caps.count == old(caps.count) && caps.Taken() == before
      invariant TryFrom(e, segs, v, len, room) == TryFrom(e, segs, v, 0, room)
    {
      FitsStep(e, v, len);
      TryFromStep(e, segs, v, len, room);
      if !Reserved(e.op) && e.mod != Explode && len > 0 && uri[u + len - 1] == SLASH { return false; }
      if e.op == Query && e.mod != Explode && len > 0 && (uri[u + len - 1] == AMP || uri[u + len - 1] == HASH) {
        return false;
      }
      var saved := caps.count;
      if saved < MAX_CAPTURES {
        caps.Push(Capture(e, uri[u..u + len]));
        assert v[..len] == uri[u..u + len] && v[len..] == uri[u + len..];
        ok := MatchStep(pattern, uri, next, u + len, caps);
        if ok {
          ghost var rest := FindMatch(segs, v[len..], room - 1).value;
          BindVar(e, segs, v[..len], rest, before);
          return;
        }
        caps.count := saved;
        assert caps.Taken() == before;
      }
      len := len + 1;
    }
    if len <= |v| {
      FitsStep(e, v, len);
    }
    TryFromStep(e, segs, v, len, room);
    return false;
  }

  lemma TryFromStep(e: VarExpr, segs: seq<Segment>, v: bytes, len: nat, room: nat)
    ensures len > |v| || room == 0 || !Fits(e, v[..len], false) ==> TryFrom(e, segs, v, len, room) == None
    ensures room == 0 ==> TryFrom(e, segs, v, len + 1, room) == None
    ensures len <= |v| && room > 0 && Fits(e, v[..len], false) ==>
              var rest := FindMatch(segs, v[len..], room - 1);
              TryFrom(e, segs, v, len, room) ==
                if rest.Some? then Some([v[..len]] + rest.value) else TryFrom(e, segs, v, len + 1, room)
  {
  }

  lemma BindVar(e: VarExpr, segs: seq<Segment>, val: bytes, rest: seq<bytes>, before: seq<Capture>)
    ensures before + [Capture(e, val)] + Bind(segs, rest) == before + Bind([Var(e)] + segs, [val] + rest)
  {
    assert ([Var(e)] + segs)[1..] == segs && ([val] + rest)[1..] == rest;
  }

  /** `match_step`. */
  method MatchStep(pattern: bytes, uri: bytes, p0: nat, u0: nat, caps: Captures) returns (ok: bool)
    requires p0 <= |pattern| && u0 <= |uri| && caps.Ok()
    modifies caps, caps.items
    ensures caps.Ok()
    ensures var segs := Segments(pattern[p0..]);
            Outcome(ok, FindMatch(segs, uri[u0..], MAX_CAPTURES - old(caps.count)), segs,
                    old(caps.Taken()), caps.Taken())
    decreases |pattern| - p0, 3
  {
    hide Segments, FindMatch, Bind;
    ghost var room := MAX_CAPTURES - caps.count;
    var p, u := p0, u0;
    while p < |pattern| && pattern[p] != LBRACE
      invariant p0 <= p <= |pattern| && u0 <= u <= |uri|
      invariant caps.Ok() && caps.count == old(caps.count) && caps.Taken() == old(caps.Taken())
      invariant SameTask(pattern, uri, p0, u0, p, u, room)
    {
      LiteralTask(pattern, uri, p, u, room);
      if u == |uri| || pattern[p] != uri[u] { return false; }
      p, u := p + 1, u + 1;
    }
    ok := MatchExpr(pattern, uri, p, u, caps);
  }

  /** `match_step` once its literal prefix is consumed. */
  method MatchExpr(pattern: bytes, uri: bytes, p: nat, u: nat, caps: Captures) returns (ok: bool)
    requires p <= |pattern| && u <= |uri| && caps.Ok() && (p == |pattern| || pattern[p] == LBRACE)
    modifies caps, caps.items
    ensures caps.Ok()
    ensures var segs := Segments(pattern[p..]);
            Outcome(ok, FindMatch(segs, uri[u..], MAX_CAPTURES - old(caps.count)), segs,
                    old(caps.Taken()), caps.Taken())
    decreases |pattern| - p, 2
  {
    hide Segments, FindMatch, Bind, ParseVarExpr, Find;
    if p == |pattern| {
      EmptyTask(pattern, p, uri[u..], MAX_CAPTURES - caps.count);
      return u == |uri|;
    }
    var end := p + Find(pattern[p..], RBRACE);
    BraceSegments(pattern, p, end);
    MalformedTask(uri[u..], MAX_CAPTURES - caps.count);
    if end == |pattern| { return false; }
    var expr := ScanVarExpr(pattern[p + 1..end]);
    if expr.None? { return false; }
    ok := MatchVar(pattern, uri, expr.value, end + 1, u, caps);
  }

  /** `match_step` from a parsed expression on. */
  method MatchVar(pattern: bytes, uri: bytes, e: VarExpr, next: nat, u: nat, caps: Captures) returns (ok: bool)
    requires next <= |pattern| && u <= |uri| && caps.Ok()
    modifies caps, caps.items
    ensures caps.Ok()
    ensures var segs := [Var(e)] + Segments(pattern[next..]);
            Outcome(ok, FindMatch(segs, uri[u..], MAX_CAPTURES - old(caps.count)), segs,
                    old(caps.Taken()), caps.Taken())
    decreases |pattern| - next, 5
  {
    hide TryFrom, Fits, Segments, FindMatch, Bind, Lead, StartsWith;
    ghost var segs := Segments(pattern[next..]);
    VarTask(e, segs, uri[u..], MAX_CAPTURES - caps.count);
    var skip := SkipLead(e, uri, u);
    if skip.None? { return false; }
    var v := u + skip.value;
    if next == |pattern| {
      EmptyTask(pattern, next, [], 0);
      ok := MatchLast(e, uri[v..], caps);
      BindVar(e, segs, uri[v..], [], old(caps.Taken()));
      assert [uri[v..]] + [] == [uri[v..]];
    } else {
      NonEmptySegments(pattern[next..]);
      ok := MatchLengths(pattern, uri, e, next, v, caps);
    }
  }

  lemma EmptyTask(pattern: bytes, p: nat, uri: bytes, room: nat)
    requires p == |pattern|
    ensures Segments(pattern[p..]) == [] && FindMatch([], uri, room) == if uri == [] then Some([]) else None
    ensures Bind([], []) == []
  {
    assert pattern[p..] == [];
  }

  lemma MalformedTask(uri: bytes, room: nat)
    ensures FindMatch([Malformed], uri, room) == None
  {
  }

  lemma VarTask(e: VarExpr, segs: seq<Segment>, uri: bytes, room: nat)
    ensures FindMatch([Var(e)] + segs, uri, room) ==
            if !StartsWith(uri, Lead(e)) then None
            else
              var v := uri[|Lead(e)|..];
              if segs == [] then if Fits(e, v, true) && room > 0 then Some([v]) else None
              else TryFrom(e, segs, v, 0, room)
  {
    assert ([Var(e)] + segs)[1..] == segs;
  }

  lemma BraceSegments(pattern: bytes, p: nat, end: nat)
    requires p < |pattern| && pattern[p] == LBRACE && end == p + Find(pattern[p..], RBRACE)
    ensures p <= end <= |pattern| && (end < |pattern| ==> p < end)
    ensures Segments(pattern[p..]) ==
            if end == |pattern| || ParseVarExpr(pattern[p + 1..end]).None? then [Malformed]
            else [Var(ParseVarExpr(pattern[p + 1..end]).value)] + Segments(pattern[end + 1..])
  {
    hide ParseVarExpr;
    if end < |pattern| {
      assert end > p;
      assert pattern[p..][1..end - p] == pattern[p + 1..end];
      assert pattern[p..][end - p + 1..] == pattern[end + 1..];
    }
  }

  /** The operator's prefix, and for a query the name and the equals sign. */
  method SkipLead(e: VarExpr, uri: bytes, u: nat) returns (r: Option<nat>)
    requires u <= |uri|
    ensures r == if StartsWith(uri[u..], Lead(e)) then Some(|Lead(e)|) else None
    ensures r.Some? ==> u + r.value <= |uri| && uri[u + r.value..] == uri[u..][r.value..]
  {
    if e.op == Simple || e.op == Plus { return Some(0); }
    var c := if e.op == Hash then HASH else if e.op == Slash then SLASH else if e.op == Dot then DOT else QUESTION;
    if u == |uri| || uri[u] != c { return None; }
    if e.op != Query { return Some(1); }
    var n := |e.name|;
    QueryLead(uri[u..], e.name);
    assert |uri| - u >= n + 2 ==> uri[u..][1..1 + n] == uri[u + 1..u + 1 + n];
    if |uri| - (u + 1) < n + 1 || uri[u + 1..u + 1 + n] != e.name || uri[u + 1 + n] != EQUALS { return None; }
    return Some(n + 2);
  }

  lemma QueryLead(s: bytes, name: bytes)
    ensures var n := |name|;
            StartsWith(s, [QUESTION] + name + [EQUALS]) <==>
            |s| >= n + 2 && s[0] == QUESTION && s[1..1 + n] == name && s[1 + n] == EQUALS
  {
    var n, lead := |name|, [QUESTION] + name + [EQUALS];
    assert lead[1..1 + n] == name;
    if |s| >= n + 2 {
      assert s[..n + 2] == [s[0]] + s[1..1 + n] + [s[1 + n]];
      assert s[..n + 2][1..1 + n] == s[1..1 + n];
    }
  }

  /** The rest of the pattern on the rest of the URI has the same matches and captures. */
  ghost predicate SameTask(pattern: bytes, uri: bytes, p0: nat, u0: nat, p: nat, u: nat, room: nat)
    requires p0 <= |pattern| && u0 <= |uri| && p <= |pattern| && u <= |uri|
  {
    var a, b := Segments(pattern[p0..]), Segments(pattern[p..]);
    && FindMatch(a, uri[u0..], room) == FindMatch(b, uri[u..], room)
    && forall vals :: Bind(a, vals) == Bind(b, vals)
  }

  lemma LiteralTask(pattern: bytes, uri: bytes, p: nat, u: nat, room: nat)
    requires p < |pattern| && u <= |uri| && pattern[p] != LBRACE
    ensures var segs := Segments(pattern[p..]);
            if u < |uri| && uri[u] == pattern[p] then SameTask(pattern, uri, p, u, p + 1, u + 1, room)
            else FindMatch(segs, uri[u..], room) == None
  {
    assert pattern[p..][1..] == pattern[p + 1..];
    var segs := Segments(pattern[p + 1..]);
    assert ([Literal(pattern[p])] + segs)[1..] == segs;
    assert u < |uri| ==> uri[u..][1..] == uri[u + 1..];
  }

  lemma NonEmptySegments(p: bytes)
    requires p != []
    ensures Segments(p) != []
  {
  }
}
