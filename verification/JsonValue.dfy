/**
  The JSON document model of the built-in backend: values, the ordered object
  store, structural equality and deep copy.
 */
module JsonValue {
  import opened Bytes
  import Utf8

  /** A finite floating-point number: a sign bit and a magnitude of `mantissa * 2^exponent`. */
  datatype Binary64 = Binary64(negative: bool, mantissa: nat, exponent: int) {
    /** One of the finite binary64 numbers, in its normal form; zero and the subnormals have the least exponent. */
    predicate Canonical() {
      && mantissa < 0x20_0000_0000_0000 && -1074 <= exponent <= 971
      && (mantissa >= 0x10_0000_0000_0000 || exponent == -1074)
    }

    /** The number it stands for; the two zeros stand for the same one. */
    function Real(): real {
      var magnitude := mantissa as real * TwoTo(exponent);
      if negative then -magnitude else magnitude
    }
  }

  function TwoTo(e: int): real
    decreases if e < 0 then -e else e
  {
    if e == 0 then 1.0 else if e > 0 then 2.0 * TwoTo(e - 1) else TwoTo(e + 1) / 2.0
  }

  const ZERO: Binary64 := Binary64(false, 0, -1074)

  type Double = d: Binary64 | d.Canonical() witness ZERO

  lemma {:induction false} TwoToStep(e: int)
    ensures TwoTo(e) > 0.0 && TwoTo(e + 1) == 2.0 * TwoTo(e) && TwoTo(0) == 1.0
    decreases if e < 0 then -e else e
  {
    if e > 0 {
      TwoToStep(e - 1);
    } else if e < 0 {
      TwoToStep(e + 1);
    }
  }

  lemma {:induction false} TwoToGrows(e: int, f: int)
    requires e < f
    ensures TwoTo(f) >= 2.0 * TwoTo(e)
    decreases f - e
  {
    hide TwoTo;
    TwoToStep(e);
    if e + 1 < f {
      TwoToGrows(e + 1, f);
    }
  }

  lemma Scaled(m: real, n: real, x: real, y: real)
    requires 0.0 <= m < 2.0 * n && 0.0 < x && 2.0 * x <= y
    ensures m * x < n * y
  {
    assert m * x < (2.0 * n) * x;
    assert n * (2.0 * x) <= n * y;
  }

  lemma LargerExponent(d: Double, e: Double)
    requires d.exponent < e.exponent
    ensures d.mantissa as real * TwoTo(d.exponent) < e.mantissa as real * TwoTo(e.exponent)
  {
    hide TwoTo;
    TwoToStep(d.exponent);
    TwoToGrows(d.exponent, e.exponent);
    Scaled(d.mantissa as real, e.mantissa as real, TwoTo(d.exponent), TwoTo(e.exponent));
  }

  lemma SameMantissa(m: real, n: real, x: real)
    requires x > 0.0
    ensures m * x == n * x ==> m == n
    ensures m > 0.0 ==> m * x > 0.0
  {
    if m < n {
      assert m * x < n * x;
    } else if n < m {
      assert n * x < m * x;
    }
  }

  /** The sign decides on which side of zero a double lies; only the two zeros stand for the same number. */
  lemma DoublesDiffer(d: Double, e: Double)
    ensures d.mantissa > 0 ==> (d.negative <==> d.Real() < 0.0) && (!d.negative <==> d.Real() > 0.0)
    ensures d.Real() == e.Real() <==> d == e || (d.mantissa == 0 && e.mantissa == 0)
  {
    hide TwoTo;
    TwoToStep(d.exponent);
    TwoToStep(e.exponent);
    SameMantissa(d.mantissa as real, e.mantissa as real, TwoTo(d.exponent));
    SameMantissa(e.mantissa as real, d.mantissa as real, TwoTo(e.exponent));
    if d.exponent < e.exponent {
      LargerExponent(d, e);
    } else if e.exponent < d.exponent {
      LargerExponent(e, d);
    }
  }

  /** A DOM node. An object keeps its keys and values in two parallel arrays. */
  datatype Value =
    | Null
    | Bool(b: bool)
    | Number(d: Double)
    | String(s: bytes)
    | Array(items: seq<Value>)
    | Object(keys: seq<bytes>, vals: seq<Value>)

  /** A string that the constructors accept: NUL-free, valid UTF-8. */
  predicate Text(s: bytes) {
    NulFree(s) && Utf8.Valid(s)
  }

  ghost predicate StoreOk(keys: seq<bytes>, vals: seq<Value>) {
    && |keys| == |vals|
    && Distinct(keys)
    && (forall i :: 0 <= i < |keys| ==> Text(keys[i]))
  }

  /** What every value built through the backend's constructors satisfies. */
  ghost predicate WellFormed(v: Value) {
    match v
    case String(s) => Text(s)
    case Array(items) => forall i :: 0 <= i < |items| ==> WellFormed(items[i])
    case Object(keys, vals) =>
      && StoreOk(keys, vals)
      && (forall i :: 0 <= i < |vals| ==> WellFormed(vals[i]))
    case _ => true
  }

  // The object store.

  /** The first position of a key, or the number of keys when it is absent. */
  function IndexOf(keys: seq<bytes>, key: bytes): (i: nat)
    ensures i <= |keys|
    ensures i < |keys| ==> keys[i] == key
    ensures forall j :: 0 <= j < i ==> keys[j] != key
  {
    if keys == [] || keys[0] == key then 0 else 1 + IndexOf(keys[1..], key)
  }

  /** Replace in place when the key is present, append otherwise. */
  function SetKey(keys: seq<bytes>, vals: seq<Value>, key: bytes, val: Value): (r: (seq<bytes>, seq<Value>))
    requires |keys| == |vals|
    ensures |r.0| == |r.1|
  {
    var i := IndexOf(keys, key);
    if i < |keys| then (keys, vals[i := val]) else (keys + [key], vals + [val])
  }

  class ObjectStore {
    var keys: seq<bytes>
    var vals: seq<Value>

    constructor ()
      ensures keys == [] && vals == []
    {
      keys, vals := [], [];
    }

    /** `builtin_object_set`; the key is read up to its terminator. */
    method Set(key: bytes, val: Value) returns (ok: bool)
      requires |keys| == |vals|
      modifies this
      ensures ok == Utf8.Valid(CStr(key))
      ensures ok ==> (keys, vals) == SetKey(old(keys), old(vals), CStr(key), val)
      ensures !ok ==> keys == old(keys) && vals == old(vals)
      ensures |keys| == |vals|
    {
      var k := CStr(key);
      ok := Utf8.CheckValid(k);
      if !ok { return; }
      var i := 0;
      while i < |keys|
        invariant 0 <= i <= |keys|
        invariant keys == old(keys) && vals == old(vals)
        invariant forall j :: 0 <= j < i ==> keys[j] != k
      {
        if keys[i] == k {
          vals := vals[i := val];
          return;
        }
        i := i + 1;
      }
      keys, vals := keys + [k], vals + [val];
    }
  }

  /** `builtin_object_get` with its linear search. */
  method ObjectGet(keys: seq<bytes>, vals: seq<Value>, key: bytes) returns (r: Option<Value>)
    requires StoreOk(keys, vals)
    ensures r.Some? <==> key in keys
    ensures r.Some? ==> r.value == vals[IndexOf(keys, key)]
  {
    var valid := Utf8.CheckValid(key);
    if !valid { return None; }
    for i := 0 to |keys|
      invariant forall j :: 0 <= j < i ==> keys[j] != key
    {
      if keys[i] == key { return Some(vals[i]); }
    }
    return None;
  }

  lemma SetKeyKeepsStore(keys: seq<bytes>, vals: seq<Value>, key: bytes, val: Value)
    requires StoreOk(keys, vals) && Text(key)
    ensures var (ks, vs) := SetKey(keys, vals, key, val); StoreOk(ks, vs)
  {
  }

  // A run of insertions, as the parser makes them for an object.

  datatype Pair = Pair(key: bytes, val: Value)

  function SetAll(ps: seq<Pair>): (r: (seq<bytes>, seq<Value>))
    ensures |r.0| == |r.1|
  {
    if ps == [] then ([], [])
    else
      var last := ps[|ps| - 1];
      var (ks, vs) := SetAll(ps[..|ps| - 1]);
      SetKey(ks, vs, last.key, last.val)
  }

  /** `i` is the first pair that carries its key. */
  ghost predicate FirstOf(ps: seq<Pair>, i: nat) {
    i < |ps| && forall j :: 0 <= j < i ==> ps[j].key != ps[i].key
  }

  /** `i` is the last pair that carries its key. */
  ghost predicate LastOf(ps: seq<Pair>, i: nat) {
    i < |ps| && forall j :: i < j < |ps| ==> ps[j].key != ps[i].key
  }

  /**
    First position kept: slot `n` of the store belongs to a pair `first[n]` that
    is the first with its key, slots follow the order of those pairs, and every
    key has a slot. Last duplicate wins: slot `n` holds the value of the last pair
    with that key.
   */
  ghost predicate FirstPositionLastValue(ps: seq<Pair>, keys: seq<bytes>, vals: seq<Value>,
                                         first: seq<nat>, last: seq<nat>) {
    && |keys| == |vals| == |first| == |last|
    && (forall n :: 0 <= n < |keys| ==>
          && FirstOf(ps, first[n]) && ps[first[n]].key == keys[n]
          && LastOf(ps, last[n]) && ps[last[n]] == Pair(keys[n], vals[n]))
    && (forall m, n :: 0 <= m < n < |keys| ==> first[m] < first[n])
    && (forall i :: 0 <= i < |ps| ==> ps[i].key in keys)
  }

  lemma {:induction false} SetAllMeaning(ps: seq<Pair>) returns (first: seq<nat>, last: seq<nat>)
    ensures FirstPositionLastValue(ps, SetAll(ps).0, SetAll(ps).1, first, last)
    decreases |ps|
  {
    if ps == [] {
      first, last := [], [];
    } else {
      var n := |ps| - 1;
      var (ks, vs) := SetAll(ps[..n]);
      first, last := SetAllMeaning(ps[..n]);
      var i := IndexOf(ks, ps[n].key);
      assert ps[..n] + [ps[n]] == ps;
      if i < |ks| {
        ReplaceMeaning(ps[..n], ps[n], ks, vs, first, last, i);
        last := last[i := n];
      } else {
        AppendMeaning(ps[..n], ps[n], ks, vs, first, last);
        first, last := first + [n], last + [n];
      }
    }
  }

  lemma ReplaceMeaning(ps: seq<Pair>, p: Pair, ks: seq<bytes>, vs: seq<Value>,
                       first: seq<nat>, last: seq<nat>, i: nat)
    requires FirstPositionLastValue(ps, ks, vs, first, last)
    requires i < |ks| && ks[i] == p.key
    ensures FirstPositionLastValue(ps + [p], ks, vs[i := p.val], first, last[i := |ps|])
  {
    FirstDistinct(ps, ks, vs, first, last);
    var qs := ps + [p];
    forall n | 0 <= n < |ks|
      ensures FirstOf(qs, first[n]) && qs[first[n]].key == ks[n]
    {
      assert FirstOf(ps, first[n]);
    }
    forall n | 0 <= n < |ks| && n != i
      ensures LastOf(qs, last[n]) && qs[last[n]] == Pair(ks[n], vs[n])
    {
      assert LastOf(ps, last[n]);
    }
    assert LastOf(qs, |ps|);
  }

  lemma AppendMeaning(ps: seq<Pair>, p: Pair, ks: seq<bytes>, vs: seq<Value>,
                      first: seq<nat>, last: seq<nat>)
    requires FirstPositionLastValue(ps, ks, vs, first, last)
    requires p.key !in ks
    ensures FirstPositionLastValue(ps + [p], ks + [p.key], vs + [p.val], first + [|ps|], last + [|ps|])
  {
    var qs := ps + [p];
    forall n | 0 <= n < |ks|
      ensures FirstOf(qs, first[n]) && qs[first[n]].key == ks[n]
      ensures LastOf(qs, last[n]) && qs[last[n]] == Pair(ks[n], vs[n])
    {
      assert FirstOf(ps, first[n]) && LastOf(ps, last[n]);
    }
    assert FirstOf(qs, |ps|) && LastOf(qs, |ps|);
    forall i | 0 <= i < |qs| ensures qs[i].key in ks + [p.key] {
      if i < |ps| {
        assert ps[i].key in ks;
      } else {
        assert (ks + [p.key])[|ks|] == p.key;
      }
    }
  }

  lemma FirstDistinct(ps: seq<Pair>, keys: seq<bytes>, vals: seq<Value>, first: seq<nat>, last: seq<nat>)
    requires FirstPositionLastValue(ps, keys, vals, first, last)
    ensures Distinct(keys)
  {
    forall i, j | 0 <= i < j < |keys| ensures keys[i] != keys[j] {
      assert first[i] < first[j];
      assert FirstOf(ps, first[j]);
    }
  }

  /** A store filled with texts is a legal object whatever the order and the repetitions. */
  lemma {:induction false} SetAllKeepsStore(ps: seq<Pair>)
    requires forall i :: 0 <= i < |ps| ==> Text(ps[i].key) && WellFormed(ps[i].val)
    ensures WellFormed(Object(SetAll(ps).0, SetAll(ps).1))
    decreases |ps|
  {
    if ps != [] {
      var n := |ps| - 1;
      SetAllKeepsStore(ps[..n]);
      var (ks, vs) := SetAll(ps[..n]);
      SetKeyKeepsStore(ks, vs, ps[n].key, ps[n].val);
    }
  }

  function Pairs(keys: seq<bytes>, vals: seq<Value>): (ps: seq<Pair>)
    requires |keys| == |vals|
  {
    seq(|keys|, i requires 0 <= i < |keys| => Pair(keys[i], vals[i]))
  }

  /** Inserting the members of an object one by one rebuilds the object. */
  lemma {:induction false} SetAllOfDistinct(keys: seq<bytes>, vals: seq<Value>)
    requires |keys| == |vals| && Distinct(keys)
    ensures SetAll(Pairs(keys, vals)) == (keys, vals)
    decreases |keys|
  {
    if keys != [] {
      var n := |keys| - 1;
      SetAllOfDistinct(keys[..n], vals[..n]);
      assert Pairs(keys, vals)[..n] == Pairs(keys[..n], vals[..n]);
      assert keys[..n] + [keys[n]] == keys;
      assert vals[..n] + [vals[n]] == vals;
      assert IndexOf(keys[..n], keys[n]) == n;
    }
  }

  // Structural equality.

  /** What a document means: members of an object are unordered, numbers are numbers. */
  datatype Meaning =
    | MNull
    | MBool(b: bool)
    | MNumber(r: real)
    | MString(s: bytes)
    | MArray(items: seq<Meaning>)
    | MObject(members: map<bytes, Meaning>)

  ghost function Meant(v: Value): Meaning
    requires WellFormed(v)
  {
    match v
    case Null => MNull
    case Bool(b) => MBool(b)
    case Number(d) => MNumber(d.Real())
    case String(s) => MString(s)
    case Array(items) => MArray(seq(|items|, i requires 0 <= i < |items| => Meant(items[i])))
    case Object(keys, vals) => MObject(map k | k in keys :: Meant(vals[IndexOf(keys, k)]))
  }

  /** `value_equal` decides equality of meaning, and so is an equivalence. */
  method ValueEqual(a: Value, b: Value) returns (eq: bool)
    requires WellFormed(a) && WellFormed(b)
    ensures eq <==> Meant(a) == Meant(b)
    decreases a, 1
  {
    match (a, b)
    case (Null, Null) => return true;
    case (Bool(x), Bool(y)) => return x == y;
    case (Number(x), Number(y)) => return x.Real() == y.Real();
    case (String(x), String(y)) => return x == y;
    case (Array(xs), Array(ys)) => eq := ArraysEqual(a, b);
    case (Object(ks, vs), Object(ls, ws)) => eq := ObjectsEqual(a, b);
    case _ => return false;
  }

  method ArraysEqual(a: Value, b: Value) returns (eq: bool)
    requires WellFormed(a) && WellFormed(b) && a.Array? && b.Array?
    ensures eq <==> Meant(a) == Meant(b)
    decreases a, 0
  {
    ArrayMeanings(a, b);
    if |a.items| != |b.items| { return false; }
    for i := 0 to |a.items|
      invariant forall j :: 0 <= j < i ==> Meant(a.items[j]) == Meant(b.items[j])
    {
      var e := ValueEqual(a.items[i], b.items[i]);
      if !e { return false; }
    }
    return true;
  }

  /** The object case walks the keys of `a` only. */
  method ObjectsEqual(a: Value, b: Value) returns (eq: bool)
    requires WellFormed(a) && WellFormed(b) && a.Object? && b.Object?
    ensures eq <==> Meant(a) == Meant(b)
    decreases a, 0
  {
    hide Meant, IndexOf;
    ObjectMeanings(a, b);
    if |a.keys| != |b.keys| { return false; }
    for i := 0 to |a.keys|
      invariant forall j :: 0 <= j < i ==> SameMember(a, b, a.keys[j])
    {
      var k := a.keys[i];
      var other := ObjectGet(b.keys, b.vals, k);
      if other.None? {
        assert !SameMember(a, b, k);
        return false;
      }
      var mine := ObjectGet(a.keys, a.vals, k);
      var e := ValueEqual(mine.value, other.value);
      if !e {
        assert !SameMember(a, b, k);
        return false;
      }
    }
    return true;
  }

  lemma ArrayMeanings(a: Value, b: Value)
    requires WellFormed(a) && WellFormed(b) && a.Array? && b.Array?
    ensures Meant(a) == Meant(b) <==>
            |a.items| == |b.items| && forall i :: 0 <= i < |a.items| ==> Meant(a.items[i]) == Meant(b.items[i])
  {
    assert |Meant(a).items| == |a.items| && |Meant(b).items| == |b.items|;
    assert forall i :: 0 <= i < |a.items| ==> Meant(a).items[i] == Meant(a.items[i]);
    assert forall i :: 0 <= i < |b.items| ==> Meant(b).items[i] == Meant(b.items[i]);
  }

  ghost predicate SameMember(a: Value, b: Value, k: bytes)
    requires WellFormed(a) && WellFormed(b) && a.Object? && b.Object? && k in a.keys
  {
    k in b.keys && Meant(a.vals[IndexOf(a.keys, k)]) == Meant(b.vals[IndexOf(b.keys, k)])
  }

  lemma ObjectKeys(a: Value)
    requires WellFormed(a) && a.Object?
    ensures Meant(a).MObject? && Meant(a).members.Keys == KeySet(a.keys)
    ensures forall k :: k in a.keys ==> Meant(a).members[k] == Meant(a.vals[IndexOf(a.keys, k)])
  {
  }

  /** Counting the keys and walking one side decides both directions. */
  lemma ObjectMeanings(a: Value, b: Value)
    requires WellFormed(a) && WellFormed(b) && a.Object? && b.Object?
    ensures Meant(a) == Meant(b) <==>
            |a.keys| == |b.keys| && forall i :: 0 <= i < |a.keys| ==> SameMember(a, b, a.keys[i])
  {
    if Meant(a) == Meant(b) {
      SameMeaningSameMembers(a, b);
    }
    if |a.keys| == |b.keys| && forall i :: 0 <= i < |a.keys| ==> SameMember(a, b, a.keys[i]) {
      SameMembersSameMeaning(a, b);
    }
  }

  lemma SameMeaningSameMembers(a: Value, b: Value)
    requires WellFormed(a) && WellFormed(b) && a.Object? && b.Object? && Meant(a) == Meant(b)
    ensures |a.keys| == |b.keys| && forall i :: 0 <= i < |a.keys| ==> SameMember(a, b, a.keys[i])
  {
    hide Meant, IndexOf;
    ObjectKeys(a);
    ObjectKeys(b);
    DistinctCardinality(a.keys);
    DistinctCardinality(b.keys);
    forall i | 0 <= i < |a.keys| ensures SameMember(a, b, a.keys[i]) {
      assert a.keys[i] in KeySet(a.keys) && a.keys[i] in KeySet(b.keys);
    }
  }

  lemma SameMembersSameMeaning(a: Value, b: Value)
    requires WellFormed(a) && WellFormed(b) && a.Object? && b.Object? && |a.keys| == |b.keys|
    requires forall i :: 0 <= i < |a.keys| ==> SameMember(a, b, a.keys[i])
    ensures Meant(a) == Meant(b)
  {
    hide Meant, IndexOf;
    ObjectKeys(a);
    ObjectKeys(b);
    SameKeys(a.keys, b.keys);
    var ma, mb := Meant(a).members, Meant(b).members;
    forall k | k in ma ensures k in mb && ma[k] == mb[k] {
      assert k in a.keys;
      assert a.keys[IndexOf(a.keys, k)] == k;
    }
    assert ma.Keys == mb.Keys;
    assert ma == mb;
  }

  ghost function KeySet(keys: seq<bytes>): set<bytes> {
    set k | k in keys
  }

  lemma {:induction false} DistinctCardinality(keys: seq<bytes>)
    requires Distinct(keys)
    ensures |KeySet(keys)| == |keys|
  {
    if keys != [] {
      DistinctCardinality(keys[1..]);
      assert KeySet(keys) == {keys[0]} + KeySet(keys[1..]);
    }
  }

  lemma SubsetSameSize(a: set<bytes>, b: set<bytes>)
    requires a <= b && |a| == |b|
    ensures a == b
  {
    assert |b - a| == |b| - |a|;
  }

  /** Pigeonhole: as many distinct keys, all of them in the other object, is the same key set. */
  lemma SameKeys(ks: seq<bytes>, ls: seq<bytes>)
    requires Distinct(ks) && Distinct(ls) && |ks| == |ls|
    requires forall i :: 0 <= i < |ks| ==> ks[i] in ls
    ensures forall k :: k in ks <==> k in ls
  {
    DistinctCardinality(ks);
    DistinctCardinality(ls);
    SubsetSameSize(KeySet(ks), KeySet(ls));
    assert forall k :: k in ks <==> k in KeySet(ks);
    assert forall k :: k in ls <==> k in KeySet(ls);
  }

  // Deep copy.

  /** `mcp_json_clone`: a fresh tree built by appending and by keyed insertion is the same document. */
  method Clone(v: Value) returns (r: Option<Value>)
    requires WellFormed(v)
    ensures r == Some(v)
    decreases v
  {
    match v
    case Null => return Some(Null);
    case Bool(b) => return Some(Bool(b));
    case Number(d) => return Some(Number(d));
    case String(s) =>
      var valid := Utf8.CheckValid(s);
      if NUL in s || !valid { return None; }
      return Some(String(s));
    case Array(items) =>
      var out: seq<Value> := [];
      for i := 0 to |items|
        invariant out == items[..i]
      {
        var item := Clone(items[i]);
        if item.None? { return None; }
        out := out + [item.value];
      }
      assert items[..|items|] == items;
      return Some(Array(out));
    case Object(keys, vals) =>
      var out := new ObjectStore();
      for i := 0 to |keys|
        invariant out.keys == keys[..i] && out.vals == vals[..i]
      {
        var mine := ObjectGet(keys, vals, keys[i]);
        var item := Clone(mine.value);
        if item.None? { return None; }
        var ok := out.Set(keys[i], item.value);
        if !ok { return None; }
        assert IndexOf(keys[..i], keys[i]) == i;
      }
      assert keys[..|keys|] == keys && vals[..|vals|] == vals;
      return Some(Object(out.keys, out.vals));
  }
}
