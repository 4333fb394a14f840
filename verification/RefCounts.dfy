/**
  Reference-counted objects: the last one to let go frees. Objects are named by
  numbers that are never given out twice; touching one that was freed, or never
  existed, is recorded as a fault.
 */
module RefCounts {
  import opened Bytes

  datatype Cell<V> = Cell(refs: nat, val: V)

  datatype Pool<V> = Pool(cells: map<nat, Cell<V>>, next: nat, freed: multiset<nat>, faulted: bool)

  function One(b: bool): nat {
    if b then 1 else 0
  }

  function Refs<V>(p: Pool<V>, x: nat): nat {
    if x in p.cells then p.cells[x].refs else 0
  }

  function Val<V>(p: Pool<V>, x: nat): Option<V> {
    if x in p.cells then Some(p.cells[x].val) else None
  }

  /** A new object with one reference. */
  function Alloc<V>(p: Pool<V>, v: V): Pool<V> {
    p.(cells := p.cells[p.next := Cell(1, v)], next := p.next + 1)
  }

  /** `atomic_fetch_add` on the count. */
  function Ref<V>(p: Pool<V>, x: nat): Pool<V> {
    if x in p.cells then p.(cells := p.cells[x := p.cells[x].(refs := p.cells[x].refs + 1)]) else p.(faulted := true)
  }

  /** `atomic_fetch_sub` on the count, freeing when it was one. */
  function Unref<V>(p: Pool<V>, x: nat): Pool<V> {
    if x !in p.cells || p.cells[x].refs == 0 then p.(faulted := true)
    else if p.cells[x].refs == 1 then p.(cells := p.cells - {x}, freed := p.freed + multiset{x})
    else p.(cells := p.cells[x := p.cells[x].(refs := p.cells[x].refs - 1)])
  }

  /** Writing the fields of an object. */
  function Put<V>(p: Pool<V>, x: nat, v: V): Pool<V> {
    if x in p.cells then p.(cells := p.cells[x := p.cells[x].(val := v)]) else p.(faulted := true)
  }

  /** No fault so far; what exists has references; what does not exist any more was freed exactly once. */
  ghost predicate Sound<V>(p: Pool<V>) {
    && !p.faulted
    && (forall x :: x in p.cells ==> x < p.next && p.cells[x].refs > 0)
    && (forall x: nat :: p.freed[x] == One(x < p.next && x !in p.cells))
  }

  lemma RefsMeanExistence<V>(p: Pool<V>, x: nat)
    requires Sound(p)
    ensures Refs(p, x) > 0 <==> Val(p, x).Some?
    ensures x >= p.next ==> Val(p, x).None?
  {
  }

  lemma AllocEffect<V>(p: Pool<V>, v: V)
    requires Sound(p)
    ensures Sound(Alloc(p, v)) && Refs(p, p.next) == 0 && Val(p, p.next).None?
    ensures forall y: nat :: Refs(Alloc(p, v), y) == Refs(p, y) + One(y == p.next)
    ensures forall y: nat :: Val(Alloc(p, v), y) == if y == p.next then Some(v) else Val(p, y)
  {
  }

  lemma RefEffect<V>(p: Pool<V>, x: nat)
    requires Sound(p) && Refs(p, x) > 0
    ensures Sound(Ref(p, x))
    ensures forall y: nat :: Refs(Ref(p, x), y) == Refs(p, y) + One(y == x)
    ensures forall y: nat :: Val(Ref(p, x), y) == Val(p, y)
  {
  }

  lemma UnrefEffect<V>(p: Pool<V>, x: nat)
    requires Sound(p) && Refs(p, x) > 0
    ensures Sound(Unref(p, x))
    ensures forall y: nat :: Refs(Unref(p, x), y) == Refs(p, y) - One(y == x)
    ensures forall y: nat :: Val(Unref(p, x), y) == if y == x && Refs(p, x) == 1 then None else Val(p, y)
  {
  }

  lemma PutEffect<V>(p: Pool<V>, x: nat, v: V)
    requires Sound(p) && Refs(p, x) > 0
    ensures Sound(Put(p, x, v))
    ensures forall y: nat :: Refs(Put(p, x, v), y) == Refs(p, y)
    ensures forall y: nat :: Val(Put(p, x, v), y) == if y == x then Some(v) else Val(p, y)
  {
  }
}
