/** Blocks of memory. */
module Blocks {
  /** `realloc`: a block of another size that starts like the old one. */
  method Resized<T>(a: array<T>, size: nat, fill: T) returns (r: array<T>)
    ensures fresh(r) && r.Length == size
    ensures forall i :: 0 <= i < a.Length && i < size ==> r[i] == a[i]
  {
    r := new T[size](i requires 0 <= i reads a => if i < a.Length then a[i] else fill);
  }
}
