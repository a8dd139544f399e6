/** Facts about sequence concatenation and slicing that the string proofs
    use, stated once for sequences of any element type. Keeping them in
    small lemmas of their own keeps the larger proofs cheap. */
module Seqs {

  /** The head and tail of `a + b` when `a` is not empty. */
  lemma TailOfAppend<T>(a: seq<T>, b: seq<T>)
    requires a != []
    ensures (a + b)[0] == a[0] && (a + b)[1..] == a[1..] + b
  {
  }

  lemma ConcatEmptyMiddle<T>(a: seq<T>, b: seq<T>)
    ensures a + [] + b == a + b
  {
  }

  lemma ConcatAssoc<T>(x: seq<T>, y: seq<T>, z: seq<T>)
    ensures x + (y + z) == (x + y) + z
  {
  }

  /** Each of the first two pieces of `a + b + c` is found at its place. */
  lemma SliceOfConcat<T>(a: seq<T>, b: seq<T>, c: seq<T>)
    ensures (a + b + c)[..|a|] == a
    ensures (a + b + c)[|a|..|a| + |b|] == b
  {
  }

  /** A slice of `a + b` that lies within `b`. */
  lemma SliceRight<T>(a: seq<T>, b: seq<T>, i: nat, j: nat)
    requires i <= j <= |b|
    ensures (a + b)[|a| + i..|a| + j] == b[i..j]
  {
  }
}
