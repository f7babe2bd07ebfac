/** What several modules need of sequences. */
module Sequences {

  function Repeat<T>(n: nat, x: T): (s: seq<T>)
    ensures |s| == n && forall i :: 0 <= i < n ==> s[i] == x
  {
    seq(n, _ => x)
  }

  lemma Regroup<T>(a: seq<T>, b: seq<T>, c: seq<T>)
    ensures a + (b + c) == a + b + c
  {
  }

  /** Before and behind the seam. */
  lemma Seam<T>(a: seq<T>, b: seq<T>)
    ensures (a + b)[|a|..] == b && forall i :: 0 <= i < |a| ==> (a + b)[i] == a[i]
  {
  }
}
