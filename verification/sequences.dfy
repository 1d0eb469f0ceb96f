/** What is needed of sequences of any kind. */
module Sequences {
  lemma Associative<T>(a: seq<T>, b: seq<T>, c: seq<T>)
    ensures (a + b) + c == a + (b + c)
  {}

  /** The sequence without its element number i. */
  function Remove<T>(s: seq<T>, i: nat): (r: seq<T>)
    requires i < |s|
    ensures |r| == |s| - 1 && forall k :: 0 <= k < |r| ==> r[k] == if k < i then s[k] else s[k + 1]
  {
    s[..i] + s[i + 1..]
  }

  function Times<T>(n: nat, x: T): (r: seq<T>) { seq(n, _ => x) }

  lemma OneMoreTime<T>(n: nat, x: T)
    ensures Times(n, x) + [x] == Times(n + 1, x)
  {}
}
