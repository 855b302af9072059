/** Sequence helpers shared by the model: Python's `sum`, the prefix slice
    `s[:n]`, and the subsequence relation used to state "order-preserving". */
module Seqs {

  function Min(a: int, b: int): int
  {
    if a <= b then a else b
  }

  /** Python's `sum` over a list of numbers, starting from 0. */
  function Sum(s: seq<real>): real
  {
    if s == [] then 0.0 else s[0] + Sum(s[1..])
  }

  lemma SumCons(x: real, s: seq<real>)
    ensures Sum([x] + s) == x + Sum(s)
  {
    assert ([x] + s)[1..] == s;
  }

  /** Python's slice `s[:n]`: a non-negative `n` keeps the first `n` items
      (all of them when `n` is larger), a negative `n` drops the last `-n`. */
  function Prefix<T>(s: seq<T>, n: int): (p: seq<T>)
    ensures |p| <= |s| && p == s[..|p|]
    ensures n >= 0 ==> |p| == Min(n, |s|)
    ensures n < 0 ==> |p| == (if |s| + n >= 0 then |s| + n else 0)
  {
    if n >= 0 then (if n <= |s| then s[..n] else s)
    else if |s| + n >= 0 then s[..|s| + n]
    else []
  }

  /** `a` is obtained from `b` by deleting some of its items, the others
      keeping their order. */
  predicate IsSubsequence<T(==)>(a: seq<T>, b: seq<T>)
    decreases |b|
  {
    if b == [] then a == []
    else IsSubsequence(a, b[1..]) || (a != [] && a[0] == b[0] && IsSubsequence(a[1..], b[1..]))
  }
}
