/**
 Order-preserving selections: a subsequence of `xs` is described by a
 strictly increasing list of positions into `xs`.
 */
module Subsequences {

  /** Every position in `ks` is a valid index of a sequence of length `n`. */
  predicate InRange(ks: seq<nat>, n: nat)
  {
    forall k :: 0 <= k < |ks| ==> ks[k] < n
  }

  /** The positions in `ks` are strictly increasing, so they keep the original order. */
  predicate StrictlyIncreasing(ks: seq<nat>)
  {
    forall k, l :: 0 <= k < l < |ks| ==> ks[k] < ks[l]
  }

  /** The elements of `xs` at positions `ks`, in the order of `ks`. */
  function Select<T>(xs: seq<T>, ks: seq<nat>): (r: seq<T>)
    requires InRange(ks, |xs|)
  {
    seq(|ks|, k requires 0 <= k < |ks| => xs[ks[k]])
  }

  /** `ys` is an order-preserving subsequence of `xs`. */
  ghost predicate IsSubsequence<T>(ys: seq<T>, xs: seq<T>)
  {
    exists ks: seq<nat> {:trigger Select(xs, ks)} ::
      InRange(ks, |xs|) && StrictlyIncreasing(ks) && ys == Select(xs, ks)
  }

  /** Selecting positions of a prefix from the whole sequence or from the prefix agrees. */
  lemma SelectFromPrefix<T>(xs: seq<T>, n: nat, ks: seq<nat>)
    requires n <= |xs| && InRange(ks, n)
    ensures Select(xs, ks) == Select(xs[..n], ks)
  {
  }

  /** Selecting one more position appends that element. */
  lemma SelectAppend<T>(xs: seq<T>, ks: seq<nat>, j: nat)
    requires InRange(ks, |xs|) && j < |xs|
    ensures InRange(ks + [j], |xs|)
    ensures Select(xs, ks + [j]) == Select(xs, ks) + [xs[j]]
  {
  }
}
