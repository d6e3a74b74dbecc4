/** Slicing facts about sequences, stated generically so that they are proved once, away from any heavy context. */
module Sequences {

  /** A prefix of a prefix is a prefix. */
  lemma PrefixOfPrefix<T>(xs: seq<T>, m: nat, n: nat)
    requires m <= n <= |xs|
    ensures xs[..n][..m] == xs[..m]
  {
  }

  /** The prefix of full length is the sequence itself. */
  lemma WholePrefix<T>(xs: seq<T>)
    ensures xs[..|xs|] == xs
  {
  }

  /** A prefix extended by the next element is the next prefix. */
  lemma SliceExtend<T>(xs: seq<T>, j: nat)
    requires j < |xs|
    ensures xs[..j] + [xs[j]] == xs[..j + 1]
  {
  }

  /** A prefix and the rest rejoin into the sequence. */
  lemma SliceJoin<T>(xs: seq<T>, n: nat)
    requires n <= |xs|
    ensures xs[..n] + xs[n..] == xs
  {
  }
}
