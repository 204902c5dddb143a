/** Small facts about taking prefixes of sequences. */
module SeqFacts {

  /** Taking all of a sequence gives the sequence. */
  lemma {:induction false} TakeAll<T>(a: seq<T>)
    ensures a[..|a|] == a
  {
  }

  /** A prefix of a prefix is a prefix. */
  lemma {:induction false} TakeOfTake<T>(a: seq<T>, n: nat, k: nat)
    requires k <= n <= |a|
    ensures a[..n][..k] == a[..k]
  {
  }
}
