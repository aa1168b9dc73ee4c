/** Two small counting facts, kept apart from the table model so that their proofs stay small. */
module Bags {
  /** One more copy, scaled by `k`, adds `k`. */
  lemma MulSucc(m: nat, k: nat)
    ensures (m + 1) * k == m * k + k
  {
  }

  /** A non-empty sequence is its head plus its tail, as a bag. */
  lemma MultisetCons<T>(s: seq<T>)
    requires s != []
    ensures multiset(s) == multiset{s[0]} + multiset(s[1..])
  {
    assert s == [s[0]] + s[1..];
  }
}
