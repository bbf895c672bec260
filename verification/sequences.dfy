/** Small facts about sequences shared by the other modules. */
module Sequences {

  /** Concatenation is associative; stated once so that proofs can regroup
      long concatenations one step at a time. */
  lemma ConcatAssoc<T>(a: seq<T>, b: seq<T>, c: seq<T>)
    ensures (a + b) + c == a + (b + c)
  {
  }
}
