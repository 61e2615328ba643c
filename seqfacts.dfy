/**
 * Small facts about sequences, stated once for any element type so that
 * proofs about sequences of messages need not compare them element by element.
 */
module SeqFacts {

  lemma AppendAssoc<T>(a: seq<T>, b: seq<T>, c: seq<T>)
    ensures a + (b + c) == (a + b) + c
  {
  }

  lemma TakeAppended<T>(s: seq<T>, x: T)
    ensures (s + [x])[..|s|] == s
  {
  }
}
