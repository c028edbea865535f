/** Small facts about sequence concatenation used by the proofs of the other modules. */
module Seqs {
  /**
   * Regrouping a concatenation.  A proof whose context already equates a sequence with a
   * concatenation of parts of itself (a list equal to its own stable sort, say) calls this
   * lemma rather than asserting the equation inline, so that the extensional proof of the
   * regrouping happens here, away from that context.
   */
  lemma AppendAssoc<T>(a: seq<T>, b: seq<T>, c: seq<T>)
    ensures (a + b) + c == a + (b + c)
  {
  }

  /** The head and the tail of a concatenation whose first part is not empty. */
  lemma ConsTail<T>(a: seq<T>, b: seq<T>)
    requires a != []
    ensures (a + b)[0] == a[0] && (a + b)[1..] == a[1..] + b
  {
  }
}
