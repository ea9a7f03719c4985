/**
 * Facts about sequences of any element type, stated once so that proofs
 * about bytes, characters or header values can use them without their
 * element arithmetic in view.
 */
module Seqs {

  /** The head and tail of a concatenation whose left part is non-empty. */
  lemma HeadTailAppend<T>(a: seq<T>, b: seq<T>)
    requires a != []
    ensures (a + b)[0] == a[0] && (a + b)[1..] == a[1..] + b
  {
  }

  /** A sequence of at least three elements is its first three followed by the rest. */
  lemma SplitThree<T>(b: seq<T>)
    requires |b| >= 3
    ensures [b[0], b[1], b[2]] + b[3..] == b
  {
  }
}
