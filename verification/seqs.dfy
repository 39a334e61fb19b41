/** Small facts about sequence concatenation and prefixes, stated once so that
    the proofs about the log do not have to rediscover them. */
module Seqs {

  /** Concatenation is associative. */
  lemma AppendAssoc<T>(a: seq<T>, b: seq<T>, c: seq<T>)
    ensures a + (b + c) == (a + b) + c
  {
  }

  /** Dropping the first element of a non-empty front. */
  lemma DropFirstOfAppend<T>(a: seq<T>, b: seq<T>)
    requires |a| > 0
    ensures (a + b)[0] == a[0] && (a + b)[1..] == a[1..] + b
  {
  }

  /** A prefix stays a prefix when both sides get the same front. */
  lemma PrefixFront<T>(c: seq<T>, a: seq<T>, b: seq<T>)
    requires a <= b
    ensures c + a <= c + b
  {
    assert (c + b)[..|c + a|] == c + a;
  }

  /** A prefix stays a prefix when the longer side is extended. */
  lemma PrefixExtend<T>(a: seq<T>, b: seq<T>, c: seq<T>)
    requires a <= b
    ensures a <= b + c
  {
    assert (b + c)[..|a|] == b[..|a|];
  }

  /** The last element of a concatenation with a non-empty back. */
  lemma LastOfAppend<T>(a: seq<T>, b: seq<T>)
    requires |b| > 0
    ensures (a + b)[|a + b| - 1] == b[|b| - 1]
  {
  }

  /** The front of a concatenation with a non-empty back is a proper prefix of it. */
  lemma ProperPrefixOfAppend<T>(a: seq<T>, b: seq<T>)
    requires |b| > 0
    ensures a < a + b
  {
    assert (a + b)[..|a|] == a;
  }
}
