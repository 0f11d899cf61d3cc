/** Facts about sequences that the proofs use at several element types,
    kept apart from any tree or text so that each is proved on its own. */
module Seqs {
  /** The head and tail of `a + b` when `a` is not empty. */
  lemma ConsAppend<T>(a: seq<T>, b: seq<T>, h: T, tail: seq<T>)
    requires a != [] && a[0] == h && a[1..] == tail
    ensures (a + b)[0] == h && (a + b)[1..] == tail + b
  {
  }

  /** Concatenation is associative. */
  lemma AppendAssoc<T>(x: seq<T>, y: seq<T>, z: seq<T>)
    ensures x + (y + z) == x + y + z
  {
  }

  /** Moving the head of `xs` onto the end of `pre`. */
  lemma HeadOnto<T>(pre: seq<T>, xs: seq<T>, h: T, tail: seq<T>, pre1: seq<T>)
    requires xs != [] && h == xs[0] && tail == xs[1..] && pre1 == pre + [h]
    ensures pre1 + tail == pre + xs
  {
    assert xs == [h] + tail;
    assert pre + [h] + tail == pre + ([h] + tail);
  }

  /** A prefix one element longer. */
  lemma PrefixStep<T>(xs: seq<T>, k: nat, k1: nat, pre: seq<T>, x: T)
    requires k < |xs| && k1 == k + 1 && pre == xs[..k] && x == xs[k]
    ensures pre + [x] == xs[..k1]
  {
  }
}
