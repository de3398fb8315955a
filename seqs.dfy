/** Facts about sequences that the string and listing proofs share. */
module Seqs {

  /** Concatenation is associative (stated once, so that long sequences need not be compared element by element). */
  lemma ConcatAssoc<T>(x: seq<T>, y: seq<T>, z: seq<T>)
    ensures x + (y + z) == (x + y) + z
  {
  }

  /** A sequence is its part before `i`, its `n` elements from `i` on, and the rest. */
  lemma SliceThree<T>(s: seq<T>, i: nat, n: nat)
    requires i + n <= |s|
    ensures s == s[..i] + s[i..i + n] + s[i + n..]
  {
    assert s[..i] + s[i..i + n] == s[..i + n];
  }

  /** A sequence is its part before `j`, its element at `j`, and the rest. */
  lemma SplitAround<T>(s: seq<T>, j: nat)
    requires j < |s|
    ensures s == s[..j] + [s[j]] + s[j + 1..]
  {
    assert s[..j] + [s[j]] == s[..j + 1];
  }
}
