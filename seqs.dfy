/** Small facts about sequence concatenation and slicing, proved on their own so
    that the protocol proofs can use them without unfolding anything else. */
module Seqs {

  /** The head and tail of a concatenation whose first part is not empty. */
  lemma ConsOfAppend<T>(a: seq<T>, b: seq<T>)
    requires a != []
    ensures (a + b)[0] == a[0] && (a + b)[1..] == a[1..] + b
  {
  }

  lemma AppendAssoc<T>(x: seq<T>, y: seq<T>, z: seq<T>)
    ensures x + (y + z) == (x + y) + z
  {
  }

  /** Cutting a sequence into a 7-element head, a middle and its last element. */
  lemma HeadMiddleLast<T>(s: seq<T>, middle: seq<T>)
    requires |s| == |middle| + 8 && s[7..|s| - 1] == middle
    ensures s == s[..7] + (middle + [s[|s| - 1]])
  {
  }

  /** Writing `x` over the first `|x|` elements of `s`. */
  lemma OverwritePrefix<T>(s: seq<T>, x: seq<T>)
    requires |x| <= |s|
    ensures s[..0] + x + s[|x|..] == x + s[|x|..]
    ensures (x + s[|x|..])[..|x|] == x
    ensures |x + s[|x|..]| == |s|
  {
  }

  /** Storing one element at position `k` and then the rest of `x` after it. */
  lemma OverwriteStep<T>(s: seq<T>, x: seq<T>, k: nat, end: nat)
    requires |x| >= 1 && end == k + |x| <= |s|
    ensures s[k := x[0]][..k + 1] + x[1..] + s[k := x[0]][end..] == s[..k] + x + s[end..]
    ensures |x| == 1 ==> s[k := x[0]] == s[..k] + x + s[end..]
  {
  }

  /** A prefix of `s` is a shorter prefix followed by the slice between them. */
  lemma PrefixSplit<T>(s: seq<T>, i: nat, n: nat)
    requires i <= n <= |s|
    ensures s[..n] == s[..i] + s[i..n]
  {
  }

  /** A prefix one longer is the shorter prefix followed by the next element. */
  lemma PrefixSnoc<T>(s: seq<T>, i: nat)
    requires i < |s|
    ensures s[..i + 1] == s[..i] + [s[i]]
  {
  }

  /** Appending the empty sequence changes nothing. */
  lemma AppendEmpty<T>(s: seq<T>)
    ensures s + [] == s
  {
  }
}
