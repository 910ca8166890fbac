/**
 * Facts about slices and concatenations of strings, stated over arbitrary
 * strings so that the proofs about the renderer can use them without
 * re-deriving them next to the renderer's own definitions.
 */
module Strings {

  lemma SliceOfSlice(s: string, a: nat, b: nat, i: nat, j: nat)
    requires a <= b <= |s| && i <= j <= b - a
    ensures s[a..b][i..j] == s[a + i..a + j]
  {
    forall k | 0 <= k < j - i
      ensures s[a..b][i..j][k] == s[a + i..a + j][k]
    {
    }
  }

  lemma SliceOfTail(s: string, a: nat, i: nat, j: nat)
    requires a <= |s| && i <= j <= |s| - a
    ensures s[a..][i..j] == s[a + i..a + j]
  {
    forall k | 0 <= k < j - i
      ensures s[a..][i..j][k] == s[a + i..a + j][k]
    {
    }
  }

  lemma TailOfTail(s: string, i: nat)
    requires 0 < i <= |s|
    ensures s[1..][i - 1..] == s[i..]
  {
  }

  lemma SliceOfAppend(a: string, b: string, i: nat, j: nat)
    requires i <= j <= |a| + |b|
    ensures j <= |a| ==> (a + b)[i..j] == a[i..j]
    ensures |a| <= i ==> (a + b)[i..j] == b[i - |a|..j - |a|]
  {
    if j <= |a| {
      forall k | 0 <= k < j - i
        ensures (a + b)[i..j][k] == a[i..j][k]
      {
      }
    }
    if |a| <= i {
      forall k | 0 <= k < j - i
        ensures (a + b)[i..j][k] == b[i - |a|..j - |a|][k]
      {
      }
    }
  }

  /** Prepending the empty text changes nothing. */
  lemma NilAppend(p: string, x: string, y: string)
    requires p == []
    ensures p + x + y == x + y
  {
  }

  /** A character prepended to a concatenation joins its first part. */
  lemma ConsAssoc(c: char, x: string, y: string, a: string, r: string)
    requires [c] + x == y
    ensures [c] + (x + a + r) == y + a + r
  {
  }

  lemma ConsPrefix(s: string, i: nat)
    requires 0 < i <= |s|
    ensures [s[0]] + s[1..][..i - 1] == s[..i]
  {
  }

  lemma ConsTake(c: char, r: string, k: nat)
    requires 0 < k <= |r| + 1
    ensures ([c] + r)[..k] == [c] + r[..k - 1]
  {
  }

  /**
   * `whole` is `left + right` when both start with `head`, and what follows
   * `head` in `whole` is what follows it in `left`, then `right`.
   */
  lemma Glue(whole: string, left: string, right: string, head: string, leftTail: string, wholeTail: string)
    requires whole == head + wholeTail && left == head + leftTail && wholeTail == leftTail + right
    ensures whole == left + right
  {
  }
}
