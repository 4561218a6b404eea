/** Writing a piece over a sequence, and the cuts of sequences the proofs need. */
module Seqs {

  /** `s` with `piece` written over it from index `at` on. */
  function Splice<T>(s: seq<T>, at: nat, piece: seq<T>): (r: seq<T>)
    requires at + |piece| <= |s|
    ensures |r| == |s|
  {
    s[..at] + piece + s[at + |piece|..]
  }

  lemma SpliceTwice<T>(s: seq<T>, at: nat, a: seq<T>, b: seq<T>)
    requires at + |a| + |b| <= |s|
    ensures Splice(Splice(s, at, a), at + |a|, b) == Splice(s, at, a + b)
  {
  }

  lemma SpliceNothing<T>(s: seq<T>, at: nat, t: seq<T>)
    requires |t| == 0 && at <= |s|
    ensures Splice(s, at, t) == s
  {
  }

  lemma SpliceWhole<T>(s: seq<T>, t: seq<T>)
    requires |s| == |t|
    ensures Splice(s, 0, t) == t
  {
  }

  lemma SliceOfTail<T>(s: seq<T>, m: nat, i: nat, j: nat)
    requires i <= j && m + j <= |s|
    ensures s[m..][i..j] == s[m + i..m + j]
  {
  }

  lemma SpliceAt<T>(s: seq<T>, at: nat, piece: seq<T>)
    requires at + |piece| <= |s|
    ensures forall j :: 0 <= j < |piece| ==> Splice(s, at, piece)[at + j] == piece[j]
  {
  }

  lemma SpliceOver<T>(pre: seq<T>, was: seq<T>, post: seq<T>, piece: seq<T>)
    requires |was| == |piece|
    ensures Splice(pre + was + post, |pre|, piece) == pre + piece + post
  {
  }

  /** What lies before and after a cut behind the piece. */
  lemma SpliceCut<T>(s: seq<T>, at: nat, piece: seq<T>, cut: nat)
    requires at + |piece| <= cut <= |s|
    ensures Splice(s, at, piece)[..cut] == s[..at] + piece + s[at + |piece|..cut]
    ensures Splice(s, at, piece)[cut..] == s[cut..]
  {
  }

  lemma Regroup<T>(a: seq<T>, b: seq<T>, c: seq<T>, d: seq<T>, e: seq<T>)
    ensures a + (b + c + d) + e == a + b + (c + d + e)
    ensures a + (b + c + d) + e == a + b + c + d + e
  {
  }

  /** A cut in three: the pieces of `s` from `i` to `n`. */
  lemma CutInThree<T>(s: seq<T>, i: nat, j: nat, k: nat, n: nat)
    requires i <= j <= k <= n <= |s|
    ensures s[i..n] == s[i..j] + s[j..k] + s[k..n]
    ensures s[k..][..n - k] == s[k..n]
  {
  }

  lemma Middle<T>(pre: seq<T>, piece: seq<T>, post: seq<T>)
    ensures (pre + piece + post)[|pre|..|pre| + |piece|] == piece
    ensures (pre + piece + post)[|pre| + |piece|..] == post
    ensures (pre + piece + post)[..|pre|] == pre
  {
  }

  lemma TwoParts<T>(a: seq<T>, b: seq<T>)
    ensures (a + b)[..|a|] == a && (a + b)[|a|..] == b
  {
  }

  /** A prefix of `w`, seen as two parts, that grows by the next piece of `w`. */
  lemma Extend<T>(w: seq<T>, p: nat, q: nat, a: seq<T>, b: seq<T>)
    requires p <= q <= |w| && a + b == w[..p]
    ensures a + (b + w[p..q]) == w[..q]
  {
    assert w[..p] + w[p..q] == w[..q];
    assert a + (b + w[p..q]) == (a + b) + w[p..q];
  }

  lemma Associate<T>(a: seq<T>, b: seq<T>, c: seq<T>)
    ensures a + (b + c) == a + b + c
  {
  }
}
