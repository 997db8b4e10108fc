/**
 * Small facts about slices of sequences, used to follow array contents
 * through the steps of the sort.
 */
module Slices {
  /** Agreeing on a prefix means agreeing on every shorter prefix. */
  lemma PrefixOfPrefix<T>(s: seq<T>, t: seq<T>, i: nat, j: nat)
    requires i <= j <= |s| && j <= |t| && s[..j] == t[..j]
    ensures s[..i] == t[..i]
  {
    assert s[..i] == s[..j][..i] && t[..i] == t[..j][..i];
  }

  /** Agreeing on a suffix means agreeing on every shorter suffix. */
  lemma SuffixOfSuffix<T>(s: seq<T>, t: seq<T>, i: nat, j: nat)
    requires |s| == |t| && i <= j <= |s| && s[i..] == t[i..]
    ensures s[j..] == t[j..]
  {
    assert s[j..] == s[i..][j - i..] && t[j..] == t[i..][j - i..];
  }

  /** Agreeing on a prefix means agreeing on every range inside it. */
  lemma RangeOfPrefix<T>(s: seq<T>, t: seq<T>, i: nat, j: nat, k: nat)
    requires i <= j <= k <= |s| && k <= |t| && s[..k] == t[..k]
    ensures s[i..j] == t[i..j]
  {
    assert s[i..j] == s[..k][i..j] && t[i..j] == t[..k][i..j];
  }

  /** Agreeing on a suffix means agreeing on every range inside it. */
  lemma RangeOfSuffix<T>(s: seq<T>, t: seq<T>, k: nat, i: nat, j: nat)
    requires |s| == |t| && k <= i <= j <= |s| && s[k..] == t[k..]
    ensures s[i..j] == t[i..j]
  {
    SliceOfSlice(s, k, |s|, i - k, j - k);
    SliceOfSlice(t, k, |t|, i - k, j - k);
  }

  /** A range of a range is a range. */
  lemma SliceOfSlice<T>(s: seq<T>, i: nat, j: nat, k: nat, m: nat)
    requires i <= j <= |s| && k <= m <= j - i
    ensures s[i..j][k..m] == s[i + k..i + m]
  {
    forall d | 0 <= d < m - k
      ensures s[i..j][k..m][d] == s[i + k..i + m][d]
    {
      assert s[i..j][k..m][d] == s[i..j][k + d] == s[i + k + d];
    }
  }

  /**
   * `r` is `s` with the block `t` written over it from index `at`: outside the
   * block `r` agrees with `s`, and inside it reads back `t`.
   */
  lemma Written<T>(s: seq<T>, at: nat, t: seq<T>, r: seq<T>)
    requires at + |t| <= |s| && r == s[..at] + t + s[at + |t|..]
    ensures |r| == |s| && r[..at] == s[..at] && r[at..at + |t|] == t && r[at + |t|..] == s[at + |t|..]
  {
  }

  /**
   * Two writes in a row, the first inside `[lo, hi)` above `mid` and the second
   * inside `[lo, hi)` below `mid`, leave everything outside `[lo, hi)` alone.
   */
  lemma Untouched<T>(s0: seq<T>, s1: seq<T>, s2: seq<T>, lo: nat, mid: nat, hi: nat)
    requires lo <= mid <= hi <= |s0| && |s1| == |s0| && |s2| == |s0|
    requires s1[..mid] == s0[..mid] && s1[hi..] == s0[hi..]
    requires s2[..lo] == s1[..lo] && s2[mid..] == s1[mid..]
    ensures s2[..lo] == s0[..lo] && s2[hi..] == s0[hi..]
  {
    PrefixOfPrefix(s1, s0, lo, mid);
    SuffixOfSuffix(s2, s1, mid, hi);
  }
}
