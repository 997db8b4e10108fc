/**
 * The three loops of the two-pointer base merge of `Merger.merge`, each as a
 * method of its own, and the bookkeeping that ties their progress to the
 * reference merge `Merged`: after `i` elements of the left run and `j` of the
 * right run have been moved, the output so far is the first `i + j` elements
 * of the merge.
 */
module MergeLoops {
  import opened JavaNumerics
  import opened Sorting

  /** With `i` left and `j` right elements moved, the next one comes from the left run. */
  ghost predicate TakesLeft(xs: seq<Long>, ys: seq<Long>, i: nat, j: nat) {
    i < |xs| && (j >= |ys| || xs[i] <= ys[j])
  }

  /** The merge passes through the point where `i` left and `j` right elements have been moved. */
  ghost predicate Reached(xs: seq<Long>, ys: seq<Long>, i: nat, j: nat)
    decreases i + j
  {
    && i <= |xs| && j <= |ys|
    && (|| (i == 0 && j == 0)
        || (i > 0 && Reached(xs, ys, i - 1, j) && TakesLeft(xs, ys, i - 1, j))
        || (j > 0 && Reached(xs, ys, i, j - 1) && !TakesLeft(xs, ys, i, j - 1)))
  }

  /** From a point the merge passes through, the rest of the merge is the merge of the rests. */
  lemma {:induction false} ReachedRest(xs: seq<Long>, ys: seq<Long>, i: nat, j: nat)
    requires Reached(xs, ys, i, j)
    ensures Merged(xs, ys)[i + j..] == Merged(xs[i..], ys[j..])
    decreases i + j
  {
    if i == 0 && j == 0 {
      assert xs[0..] == xs && ys[0..] == ys;
    } else if i > 0 && Reached(xs, ys, i - 1, j) && TakesLeft(xs, ys, i - 1, j) {
      ReachedRest(xs, ys, i - 1, j);
      MergedTakesLeft(xs[i - 1..], ys[j..]);
      assert xs[i - 1..][1..] == xs[i..];
      assert Merged(xs, ys)[i - 1 + j..][1..] == Merged(xs, ys)[i + j..];
    } else {
      ReachedRest(xs, ys, i, j - 1);
      MergedTakesRight(xs[i..], ys[j - 1..]);
      assert ys[j - 1..][1..] == ys[j..];
      assert Merged(xs, ys)[i + j - 1..][1..] == Merged(xs, ys)[i + j..];
    }
  }

  /** One step of the merge from a point it passes through: which element comes next, and where. */
  lemma Advance(xs: seq<Long>, ys: seq<Long>, whole: seq<Long>, i: nat, j: nat, p: int)
    requires whole == Merged(xs, ys) && p == i + j
    requires Reached(xs, ys, i, j) && (i < |xs| || j < |ys|)
    ensures 0 <= p < |whole|
    ensures TakesLeft(xs, ys, i, j) ==> whole[p] == xs[i] && Reached(xs, ys, i + 1, j)
    ensures !TakesLeft(xs, ys, i, j) ==> whole[p] == ys[j] && Reached(xs, ys, i, j + 1)
  {
    ReachedRest(xs, ys, i, j);
    if TakesLeft(xs, ys, i, j) {
      MergedTakesLeft(xs[i..], ys[j..]);
    } else {
      MergedTakesRight(xs[i..], ys[j..]);
    }
  }

  /** A step of the last loop, once the left run is used up: the next element of the merge is the right run's. */
  lemma AdvanceRight(xs: seq<Long>, ys: seq<Long>, whole: seq<Long>, j: nat, p: int)
    requires whole == Merged(xs, ys) && p == |xs| + j
    requires Reached(xs, ys, |xs|, j) && j < |ys|
    ensures 0 <= p < |whole| && whole[p] == ys[j] && Reached(xs, ys, |xs|, j + 1)
  {
    Advance(xs, ys, whole, |xs|, j, p);
  }

  /** `src[start..start+|part|)` holds `part`. */
  ghost predicate Holds(src: array<Long>, start: int, part: seq<Long>)
    reads src
  {
    0 <= start && start + |part| <= src.Length && forall d :: 0 <= d < |part| ==> src[start + d] == part[d]
  }

  /** `dst[wo..k)` holds the first `k - wo` elements of `whole`. */
  ghost predicate Filled(dst: array<Long>, wo: int, k: int, whole: seq<Long>)
    reads dst
  {
    0 <= wo <= k <= dst.Length && k - wo <= |whole| && forall n :: wo <= n < k ==> dst[n] == whole[n - wo]
  }

  /** A filled range read back as a slice. */
  lemma SliceOf(w: array<Long>, from: int, to: int, s: seq<Long>)
    requires Filled(w, from, to, s) && |s| == to - from
    ensures w[from..to] == s
  {
  }

  /** The merge starts at the point where nothing has been moved. */
  lemma Start(xs: seq<Long>, ys: seq<Long>) returns (whole: seq<Long>)
    ensures whole == Merged(xs, ys) && |whole| == |xs| + |ys|
    ensures Reached(xs, ys, 0, 0)
  {
    whole := Merged(xs, ys);
  }

  /** The first loop of the merge: while both runs have elements, move the smaller head (the left one on a tie). */
  method MergeHeads(a: array<Long>, w: array<Long>, lo: int, nleft: int, ro: int, nright: int, wo: int,
                    ghost xs: seq<Long>, ghost ys: seq<Long>, ghost whole: seq<Long>)
      returns (l: int, r: int, k: int, ghost i: nat, ghost j: nat)
    requires a != w && Holds(a, lo, xs) && Holds(a, ro, ys) && |xs| == nleft && |ys| == nright
    requires 0 <= wo && wo + nleft + nright <= w.Length && whole == Merged(xs, ys)
    modifies w
    ensures l == lo + i && i <= nleft && r == ro + j && j <= nright && k == wo + (i + j)
    ensures Reached(xs, ys, i, j) && (i == |xs| || j == |ys|)
    ensures Filled(w, wo, k, whole)
    ensures w[..wo] == old(w[..wo]) && w[wo + nleft + nright..] == old(w[wo + nleft + nright..])
  {
    var lFence, rFence := lo + nleft, ro + nright;
    l, r, k := lo, ro, wo;
    i, j := 0, 0;
    ghost var w0 := Start(xs, ys);
    while l < lFence && r < rFence
      invariant l == lo + i && i <= nleft && r == ro + j && j <= nright && k == wo + (i + j)
      invariant Reached(xs, ys, i, j)
      invariant Filled(w, wo, k, whole)
      invariant w[..wo] == old(w[..wo]) && w[wo + nleft + nright..] == old(w[wo + nleft + nright..])
    {
      Advance(xs, ys, whole, i, j, k - wo);
      var al, ar := a[l], a[r];
      assert al == xs[i] && ar == ys[j];
      var t;
      if al <= ar {
        l, i, t := l + 1, i + 1, al;
      } else {
        r, j, t := r + 1, j + 1, ar;
      }
      w[k] := t;
      k := k + 1;
    }
  }

  /** The second loop of the merge: copy what is left of the left run. */
  method DrainLeft(a: array<Long>, w: array<Long>, lo: int, nleft: int, ro: int, nright: int, wo: int,
                   ghost xs: seq<Long>, ghost ys: seq<Long>, ghost whole: seq<Long>,
                   l0: int, r: int, k0: int, ghost i0: nat, ghost j: nat)
      returns (l: int, k: int, ghost i: nat)
    requires a != w && Holds(a, lo, xs) && Holds(a, ro, ys) && |xs| == nleft && |ys| == nright
    requires 0 <= wo && wo + nleft + nright <= w.Length && whole == Merged(xs, ys)
    requires l0 == lo + i0 && i0 <= nleft && r == ro + j && j <= nright && k0 == wo + (i0 + j)
    requires Reached(xs, ys, i0, j) && (i0 == |xs| || j == |ys|)
    requires Filled(w, wo, k0, whole)
    modifies w
    ensures l == lo + i && i == nleft && k == wo + (i + j)
    ensures Reached(xs, ys, i, j)
    ensures Filled(w, wo, k, whole)
    ensures w[..wo] == old(w[..wo]) && w[wo + nleft + nright..] == old(w[wo + nleft + nright..])
  {
    var lFence := lo + nleft;
    l, k, i := l0, k0, i0;
    while l < lFence
      invariant l == lo + i && i <= nleft && k == wo + (i + j) && (i == |xs| || j == |ys|)
      invariant Reached(xs, ys, i, j)
      invariant Filled(w, wo, k, whole)
      invariant w[..wo] == old(w[..wo]) && w[wo + nleft + nright..] == old(w[wo + nleft + nright..])
    {
      Advance(xs, ys, whole, i, j, k - wo);
      assert a[l] == xs[i];
      w[k] := a[l];
      l, i := l + 1, i + 1;
      k := k + 1;
    }
  }

  /** The third loop of the merge: copy what is left of the right run. */
  method DrainRight(a: array<Long>, w: array<Long>, lo: int, nleft: int, ro: int, nright: int, wo: int,
                    ghost xs: seq<Long>, ghost ys: seq<Long>, ghost whole: seq<Long>,
                    r0: int, k0: int, ghost j0: nat)
      returns (r: int, k: int, ghost j: nat)
    requires a != w && Holds(a, lo, xs) && Holds(a, ro, ys) && |xs| == nleft && |ys| == nright
    requires 0 <= wo && wo + nleft + nright <= w.Length && whole == Merged(xs, ys)
    requires r0 == ro + j0 && j0 <= nright && k0 == wo + (nleft + j0)
    requires Reached(xs, ys, nleft, j0)
    requires Filled(w, wo, k0, whole)
    modifies w
    ensures r == ro + j && j == nright && k == wo + (nleft + nright)
    ensures Filled(w, wo, k, whole)
    ensures w[..wo] == old(w[..wo]) && w[wo + nleft + nright..] == old(w[wo + nleft + nright..])
  {
    var rFence := ro + nright;
    r, k, j := r0, k0, j0;
    while r < rFence
      invariant r == ro + j && j <= nright && k == wo + (nleft + j)
      invariant Reached(xs, ys, nleft, j)
      invariant Filled(w, wo, k, whole)
      invariant w[..wo] == old(w[..wo]) && w[wo + nleft + nright..] == old(w[wo + nleft + nright..])
    {
      AdvanceRight(xs, ys, whole, j, k - wo);
      assert a[r] == ys[j];
      w[k] := a[r];
      r, j := r + 1, j + 1;
      k := k + 1;
    }
  }

  /** The three loops of the base merge in sequence: `w[wo..wo+nleft+nright]` becomes the merge of the runs `xs` and `ys` of `a`. */
  method MergeRuns(a: array<Long>, w: array<Long>, lo: int, nleft: int, ro: int, nright: int, wo: int,
                   ghost xs: seq<Long>, ghost ys: seq<Long>)
    requires a != w && Holds(a, lo, xs) && Holds(a, ro, ys) && |xs| == nleft && |ys| == nright
    requires 0 <= wo && wo + nleft + nright <= w.Length
    modifies w
    ensures w[wo..wo + nleft + nright] == Merged(xs, ys)
    ensures w[..wo] == old(w[..wo]) && w[wo + nleft + nright..] == old(w[wo + nleft + nright..])
  {
    ghost var whole := Start(xs, ys);
    var l, r, k, i, j := MergeHeads(a, w, lo, nleft, ro, nright, wo, xs, ys, whole);
    l, k, i := DrainLeft(a, w, lo, nleft, ro, nright, wo, xs, ys, whole, l, r, k, i, j);
    r, k, j := DrainRight(a, w, lo, nleft, ro, nright, wo, xs, ys, whole, r, k, j);
    SliceOf(w, wo, k, whole);
  }

  /** A slice of an array, read back index by index. */
  lemma RunIndex(a: array<Long>, lo: int, n: int, xs: seq<Long>)
    requires 0 <= lo <= lo + n <= a.Length && xs == a[lo..lo + n]
    ensures |xs| == n && Holds(a, lo, xs)
  {
  }

  /** An array's contents, cut at two points. */
  lemma Pieces(w: array<Long>, from: int, to: int)
    requires 0 <= from <= to <= w.Length
    ensures w[..] == w[..from] + w[from..to] + w[to..]
  {
  }
}
