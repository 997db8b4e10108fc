/**
 * The fork/join merge sort of `ScalarLongSort`, run sequentially: every forked
 * task runs at the point where it is forked, which gives the same result as any
 * parallel schedule because sibling tasks write disjoint ranges.
 *
 * The static `THRESHOLD` of the program is the parameter `threshold` here; the
 * program only ever sets it to a value of at least 1 (see `ChooseThreshold`).
 *
 * The proofs about a merge follow the CONTENTS of the runs (ghost sequences
 * `xs`, `ys`), tied to the array they lie in by `Holds`, one index at a time.
 */
module ScalarLongSort {
  import opened JavaNumerics
  import opened Sorting
  import opened MergeLoops
  import opened Slices

  /**
   * A task that merges the sorted runs `a[lo..lo+ln]` and `a[ro..ro+rn]` into
   * `w[wo..wo+ln+rn]`. `next` links the sibling mergers a spine step spawns.
   */
  class Merger {
    const a: array<Long>
    const w: array<Long>
    const lo: nat
    const ln: nat
    const ro: nat
    const rn: nat
    const wo: nat
    var next: Merger?

    constructor (a: array<Long>, w: array<Long>, lo: nat, ln: nat, ro: nat, rn: nat, wo: nat, next: Merger?)
      ensures this.a == a && this.w == w
      ensures this.lo == lo && this.ln == ln && this.ro == ro && this.rn == rn && this.wo == wo
      ensures this.next == next
    {
      this.a, this.w := a, w;
      this.lo, this.ln := lo, ln;
      this.ro, this.rn := ro, rn;
      this.wo := wo;
      this.next := next;
    }

    /** One past the last destination index. */
    function End(): nat {
      wo + ln + rn
    }

    /** Both runs lie in `a`, the destination lies in `w`, and the two arrays differ. */
    predicate InBounds() {
      a != w && lo + ln <= a.Length && ro + rn <= a.Length && End() <= w.Length
    }

    /** What the merger may assume when it starts: both runs are sorted. */
    ghost predicate Ready()
      reads a
    {
      InBounds() && Sorted(a[lo..lo + ln]) && Sorted(a[ro..ro + rn])
    }

    /** The destination contents a finished merger has produced: the merge of its two runs. */
    ghost function Output(): seq<Long>
      requires InBounds()
      reads a
    {
      Merged(a[lo..lo + ln], a[ro..ro + rn])
    }

    /**
     * The two-pointer base merge of the first `nleft` elements of the left run
     * with the first `nright` of the right run; ties take the left element. Its
     * three loops are `MergeHeads`, `DrainLeft` and `DrainRight`.
     */
    method Merge(nleft: nat, nright: nat, ghost xs: seq<Long>, ghost ys: seq<Long>)
      requires InBounds() && Holds(a, lo, xs) && |xs| == nleft <= ln && Holds(a, ro, ys) && |ys| == nright <= rn
      modifies w
      ensures w[..] == old(w[..wo]) + Merged(xs, ys) + old(w[wo + nleft + nright..])
    {
      MergeRuns(a, w, lo, nleft, ro, nright, wo, xs, ys);
      Pieces(w, wo, wo + nleft + nright);
    }

    /**
     * The binary search of the spine step over the sorted right run, whose
     * first `nright` elements are `ys`: `rh` is the least index with
     * `split <= ys[rh]`, or `nright` when there is none, so every element before
     * it is below `split` and every element from it on is not.
     */
    method SplitPoint(nright: nat, split: Long, ghost ys: seq<Long>) returns (rh: nat)
      requires Holds(a, ro, ys) && |ys| == nright && Sorted(ys)
      ensures rh <= nright
      ensures forall i :: 0 <= i < rh ==> ys[i] < split
      ensures forall i :: rh <= i < nright ==> split <= ys[i]
    {
      var rl := 0;
      rh := nright;
      while rl < rh
        invariant 0 <= rl <= rh <= nright
        invariant forall i :: 0 <= i < rl ==> ys[i] < split
        invariant forall i :: rh <= i < nright ==> split <= ys[i]
      {
        var mid := (rl + rh) / 2;
        assert a[ro + mid] == ys[mid];
        if split <= a[ro + mid] {
          rh := mid;
        } else {
          rl := mid + 1;
        }
      }
    }

    /**
     * Merge by left-spine decomposition: while the remaining left run is longer
     * than `threshold`, halve it, find where its middle element falls in the
     * right run, and spawn a sibling merger for the two upper parts; then merge
     * what is left and run the siblings. The destination ends up holding the
     * single direct merge of the two full runs, and nothing else changes.
     */
    method Compute(threshold: nat)
      requires threshold >= 1 && Ready()
      modifies w
      ensures w[..] == old(w[..wo]) + old(Output()) + old(w[End()..])
      decreases ln, 3
    {
      ghost var xs0, ys0 := a[lo..lo + ln], a[ro..ro + rn];
      RunIndex(a, lo, ln, xs0);
      RunIndex(a, ro, rn, ys0);
      var rights, nleft, nright, spine, xs, ys := SpawnSiblings(threshold, xs0, ys0);
      MergeAndCollect(threshold, rights, nleft, nright, spine, xs, ys);
    }

    /**
     * The end of `Compute`, once the spine loop has left the runs `xs` and `ys`
     * and the siblings `spine`: merge the two runs directly, then run the
     * siblings. The destination holds the merge of the runs followed by the
     * outputs of the siblings.
     */
    method MergeAndCollect(threshold: nat, rights: Merger?, nleft: nat, nright: nat,
                           ghost spine: seq<Sibling>, ghost xs: seq<Long>, ghost ys: seq<Long>)
      requires threshold >= 1 && InBounds() && nleft <= ln && nright <= rn
      requires Chain(spine, rights)
      requires Holds(a, lo, xs) && |xs| == nleft && Holds(a, ro, ys) && |ys| == nright
      requires Tiles(spine, a, w, wo + nleft + nright, End(), ln)
      modifies Mergers(spine), w
      ensures w[..] == old(w[..wo]) + (Merged(xs, ys) + Outputs(spine)) + old(w[End()..])
      decreases ln, 2
    {
      ghost var w0 := w[..];
      Merge(nleft, nright, xs, ys);
      if rights != null {
        CollectRights(rights, spine, threshold, a, w, w0, wo, Merged(xs, ys), wo + nleft + nright, End(), ln);
      } else {
        NoSiblings(spine, a, w, wo + nleft + nright, End(), ln, Merged(xs, ys));
      }
    }

    /**
     * The spine loop of `Compute` over the runs with contents `xs0` and `ys0`:
     * while the remaining left run is longer than `threshold`, split off a
     * sibling merger for the upper halves and link it in front of `rights`.
     * `spine` lists the siblings as `rights` links them, and `xs`, `ys` are
     * what is left of the two runs.
     */
    method SpawnSiblings(threshold: nat, ghost xs0: seq<Long>, ghost ys0: seq<Long>)
        returns (rights: Merger?, nleft: nat, nright: nat,
                 ghost spine: seq<Sibling>, ghost xs: seq<Long>, ghost ys: seq<Long>)
      requires threshold >= 1 && InBounds()
      requires Holds(a, lo, xs0) && |xs0| == ln && Holds(a, ro, ys0) && |ys0| == rn
      requires Sorted(xs0) && Sorted(ys0)
      ensures nleft <= threshold && nleft <= ln && nright <= rn
      ensures Chain(spine, rights)
      ensures forall i :: 0 <= i < |spine| ==> fresh(spine[i].m)
      ensures Holds(a, lo, xs) && |xs| == nleft && Holds(a, ro, ys) && |ys| == nright
      ensures Tiles(spine, a, w, wo + nleft + nright, End(), ln)
      ensures Merged(xs, ys) + Outputs(spine) == Merged(xs0, ys0)
    {
      rights := null;
      spine := [];
      nleft, nright := ln, rn;
      xs, ys := xs0, ys0;
      while nleft > threshold
        invariant nleft <= ln && nright <= rn
        invariant Chain(spine, rights)
        invariant forall i :: 0 <= i < |spine| ==> fresh(spine[i].m)
        invariant Holds(a, lo, xs) && |xs| == nleft && Holds(a, ro, ys) && |ys| == nright
        invariant Sorted(xs) && Sorted(ys)
        invariant Tiles(spine, a, w, wo + nleft + nright, End(), ln)
        invariant Merged(xs, ys) + Outputs(spine) == Merged(xs0, ys0)
        decreases nleft
      {
        var next, lh, rh, sib := SpawnStep(threshold, rights, nleft, nright, spine, xs, ys);
        ghost var prev := spine;
        spine := [sib] + spine;
        forall i | 0 < i < |spine|
          ensures fresh(spine[i].m)
        {
          assert spine[i] == prev[i - 1];
        }
        rights, xs, ys := next, xs[..lh], ys[..rh];
        nleft, nright := lh, rh;
      }
    }

    /**
     * One step of the spine loop: halve the remaining left run `xs`, find where
     * its middle element falls in the remaining right run `ys`, and link a new
     * sibling merger for the two upper parts in front of `rights`. The merge of
     * the lower parts followed by the new spine's outputs is the merge before
     * the step.
     */
    method SpawnStep(threshold: nat, rights: Merger?, nleft: nat, nright: nat,
                     ghost spine: seq<Sibling>, ghost xs: seq<Long>, ghost ys: seq<Long>)
        returns (next: Merger, lh: nat, rh: nat, ghost sib: Sibling)
      requires threshold >= 1 && nleft > threshold && InBounds() && nleft <= ln && nright <= rn
      requires Chain(spine, rights)
      requires Holds(a, lo, xs) && |xs| == nleft && Holds(a, ro, ys) && |ys| == nright
      requires Sorted(xs) && Sorted(ys)
      requires Tiles(spine, a, w, wo + nleft + nright, End(), ln)
      ensures fresh(next) && sib.m == next && lh < nleft && rh <= nright
      ensures Chain([sib] + spine, next)
      ensures Holds(a, lo, xs[..lh]) && Holds(a, ro, ys[..rh]) && Sorted(xs[..lh]) && Sorted(ys[..rh])
      ensures Tiles([sib] + spine, a, w, wo + lh + rh, End(), ln)
      ensures Merged(xs[..lh], ys[..rh]) + Outputs([sib] + spine) == Merged(xs, ys) + Outputs(spine)
    {
      lh := nleft / 2;
      var splitIndex := lo + lh;
      var split := a[splitIndex];
      assert split == xs[lh];
      rh := SplitPoint(nright, split, ys);
      next := new Merger(a, w, splitIndex, nleft - lh, ro + rh, nright - rh, wo + lh + rh, rights);
      sib := Sibling(next, xs[lh..], ys[rh..]);
      LinkTiles(next, spine, a, w, lo, ro, wo, xs, ys, lh, rh, End(), ln);
      ChainPrepend(sib, spine);
    }

    /** A finished merger leaves its destination sorted and a permutation of its two runs. */
    lemma OutputSortedPermutation()
      requires Ready()
      ensures Sorted(Output())
      ensures multiset(Output()) == multiset(a[lo..lo + ln]) + multiset(a[ro..ro + rn])
    {
      MergedSorted(a[lo..lo + ln], a[ro..ro + rn]);
      MergedPermutes(a[lo..lo + ln], a[ro..ro + rn]);
    }

    /**
     * Runs every sibling merger of the list headed by `rt`, oldest link last,
     * unlinking each one before it runs. `spine` is the list as a sequence.
     * Where `w[start..from]` already holds `done`, `w[start..to]` ends up
     * holding `done` followed by the outputs of the siblings, and the rest of
     * `w` (`w0` outside that range) is left alone.
     */
    static method CollectRights(rt: Merger?, ghost spine: seq<Sibling>, threshold: nat,
                                ghost a: array<Long>, ghost w: array<Long>, ghost w0: seq<Long>,
                                ghost start: nat, ghost done: seq<Long>,
                                ghost from: nat, ghost to: nat, ghost bound: nat)
      requires threshold >= 1 && a != w
      requires Chain(spine, rt)
      requires Tiles(spine, a, w, from, to, bound)
      requires start <= from && |w0| == w.Length && w[..] == w0[..start] + done + w0[from..]
      modifies Mergers(spine), w
      ensures w[..] == w0[..start] + (done + Outputs(spine)) + w0[to..]
      decreases bound, 1
    {
      var cur := rt;
      ghost var i := 0;
      ghost var at := from;
      ghost var sofar := done;
      assert spine[0..] == spine;
      while cur != null
        invariant 0 <= i <= |spine| && Chain(spine[i..], cur)
        invariant from <= at && Tiles(spine[i..], a, w, at, to, bound)
        invariant w[..] == w0[..start] + sofar + w0[at..]
        invariant sofar + Outputs(spine[i..]) == done + Outputs(spine)
        decreases |spine| - i
      {
        ghost var before := w[..];
        ghost var out := Merged(spine[i].xs, spine[i].ys);
        cur := RunOne(cur, spine, i, threshold, a, w, at, to, bound);
        Splice(w0, before, w[..], start, at, spine[i].m.End(), sofar, out);
        Associate(sofar, out, Outputs(spine[i + 1..]));
        sofar := sofar + out;
        at := spine[i].m.End();
        i := i + 1;
      }
      NoSiblings(spine[i..], a, w, at, to, bound, sofar);
    }

    /**
     * One step of `CollectRights`: unlink the sibling `spine[i]` and run it.
     * Returns the sibling it was linked to.
     */
    static method RunOne(cur: Merger, ghost spine: seq<Sibling>, ghost i: nat, threshold: nat,
                         ghost a: array<Long>, ghost w: array<Long>,
                         ghost at: nat, ghost to: nat, ghost bound: nat)
        returns (following: Merger?)
      requires threshold >= 1 && a != w && i < |spine| && Chain(spine[i..], cur)
      requires Tiles(spine[i..], a, w, at, to, bound)
      modifies cur, w
      ensures Chain(spine[i + 1..], following) && cur == spine[i].m && cur.next == null
      ensures Tiles(spine[i + 1..], a, w, cur.End(), to, bound)
      ensures at <= cur.End() && w[..] == old(w[..at]) + Merged(spine[i].xs, spine[i].ys) + old(w[cur.End()..])
      ensures Outputs(spine[i..]) == Merged(spine[i].xs, spine[i].ys) + Outputs(spine[i + 1..])
      decreases bound, 0
    {
      ChainTail(spine, i, cur);
      following := cur.next;
      cur.next := null;
      TilesTail(spine, i, a, w, at, to, bound);
      spine[i].ReadyToRun();
      cur.Compute(threshold);
    }
  }

  /** A sibling merger a spine step spawns, with the contents of its two runs. */
  datatype Sibling = Sibling(m: Merger, xs: seq<Long>, ys: seq<Long>) {
    /** The runs of `m` hold `xs` and `ys`, and both are sorted. */
    ghost predicate HoldsRuns()
      reads m.a
    {
      && m.InBounds()
      && Holds(m.a, m.lo, xs) && |xs| == m.ln && Holds(m.a, m.ro, ys) && |ys| == m.rn
      && Sorted(xs) && Sorted(ys)
    }

    /** A sibling that reads its runs is ready to run and will output the merge of its contents. */
    lemma ReadyToRun()
      requires HoldsRuns()
      ensures m.Ready() && m.Output() == Merged(xs, ys)
    {
      HoldsSlice(m.a, m.lo, xs);
      HoldsSlice(m.a, m.ro, ys);
    }
  }

  /** The mergers of `spine`. */
  ghost function Mergers(spine: seq<Sibling>): set<Merger> {
    set s | s in spine :: s.m
  }

  /** No merger occurs twice in `spine`. */
  ghost predicate Distinct(spine: seq<Sibling>) {
    forall j, k :: 0 <= j < k < |spine| ==> spine[j].m != spine[k].m
  }

  /**
   * The mergers of `spine` form the `next`-linked list that starts at `head`:
   * no merger repeats and the last link is null.
   */
  ghost predicate Chain(spine: seq<Sibling>, head: Merger?)
    reads Mergers(spine)
  {
    && head == (if spine == [] then null else spine[0].m)
    && (forall j :: 0 <= j < |spine| - 1 ==> spine[j].m.next == spine[j + 1].m)
    && (spine != [] ==> spine[|spine| - 1].m.next == null)
    && Distinct(spine)
  }

  /** An empty list has no siblings: they tile nothing and output nothing. */
  lemma NoSiblings(spine: seq<Sibling>, a: array<Long>, w: array<Long>, from: nat, to: nat, bound: nat, done: seq<Long>)
    requires Chain(spine, null) && Tiles(spine, a, w, from, to, bound)
    ensures from == to && done + Outputs(spine) == done
  {
    assert spine == [];
  }

  /** Linking a new merger in front of the list keeps it a list. */
  lemma ChainPrepend(s: Sibling, spine: seq<Sibling>)
    requires Chain(spine, s.m.next) && s.m !in Mergers(spine)
    ensures Chain([s] + spine, s.m)
  {
    var t := [s] + spine;
    forall j | 0 <= j < |t| - 1
      ensures t[j].m.next == t[j + 1].m
    {
      if j > 0 {
        assert t[j] == spine[j - 1] && t[j + 1] == spine[j];
      }
    }
    forall j, k | 0 <= j < k < |t|
      ensures t[j].m != t[k].m
    {
      assert t[k] == spine[k - 1];
      if j > 0 {
        assert t[j] == spine[j - 1];
      } else {
        assert t[k] in spine;
      }
    }
  }

  /** The list without its head is the list that starts at the head's `next`, and does not contain the head. */
  lemma ChainTail(spine: seq<Sibling>, i: nat, head: Merger?)
    requires i < |spine| && Chain(spine[i..], head)
    ensures head == spine[i].m && Chain(spine[i + 1..], head.next) && head !in Mergers(spine[i + 1..])
  {
    var t := spine[i..];
    assert spine[i + 1..] == t[1..];
    assert forall s | s in t[1..] :: s.m != head by {
      forall s | s in t[1..] ensures s.m != head {
        var k :| 0 <= k < |t[1..]| && t[1..][k] == s;
        assert t[k + 1] == s;
      }
    }
  }

  /**
   * The destinations of the siblings in `spine`, in order, tile `w[from..to]`;
   * every sibling reads its runs from `a`, writes `w` and has a left run
   * shorter than `bound`.
   */
  ghost predicate Tiles(spine: seq<Sibling>, a: array<Long>, w: array<Long>, from: nat, to: nat, bound: nat)
    reads a
    decreases |spine|
  {
    && from <= to <= w.Length
    && if spine == [] then from == to
       else
         && spine[0].m.a == a && spine[0].m.w == w && spine[0].HoldsRuns() && spine[0].m.ln < bound
         && spine[0].m.wo == from
         && Tiles(spine[1..], a, w, spine[0].m.End(), to, bound)
  }

  /** The outputs of the siblings in `spine`, concatenated in destination order. */
  ghost function Outputs(spine: seq<Sibling>): seq<Long> {
    if spine == [] then [] else Merged(spine[0].xs, spine[0].ys) + Outputs(spine[1..])
  }

  /**
   * The ghost side of a spine step: the sibling `m` built from the upper parts
   * of the runs `xs` (at `lo`) and `ys` (at `ro`), cut at `lh` and at the point
   * `rh` the binary search found for `xs[lh]`, reads its runs and extends the
   * tiling downwards, and the lower parts still lie in place, sorted.
   */
  lemma LinkTiles(m: Merger, spine: seq<Sibling>, a: array<Long>, w: array<Long>,
                  lo: nat, ro: nat, wo: nat, xs: seq<Long>, ys: seq<Long>, lh: nat, rh: nat, to: nat, bound: nat)
    requires a != w && Holds(a, lo, xs) && Holds(a, ro, ys) && Sorted(xs) && Sorted(ys)
    requires lh < |xs| && rh <= |ys| && |xs| <= bound && 0 < lh
    requires forall i :: 0 <= i < rh ==> ys[i] < xs[lh]
    requires forall i :: rh <= i < |ys| ==> xs[lh] <= ys[i]
    requires m.a == a && m.w == w && m.lo == lo + lh && m.ln == |xs| - lh
    requires m.ro == ro + rh && m.rn == |ys| - rh && m.wo == wo + lh + rh
    requires Tiles(spine, a, w, wo + |xs| + |ys|, to, bound)
    ensures Tiles([Sibling(m, xs[lh..], ys[rh..])] + spine, a, w, wo + lh + rh, to, bound)
    ensures Holds(a, lo, xs[..lh]) && Holds(a, ro, ys[..rh]) && Sorted(xs[..lh]) && Sorted(ys[..rh])
    ensures Merged(xs[..lh], ys[..rh]) + Outputs([Sibling(m, xs[lh..], ys[rh..])] + spine)
         == Merged(xs, ys) + Outputs(spine)
  {
    var sib := Sibling(m, xs[lh..], ys[rh..]);
    CutRuns(xs, ys, lh, rh);
    HoldsCut(a, lo, xs, lh);
    HoldsCut(a, ro, ys, rh);
    TilesPrepend(sib, spine, a, w, wo + |xs| + |ys|, to, bound);
    Associate(Merged(xs[..lh], ys[..rh]), Merged(xs[lh..], ys[rh..]), Outputs(spine));
  }

  /** Putting a sibling whose destination ends where the tiling starts in front of it. */
  lemma TilesPrepend(s: Sibling, spine: seq<Sibling>, a: array<Long>, w: array<Long>, from: nat, to: nat, bound: nat)
    requires Tiles(spine, a, w, from, to, bound)
    requires s.m.a == a && s.m.w == w && s.HoldsRuns() && s.m.ln < bound && s.m.End() == from
    ensures Tiles([s] + spine, a, w, s.m.wo, to, bound)
    ensures Outputs([s] + spine) == Merged(s.xs, s.ys) + Outputs(spine)
  {
    assert ([s] + spine)[1..] == spine;
  }

  /** Stepping past the first sibling of `spine[i..]`. */
  lemma TilesTail(spine: seq<Sibling>, i: nat, a: array<Long>, w: array<Long>, at: nat, to: nat, bound: nat)
    requires i < |spine| && Tiles(spine[i..], a, w, at, to, bound)
    ensures Tiles(spine[i + 1..], a, w, spine[i].m.End(), to, bound)
    ensures spine[i].HoldsRuns() && spine[i].m.wo == at && spine[i].m.a == a && spine[i].m.w == w && spine[i].m.ln < bound
    ensures Outputs(spine[i..]) == Merged(spine[i].xs, spine[i].ys) + Outputs(spine[i + 1..])
  {
    assert spine[i..][1..] == spine[i + 1..];
  }

  /** Concatenation is associative. */
  lemma Associate(p: seq<Long>, q: seq<Long>, r: seq<Long>)
    ensures p + (q + r) == (p + q) + r
  {
  }

  /**
   * Writing `out` over `[at, end)` of an array that holds `done` over
   * `[from, at)` and its original contents elsewhere extends `done` by `out`.
   */
  lemma Splice(w0: seq<Long>, before: seq<Long>, after: seq<Long>, from: int, at: int, end: int,
               done: seq<Long>, out: seq<Long>)
    requires 0 <= from <= at <= end <= |w0| && |done| == at - from && |out| == end - at
    requires before == w0[..from] + done + w0[at..]
    requires after == before[..at] + out + before[end..]
    ensures after == w0[..from] + (done + out) + w0[end..]
  {
    assert before[..at] == w0[..from] + done;
    assert before[end..] == w0[end..];
  }

  /** The array range that holds `xs` is, as a slice, `xs`. */
  lemma HoldsSlice(a: array<Long>, lo: int, xs: seq<Long>)
    requires Holds(a, lo, xs)
    ensures a[lo..lo + |xs|] == xs
  {
  }

  /** Cutting held contents at `k` cuts the range that holds them there too. */
  lemma HoldsCut(a: array<Long>, lo: int, xs: seq<Long>, k: nat)
    requires Holds(a, lo, xs) && k <= |xs|
    ensures Holds(a, lo, xs[..k]) && Holds(a, lo + k, xs[k..])
  {
    assert forall d :: 0 <= d < |xs| - k ==> xs[k..][d] == xs[k + d];
  }

  /** Both parts of a sorted sequence cut at `k` are sorted. */
  lemma SortedCut(s: seq<Long>, k: nat)
    requires Sorted(s) && k <= |s|
    ensures Sorted(s[..k]) && Sorted(s[k..])
  {
    forall i, j | 0 <= i < j < |s| - k ensures s[k..][i] <= s[k..][j] {
      assert s[k..][i] == s[k + i] && s[k..][j] == s[k + j];
    }
  }

  /** Every element from index `k` on is at least `p` exactly when `s[k..]` is. */
  lemma AtLeastCut(s: seq<Long>, k: nat, p: Long)
    requires k <= |s| && forall i :: k <= i < |s| ==> p <= s[i]
    ensures AtLeast(p, s[k..])
  {
    forall d | 0 <= d < |s| - k ensures p <= s[k..][d] {
      assert s[k..][d] == s[k + d];
    }
  }

  /**
   * One spine step, on the contents of the remaining runs: cutting the sorted
   * left run `xs` at `lh` and the sorted right run `ys` where the binary search
   * put `xs[lh]` splits the merge into the merge of the lower parts followed by
   * the merge of the upper parts, and leaves all four parts sorted.
   */
  lemma CutRuns(xs: seq<Long>, ys: seq<Long>, lh: nat, rh: nat)
    requires lh < |xs| && rh <= |ys| && Sorted(xs) && Sorted(ys)
    requires forall i :: 0 <= i < rh ==> ys[i] < xs[lh]
    requires forall i :: rh <= i < |ys| ==> xs[lh] <= ys[i]
    ensures Sorted(xs[..lh]) && Sorted(ys[..rh]) && Sorted(xs[lh..]) && Sorted(ys[rh..])
    ensures Merged(xs, ys) == Merged(xs[..lh], ys[..rh]) + Merged(xs[lh..], ys[rh..])
  {
    SortedCut(xs, lh);
    SortedCut(ys, rh);
    CutBounds(xs, ys, lh, rh);
    MergedSplit(xs[..lh], xs[lh..], ys[..rh], ys[rh..], xs[lh]);
  }

  /** The four parts of a spine step, bounded by the pivot `xs[lh]`. */
  lemma CutBounds(xs: seq<Long>, ys: seq<Long>, lh: nat, rh: nat)
    requires lh < |xs| && rh <= |ys| && Sorted(xs)
    requires forall i :: 0 <= i < rh ==> ys[i] < xs[lh]
    requires forall i :: rh <= i < |ys| ==> xs[lh] <= ys[i]
    ensures AtMost(xs[..lh], xs[lh]) && AtLeast(xs[lh], xs[lh..])
    ensures Below(ys[..rh], xs[lh]) && AtLeast(xs[lh], ys[rh..])
    ensures xs[..lh] + xs[lh..] == xs && ys[..rh] + ys[rh..] == ys
  {
    AtLeastCut(xs, lh, xs[lh]);
    AtLeastCut(ys, rh, xs[lh]);
  }

  /**
   * `java.util.Arrays.sort(a, from, from + n)`, which the leaves of the sort
   * call: the range becomes its ascending permutation and nothing else changes.
   */
  method ArraysSort(a: array<Long>, from: nat, n: nat)
    requires from + n <= a.Length
    modifies a
    ensures a[..] == old(a[..from]) + Sort(old(a[from..from + n])) + old(a[from + n..])
  {
    var sorted := Sort(a[from..from + n]);
    forall k | from <= k < from + n {
      a[k] := sorted[k - from];
    }
    assert a[from..from + n] == sorted;
    Pieces(a, from, from + n);
  }

  /**
   * A task that sorts `a[origin..origin+n]`, using `w[origin..origin+n]` as
   * scratch space. Its fields never change, so it is a value.
   */
  datatype Sorter = Sorter(a: array<Long>, w: array<Long>, origin: nat, n: nat)
  {
    /** The range lies in both arrays, and the arrays differ. */
    predicate InBounds() {
      a != w && origin + n <= a.Length && origin + n <= w.Length
    }

    /**
     * Sorts the range: a range of at most `threshold` elements with
     * `Arrays.sort`, a longer one by sorting its upper half into `w`, its lower
     * half into `w`, and merging the two halves back into `a`. Afterwards the
     * range holds its ascending permutation, the rest of `a` is unchanged, and
     * `w` is changed only inside the range.
     */
    method Compute(threshold: nat)
      requires threshold >= 1 && InBounds()
      modifies a, w
      ensures a[..] == old(a[..origin]) + Sort(old(a[origin..origin + n])) + old(a[origin + n..])
      ensures w[..origin] == old(w[..origin]) && w[origin + n..] == old(w[origin + n..])
      decreases n, 4
    {
      if n <= threshold {
        ArraysSort(a, origin, n);
      } else {
        SortQuarters(threshold);
      }
    }

    /**
     * The divide step of `Compute`, for a range longer than `threshold`: the
     * upper half of the range is sorted into `w` (the forked `SubSorter`),
     * then the lower half, and the two sorted halves of `w` are merged back
     * into `a`.
     */
    method SortQuarters(threshold: nat)
      requires threshold >= 1 && InBounds() && n > threshold
      modifies a, w
      ensures a[..] == old(a[..origin]) + Sort(old(a[origin..origin + n])) + old(a[origin + n..])
      ensures w[..origin] == old(w[..origin]) && w[origin + n..] == old(w[origin + n..])
      decreases n, 3
    {
      ghost var a0, w0 := a[..], w[..];
      SortUpperHalf(threshold);
      SortLowerAndMerge(threshold, a0, w0);
    }

    /** The rest of `SortQuarters` once the upper half is sorted into `w`. */
    method SortLowerAndMerge(threshold: nat, ghost a0: seq<Long>, ghost w0: seq<Long>)
      requires threshold >= 1 && InBounds() && n > threshold && |a0| == a.Length && |w0| == w.Length
      requires a[..origin + n / 2] == a0[..origin + n / 2] && a[origin + n..] == a0[origin + n..]
      requires w[..] == w0[..origin + n / 2] + Sort(a0[origin + n / 2..origin + n]) + w0[origin + n..]
      modifies a, w
      ensures a[..] == a0[..origin] + Sort(a0[origin..origin + n]) + a0[origin + n..]
      ensures w[..origin] == w0[..origin] && w[origin + n..] == w0[origin + n..]
      decreases n, 2
    {
      ghost var a1, w1 := a[..], w[..];
      SortLowerHalf(threshold);
      MergeBack(threshold, a0, a1, w0, w1);
    }

    /** The last step of `SortQuarters`: merge the two sorted halves of `w` back into `a`. */
    method MergeBack(threshold: nat, ghost a0: seq<Long>, ghost a1: seq<Long>, ghost w0: seq<Long>, ghost w1: seq<Long>)
      requires threshold >= 1 && InBounds() && n > threshold && |a0| == a.Length && |a1| == a.Length && |w0| == w.Length
      requires a1[..origin + n / 2] == a0[..origin + n / 2] && a1[origin + n..] == a0[origin + n..]
      requires w1 == w0[..origin + n / 2] + Sort(a0[origin + n / 2..origin + n]) + w0[origin + n..]
      requires a[..origin] == a1[..origin] && a[origin + n / 2..] == a1[origin + n / 2..]
      requires w[..] == w1[..origin] + Sort(a1[origin..origin + n / 2]) + w1[origin + n / 2..]
      modifies a
      ensures a[..] == a0[..origin] + Sort(a0[origin..origin + n]) + a0[origin + n..]
      ensures w[..origin] == w0[..origin] && w[origin + n..] == w0[origin + n..]
    {
      MergeBackStart(a0, a1, a[..], w0, w1, w[..], origin, n / 2, n);
      MergeHalves(threshold, a0, w0);
    }

    /** `MergeBack` once the two halves of `a0[origin..origin+n]` are sorted in `w`. */
    method MergeHalves(threshold: nat, ghost a0: seq<Long>, ghost w0: seq<Long>)
      requires threshold >= 1 && InBounds() && |a0| == a.Length && |w0| == w.Length
      requires a[..origin] == a0[..origin] && a[origin + n..] == a0[origin + n..]
      requires w[..origin] == w0[..origin] && w[origin + n..] == w0[origin + n..]
      requires w[origin..origin + n / 2] == Sort(a0[origin..origin + n][..n / 2])
      requires w[origin + n / 2..origin + n] == Sort(a0[origin..origin + n][n / 2..])
      modifies a
      ensures a[..] == a0[..origin] + Sort(a0[origin..origin + n]) + a0[origin + n..]
      ensures w[..origin] == w0[..origin] && w[origin + n..] == w0[origin + n..]
    {
      var l, h := origin, n / 2;
      assert l + h + (n - h) == l + n;
      NewMerger(w, a, l, h, l + h, n - h, l, threshold, a0[l..l + n]);
    }

    /**
     * The forked `SubSorter` for the upper half: it sorts the third and fourth
     * quarters in `a` and merges them into the upper half of `w`. The lower
     * half of `a` is untouched.
     */
    method SortUpperHalf(threshold: nat)
      requires threshold >= 1 && InBounds() && n > threshold
      modifies a, w
      ensures a[..origin + n / 2] == old(a[..origin + n / 2]) && a[origin + n..] == old(a[origin + n..])
      ensures w[..] == old(w[..origin + n / 2]) + Sort(old(a[origin + n / 2..origin + n])) + old(w[origin + n..])
      decreases n, 1
    {
      var qs := Quarters();
      var merger := new Merger(a, w, qs[2].origin, qs[2].n, qs[3].origin, qs[3].n, qs[2].origin, null);
      SubSorter(qs[2], qs[3], merger).Compute(threshold);
    }

    /**
     * The lower half of the divide step: sort the second quarter (the forked
     * `rl`) and the first quarter in `a`, then merge them into the lower half of
     * `w`. These are the steps of a `SubSorter` for the two quarters, written
     * out inline in the source. The upper half of `a` is untouched.
     */
    method SortLowerHalf(threshold: nat)
      requires threshold >= 1 && InBounds() && n > threshold
      modifies a, w
      ensures a[..origin] == old(a[..origin]) && a[origin + n / 2..] == old(a[origin + n / 2..])
      ensures w[..] == old(w[..origin]) + Sort(old(a[origin..origin + n / 2])) + old(w[origin + n / 2..])
      decreases n, 1
    {
      var qs := Quarters();
      var lm := new Merger(a, w, qs[0].origin, qs[0].n, qs[1].origin, qs[1].n, qs[0].origin, null);
      SubSorter(qs[0], qs[1], lm).Compute(threshold);
    }

    /**
     * The four quarters of the divide step, with `h = n >>> 1`, `q = n >>> 2`
     * and `u = h + q`: `[l, l+q)`, `[l+q, l+h)`, `[l+h, l+u)` and `[l+u, l+n)`
     * for `l = origin`. They tile the range in order, the upper two make up its
     * upper half, and each is shorter than the range once it has two elements.
     */
    function Quarters(): (qs: seq<Sorter>)
      ensures |qs| == 4 && forall i :: 0 <= i < 4 ==> qs[i].a == a && qs[i].w == w && (n >= 2 ==> qs[i].n < n)
      ensures qs[0].origin == origin && qs[0].origin + qs[0].n == qs[1].origin
      ensures qs[1].origin + qs[1].n == qs[2].origin && qs[2].origin == origin + n / 2
      ensures qs[2].origin + qs[2].n == qs[3].origin && qs[3].origin + qs[3].n == origin + n
    {
      var h, q := n / 2, n / 4;
      var u := h + q;
      [Sorter(a, w, origin, q), Sorter(a, w, origin + q, h - q), Sorter(a, w, origin + h, q), Sorter(a, w, origin + u, n - u)]
    }
  }

  /**
   * `Merger.compute` on the two halves of `whole` once each has been sorted:
   * `w` over the merger's output range then holds the sort of `whole`.
   */
  method MergeSorted(m: Merger, threshold: nat, ghost whole: seq<Long>, ghost k: nat)
    requires threshold >= 1 && m.InBounds() && k <= |whole|
    requires m.a[m.lo..m.lo + m.ln] == Sort(whole[..k]) && m.a[m.ro..m.ro + m.rn] == Sort(whole[k..])
    modifies m.w
    ensures m.w[..] == old(m.w[..m.wo]) + Sort(whole) + old(m.w[m.End()..])
  {
    SortSorts(whole[..k]);
    SortSorts(whole[k..]);
    m.Compute(threshold);
    MergedHalves(whole, k);
  }

  /**
   * `(new Merger(a, w, lo, ln, ro, rn, wo, null)).compute()` on the two
   * adjacent halves of `whole`, each already sorted: afterwards `w` over the
   * output range holds the sort of `whole`, and nothing else in `w` changes.
   */
  method NewMerger(a: array<Long>, w: array<Long>, lo: nat, ln: nat, ro: nat, rn: nat, wo: nat,
                   threshold: nat, ghost whole: seq<Long>)
    requires threshold >= 1 && a != w && lo + ln <= a.Length && ro + rn <= a.Length && wo + ln + rn <= w.Length
    requires |whole| == ln + rn && a[lo..lo + ln] == Sort(whole[..ln]) && a[ro..ro + rn] == Sort(whole[ln..])
    modifies w
    ensures w[..] == old(w[..wo]) + Sort(whole) + old(w[wo + ln + rn..])
  {
    var m := new Merger(a, w, lo, ln, ro, rn, wo, null);
    MergeSorted(m, threshold, whole, ln);
  }

  /**
   * Sorting `src[mid..hi]` into `dst` and then `src[lo..mid]` into `dst`
   * (while `src` below `mid` stays as it was) leaves `dst` outside `[lo, hi)`
   * alone and two sorted runs in it whose merge is the sort of `src[lo..hi]`.
   */
  lemma SortedRunsOf(src0: seq<Long>, src1: seq<Long>, dst0: seq<Long>, dst1: seq<Long>, dst2: seq<Long>,
                     lo: nat, mid: nat, hi: nat)
    requires lo <= mid <= hi <= |src0| && hi <= |dst0| && mid <= |src1| && src1[..mid] == src0[..mid]
    requires dst1 == dst0[..mid] + Sort(src0[mid..hi]) + dst0[hi..]
    requires dst2 == dst1[..lo] + Sort(src1[lo..mid]) + dst1[mid..]
    ensures |dst2| == |dst0| && dst2[..lo] == dst0[..lo] && dst2[hi..] == dst0[hi..]
    ensures dst2[lo..mid] == Sort(src0[lo..hi][..mid - lo]) && dst2[mid..hi] == Sort(src0[lo..hi][mid - lo..])
  {
    Written(dst0, mid, Sort(src0[mid..hi]), dst1);
    Written(dst1, lo, Sort(src1[lo..mid]), dst2);
    RangeOfSuffix(dst2, dst1, mid, mid, hi);
    RangeOfPrefix(src1, src0, lo, mid, mid);
    Untouched(dst0, dst1, dst2, lo, mid, hi);
    SliceOfSlice(src0, lo, hi, 0, mid - lo);
    SliceOfSlice(src0, lo, hi, mid - lo, hi - lo);
  }

  /**
   * The state `MergeBack` starts from, read as the two sorted halves of
   * `a0[l..l+n]` in `w`, with `a` and `w` unchanged outside the range.
   */
  lemma MergeBackStart(a0: seq<Long>, a1: seq<Long>, a2: seq<Long>, w0: seq<Long>, w1: seq<Long>, w2: seq<Long>,
                       l: nat, h: nat, n: nat)
    requires h <= n && l + n <= |a0| && |a1| == |a0| && |a2| == |a0| && l + n <= |w0|
    requires a1[..l + h] == a0[..l + h] && a1[l + n..] == a0[l + n..]
    requires w1 == w0[..l + h] + Sort(a0[l + h..l + n]) + w0[l + n..]
    requires a2[..l] == a1[..l] && a2[l + h..] == a1[l + h..]
    requires w2 == w1[..l] + Sort(a1[l..l + h]) + w1[l + h..]
    ensures a2[..l] == a0[..l] && a2[l + n..] == a0[l + n..]
    ensures |w2| == |w0| && w2[..l] == w0[..l] && w2[l + n..] == w0[l + n..]
    ensures w2[l..l + h] == Sort(a0[l..l + n][..h]) && w2[l + h..l + n] == Sort(a0[l..l + n][h..])
  {
    HalvesSorted(a0, a1, w0, w1, w2, l, h, n);
    Untouched(a0, a1, a2, l, l + h, l + n);
  }

  /** `SortedRunsOf` for the halves `[l, l+h)` and `[l+h, l+n)` of a range of length `n`. */
  lemma HalvesSorted(a0: seq<Long>, a1: seq<Long>, w0: seq<Long>, w1: seq<Long>, w2: seq<Long>, l: nat, h: nat, n: nat)
    requires h <= n && l + n <= |a0| && l + n <= |w0| && l + h <= |a1| && a1[..l + h] == a0[..l + h]
    requires w1 == w0[..l + h] + Sort(a0[l + h..l + n]) + w0[l + n..]
    requires w2 == w1[..l] + Sort(a1[l..l + h]) + w1[l + h..]
    ensures |w2| == |w0| && w2[..l] == w0[..l] && w2[l + n..] == w0[l + n..]
    ensures w2[l..l + h] == Sort(a0[l..l + n][..h]) && w2[l + h..l + n] == Sort(a0[l..l + n][h..])
  {
    SortedRunsOf(a0, a1, w0, w1, w2, l, l + h, l + n);
    assert l + h - l == h;
  }

  /** `SortedRunsOf` where the runs are sorted in place. */
  lemma SortedRunsInPlace(s0: seq<Long>, s1: seq<Long>, s2: seq<Long>, lo: nat, mid: nat, hi: nat)
    requires lo <= mid <= hi <= |s0|
    requires s1 == s0[..mid] + Sort(s0[mid..hi]) + s0[hi..]
    requires s2 == s1[..lo] + Sort(s1[lo..mid]) + s1[mid..]
    ensures |s2| == |s0| && s2[..lo] == s0[..lo] && s2[hi..] == s0[hi..]
    ensures s2[lo..mid] == Sort(s0[lo..hi][..mid - lo]) && s2[mid..hi] == Sort(s0[lo..hi][mid - lo..])
  {
    Written(s0, mid, Sort(s0[mid..hi]), s1);
    SortedRunsOf(s0, s1, s0, s1, s2, lo, mid, hi);
  }

  /**
   * A task that sorts two adjacent ranges in `a` (`right` first, as the fork
   * runs it) and then merges them into `w` with `merger`.
   */
  datatype SubSorter = SubSorter(left: Sorter, right: Sorter, merger: Merger)
  {
    /**
     * The three tasks share the arrays, the two ranges are adjacent, and the
     * merger merges exactly them into the same place in `w`.
     */
    predicate Valid() {
      && left.InBounds() && right.InBounds()
      && right.a == left.a && right.w == left.w && merger.a == left.a && merger.w == left.w
      && right.origin == left.origin + left.n
      && merger.lo == left.origin && merger.ln == left.n
      && merger.ro == right.origin && merger.rn == right.n && merger.wo == left.origin
    }

    /**
     * Sorts both ranges and merges them: `w` over the two ranges then holds
     * their ascending permutation, `a` outside them is unchanged, and `w`
     * outside them is unchanged.
     */
    method Compute(threshold: nat)
      requires threshold >= 1 && Valid()
      modifies left.a, left.w
      ensures left.a[..left.origin] == old(left.a[..left.origin])
      ensures left.a[right.origin + right.n..] == old(left.a[right.origin + right.n..])
      ensures left.w[..] == old(left.w[..left.origin]) + Sort(old(left.a[left.origin..right.origin + right.n]))
                          + old(left.w[right.origin + right.n..])
      decreases left.n + right.n, 6
    {
      ghost var a0, w0 := left.a[..], left.w[..];
      right.Compute(threshold);
      SortLeftAndMerge(threshold, a0, w0);
    }

    /** The rest of `Compute` once `right` is sorted: sort `left`, then run `merger`. */
    method SortLeftAndMerge(threshold: nat, ghost a0: seq<Long>, ghost w0: seq<Long>)
      requires threshold >= 1 && Valid() && |a0| == left.a.Length && |w0| == left.w.Length
      requires left.a[..] == a0[..right.origin] + Sort(a0[right.origin..right.origin + right.n]) + a0[right.origin + right.n..]
      requires left.w[..right.origin] == w0[..right.origin] && left.w[right.origin + right.n..] == w0[right.origin + right.n..]
      modifies left.a, left.w
      ensures left.a[..left.origin] == a0[..left.origin]
      ensures left.a[right.origin + right.n..] == a0[right.origin + right.n..]
      ensures left.w[..] == w0[..left.origin] + Sort(a0[left.origin..right.origin + right.n]) + w0[right.origin + right.n..]
      decreases left.n + right.n, 5
    {
      var a, w := left.a, left.w;
      var lo, mid, hi := left.origin, right.origin, right.origin + right.n;
      ghost var a1, w1 := a[..], w[..];
      left.Compute(threshold);
      ghost var w2 := w[..];
      Untouched(w0, w1, w2, lo, mid, hi);
      RunMerger(threshold, a0, a1, w0);
    }

    /** The last step of `Compute`, once both ranges are sorted: run `merger`. */
    method RunMerger(threshold: nat, ghost a0: seq<Long>, ghost a1: seq<Long>, ghost w0: seq<Long>)
      requires threshold >= 1 && Valid() && |a0| == left.a.Length && |w0| == left.w.Length
      requires a1 == a0[..right.origin] + Sort(a0[right.origin..right.origin + right.n]) + a0[right.origin + right.n..]
      requires left.a[..] == a1[..left.origin] + Sort(a1[left.origin..right.origin]) + a1[right.origin..]
      requires left.w[..left.origin] == w0[..left.origin] && left.w[right.origin + right.n..] == w0[right.origin + right.n..]
      modifies left.w
      ensures left.a[..left.origin] == a0[..left.origin]
      ensures left.a[right.origin + right.n..] == a0[right.origin + right.n..]
      ensures left.w[..] == w0[..left.origin] + Sort(a0[left.origin..right.origin + right.n]) + w0[right.origin + right.n..]
    {
      var lo, mid, hi := left.origin, right.origin, right.origin + right.n;
      SortedRunsInPlace(a0, a1, left.a[..], lo, mid, hi);
      assert merger.lo + merger.ln == mid && merger.ro + merger.rn == hi && merger.End() == hi;
      MergeSorted(merger, threshold, a0[lo..hi], mid - lo);
    }
  }

  /** What `checkSorted` does: return normally, or throw the `Error` that names the first pair out of order. */
  datatype CheckOutcome = InOrder | Unsorted(at: nat, x: Long, y: Long)

  /** Every element is at most the next one. */
  ghost predicate AdjacentInOrder(s: seq<Long>) {
    forall i :: 0 <= i < |s| - 1 ==> s[i] <= s[i + 1]
  }

  /** Order between neighbours carries over to any two positions. */
  lemma {:induction false} AdjacentChain(s: seq<Long>, i: nat, j: nat)
    requires AdjacentInOrder(s) && i <= j < |s|
    ensures s[i] <= s[j]
    decreases j - i
  {
    if i < j {
      AdjacentChain(s, i + 1, j);
    }
  }

  /** A sequence is sorted exactly when each neighbouring pair is in order. */
  lemma AdjacentSorted(s: seq<Long>)
    ensures AdjacentInOrder(s) <==> Sorted(s)
  {
    if AdjacentInOrder(s) {
      forall i, j | 0 <= i < j < |s|
        ensures s[i] <= s[j]
      {
        AdjacentChain(s, i, j);
      }
    }
  }

  /**
   * `checkSorted`: walk the neighbouring pairs of `a` from the left and stop
   * at the first one out of order. It throws exactly when `a` is not sorted,
   * and then names that first pair.
   */
  method CheckSorted(a: array<Long>) returns (r: CheckOutcome)
    ensures r == InOrder <==> Sorted(a[..])
    ensures r.Unsorted? ==> r.at + 1 < a.Length && r.x == a[r.at] && r.y == a[r.at + 1] && r.x > r.y
    ensures r.Unsorted? ==> forall i :: 0 <= i < r.at ==> a[i] <= a[i + 1]
  {
    var n := a.Length;
    var i := 0;
    while i < n - 1
      invariant 0 <= i <= n
      invariant forall k :: 0 <= k < i && k + 1 < n ==> a[k] <= a[k + 1]
    {
      if a[i] > a[i + 1] {
        return Unsorted(i, a[i], a[i + 1]);
      }
      i := i + 1;
    }
    AdjacentSorted(a[..]);
    return InOrder;
  }

  /**
   * `(lo + hi) >>> 1`: the `int` sum may wrap to a negative number, but the
   * unsigned shift reads it back as the true sum, so the midpoint is exact for
   * every pair of array indices.
   */
  function Midpoint(lo: nat, hi: nat): (mid: nat)
    requires lo <= hi <= INT_MAX
    ensures mid == (lo + hi) / 2
    ensures lo <= mid <= hi && mid - lo == (hi - lo) / 2
    ensures hi - lo >= 2 ==> lo < mid < hi
  {
    UnsignedWrap(lo + hi);
    Unsigned32(Wrap32(lo + hi)) / 2
  }

  /**
   * A task that fills `array[lo..hi]` with random numbers. The numbers drawn
   * are not modelled: the one stored at index `i` is `values[i]`.
   */
  datatype RandomFiller = RandomFiller(a: array<Long>, lo: nat, hi: nat)
  {
    /** The range lies in the array, whose length is a Java `int`. */
    predicate InBounds() {
      lo <= hi <= a.Length <= INT_MAX
    }

    /**
     * Fills a range of at most `threshold` elements directly, and a longer one
     * by filling its upper half (the forked task) and then its lower half.
     * Afterwards the range holds `values` and the rest of the array is unchanged.
     */
    method Compute(threshold: nat, values: seq<Long>)
      requires threshold >= 1 && InBounds() && |values| == a.Length
      modifies a
      ensures forall k :: 0 <= k < a.Length ==> a[k] == if lo <= k < hi then values[k] else old(a[k])
      decreases hi - lo
    {
      if hi - lo <= threshold {
        FillLeaf(values);
      } else {
        var mid := Midpoint(lo, hi);
        RandomFiller(a, mid, hi).Compute(threshold, values);
        RandomFiller(a, lo, mid).Compute(threshold, values);
      }
    }

    /** The leaf loop: store the next value at each index of the range in turn. */
    method FillLeaf(values: seq<Long>)
      requires InBounds() && |values| == a.Length
      modifies a
      ensures forall k :: 0 <= k < a.Length ==> a[k] == if lo <= k < hi then values[k] else old(a[k])
    {
      var i := lo;
      while i < hi
        invariant lo <= i <= hi
        invariant forall k :: 0 <= k < a.Length ==> a[k] == if lo <= k < i then values[k] else old(a[k])
      {
        a[i] := values[i];
        i := i + 1;
      }
    }
  }

  /**
   * The value `main` gives `THRESHOLD`: the requested `st` when it is
   * positive, and otherwise `1 + ((n + 7) >>> 3) / parallelism`, which makes
   * about eight leaf tasks per worker. It is always at least 1, and the
   * unsigned shift keeps the rounded-up `n / 8` exact even where `n + 7`
   * overflows an `int`.
   */
  function ChooseThreshold(n: nat, parallelism: nat, st: Int): (t: Int)
    requires n <= INT_MAX && 1 <= parallelism <= INT_MAX
    ensures t >= 1
    ensures st > 0 ==> t == st
    ensures st <= 0 ==> t as int == 1 + (n + 7) / 8 / parallelism
  {
    if st <= 0 then
      var eighth := Unsigned32(Wrap32(n + 7)) / 8;
      UnsignedWrap(n + 7);
      QuotientAtMost(eighth, parallelism);
      var t := 1 + eighth / parallelism;
      assert 1 <= t <= INT_MAX;
      t as Int
    else
      st
  }

  /** Dividing by a positive number does not make a natural number larger. */
  lemma QuotientAtMost(x: nat, d: nat)
    requires d >= 1
    ensures 0 <= x / d <= x
  {
    var q := x / d;
    assert q * d + x % d == x;
    MultipleAtLeast(q, d);
  }

  /** A positive multiple of a natural number is at least that number. */
  lemma {:induction false} MultipleAtLeast(q: nat, d: nat)
    requires d >= 1
    ensures q * d >= q
    decreases d
  {
    if d > 1 {
      MultipleAtLeast(q, d - 1);
      assert q * d == q * (d - 1) + q;
    }
  }

  /**
   * `pool.invoke(new Sorter(a, new long[n], 0, n))`: the whole array becomes
   * its ascending permutation.
   */
  method SortArray(a: array<Long>, threshold: nat)
    requires threshold >= 1
    modifies a
    ensures a[..] == Sort(old(a[..]))
    ensures Sorted(a[..]) && multiset(a[..]) == multiset(old(a[..]))
  {
    var w := new Long[a.Length](_ => 0);
    Sorter(a, w, 0, a.Length).Compute(threshold);
    assert old(a[..])[0..a.Length] == old(a[..]);
    SortSorts(old(a[..]));
  }

  /**
   * One replication of the timed loop in `main`: fill the array, sort it and
   * check it. The check never throws.
   */
  method Replication(a: array<Long>, threshold: nat, values: seq<Long>) returns (outcome: CheckOutcome)
    requires threshold >= 1 && a.Length <= INT_MAX && |values| == a.Length
    modifies a
    ensures a[..] == Sort(values) && outcome == InOrder
  {
    RandomFiller(a, 0, a.Length).Compute(threshold, values);
    assert a[..] == values;
    SortArray(a, threshold);
    outcome := CheckSorted(a);
  }
}
