/**
 * The reference definitions the sort is proved against: ascending order, the
 * two-pointer merge of two runs (ties taken from the left run), and a plain
 * insertion sort that stands for "the sorted permutation" of a sequence.
 */
module Sorting {
  import opened JavaNumerics

  /** Every element is at most every later one. */
  ghost predicate Sorted(s: seq<Long>) {
    forall i, j :: 0 <= i < j < |s| ==> s[i] <= s[j]
  }

  /** Every element of `s` is at least `x`. */
  ghost predicate AtLeast(x: Long, s: seq<Long>) {
    forall i :: 0 <= i < |s| ==> x <= s[i]
  }

  lemma SortedCons(x: Long, s: seq<Long>)
    requires Sorted(s) && AtLeast(x, s)
    ensures Sorted([x] + s)
  {
  }

  /** A lower bound of two multisets' elements is one of a sequence holding exactly those elements. */
  lemma AtLeastOfMultiset(x: Long, s: seq<Long>, t: seq<Long>, u: seq<Long>)
    requires multiset(s) == multiset(t) + multiset(u)
    requires AtLeast(x, t) && AtLeast(x, u)
    ensures AtLeast(x, s)
  {
    forall i | 0 <= i < |s| ensures x <= s[i] {
      assert s[i] in multiset(s);
      assert s[i] in t || s[i] in u;
    }
  }

  /**
   * The two-pointer merge of `xs` and `ys`: at every step the smaller head is
   * taken, and on equal heads the head of the left run `xs`.
   */
  function Merged(xs: seq<Long>, ys: seq<Long>): (r: seq<Long>)
    ensures |r| == |xs| + |ys|
    decreases |xs| + |ys|
  {
    if |xs| == 0 then ys
    else if |ys| == 0 then xs
    else if xs[0] <= ys[0] then [xs[0]] + Merged(xs[1..], ys)
    else [ys[0]] + Merged(xs, ys[1..])
  }

  /** The merge neither loses, duplicates nor invents an element. */
  lemma {:induction false} MergedPermutes(xs: seq<Long>, ys: seq<Long>)
    ensures multiset(Merged(xs, ys)) == multiset(xs) + multiset(ys)
    decreases |xs| + |ys|
  {
    if xs != [] && ys != [] {
      if xs[0] <= ys[0] {
        var rest := Merged(xs[1..], ys);
        MergedPermutes(xs[1..], ys);
        assert Merged(xs, ys) == [xs[0]] + rest;
        assert xs == [xs[0]] + xs[1..];
        assert multiset([xs[0]] + rest) == multiset{xs[0]} + multiset(rest);
      } else {
        var rest := Merged(xs, ys[1..]);
        MergedPermutes(xs, ys[1..]);
        assert Merged(xs, ys) == [ys[0]] + rest;
        assert ys == [ys[0]] + ys[1..];
        assert multiset([ys[0]] + rest) == multiset{ys[0]} + multiset(rest);
      }
    }
  }

  /** Merging two sorted runs gives a sorted run. */
  lemma {:induction false} MergedSorted(xs: seq<Long>, ys: seq<Long>)
    requires Sorted(xs) && Sorted(ys)
    ensures Sorted(Merged(xs, ys))
    decreases |xs| + |ys|
  {
    if xs != [] && ys != [] {
      if xs[0] <= ys[0] {
        var rest := Merged(xs[1..], ys);
        MergedSorted(xs[1..], ys);
        MergedPermutes(xs[1..], ys);
        AtLeastOfMultiset(xs[0], rest, xs[1..], ys);
        SortedCons(xs[0], rest);
      } else {
        var rest := Merged(xs, ys[1..]);
        MergedSorted(xs, ys[1..]);
        MergedPermutes(xs, ys[1..]);
        AtLeastOfMultiset(ys[0], rest, xs, ys[1..]);
        SortedCons(ys[0], rest);
      }
    }
  }

  /** The merge takes the head of the left run when it is not above the head of the right run. */
  lemma MergedTakesLeft(xs: seq<Long>, ys: seq<Long>)
    requires xs != [] && (ys == [] || xs[0] <= ys[0])
    ensures Merged(xs, ys) == [xs[0]] + Merged(xs[1..], ys)
  {
    if ys == [] {
      assert xs == [xs[0]] + xs[1..];
    }
  }

  /** The merge takes the head of the right run when it is strictly below the head of the left run. */
  lemma MergedTakesRight(xs: seq<Long>, ys: seq<Long>)
    requires ys != [] && (xs == [] || ys[0] < xs[0])
    ensures Merged(xs, ys) == [ys[0]] + Merged(xs, ys[1..])
  {
    if xs == [] {
      assert ys == [ys[0]] + ys[1..];
    }
  }

  /** Every element of `s` is at most `x`. */
  ghost predicate AtMost(s: seq<Long>, x: Long) {
    forall i :: 0 <= i < |s| ==> s[i] <= x
  }

  /** Every element of `s` is strictly below `x`. */
  ghost predicate Below(s: seq<Long>, x: Long) {
    forall i :: 0 <= i < |s| ==> s[i] < x
  }

  /**
   * Cutting both runs at one pivot `p` cuts their merge there too: when the left
   * run is cut into `xs1 <= p <= xs2` and the right run into `ys1 < p <= ys2`,
   * the merge is the merge of the lower pieces followed by the merge of the upper
   * pieces. The strict `<` on the right run is the tie-break: a right element
   * equal to the pivot must follow the left elements equal to it, so it belongs
   * to the upper piece.
   */
  lemma {:induction false} MergedSplit(xs1: seq<Long>, xs2: seq<Long>, ys1: seq<Long>, ys2: seq<Long>, p: Long)
    requires AtMost(xs1, p) && AtLeast(p, xs2)
    requires Below(ys1, p) && AtLeast(p, ys2)
    ensures Merged(xs1 + xs2, ys1 + ys2) == Merged(xs1, ys1) + Merged(xs2, ys2)
    decreases |xs1| + |ys1|, 1
  {
    if xs1 == [] && ys1 == [] {
      assert xs1 + xs2 == xs2 && ys1 + ys2 == ys2;
    } else if xs1 != [] && (ys1 == [] || xs1[0] <= ys1[0]) {
      MergedSplitLeftHead(xs1, xs2, ys1, ys2, p);
    } else {
      MergedSplitRightHead(xs1, xs2, ys1, ys2, p);
    }
  }

  /** MergedSplit when the head of `xs1` is taken first, on both sides. */
  lemma {:induction false} MergedSplitLeftHead(xs1: seq<Long>, xs2: seq<Long>, ys1: seq<Long>, ys2: seq<Long>, p: Long)
    requires AtMost(xs1, p) && AtLeast(p, xs2)
    requires Below(ys1, p) && AtLeast(p, ys2)
    requires xs1 != [] && (ys1 == [] || xs1[0] <= ys1[0])
    ensures Merged(xs1 + xs2, ys1 + ys2) == Merged(xs1, ys1) + Merged(xs2, ys2)
    decreases |xs1| + |ys1|, 0
  {
    var h, u, v := xs1[0], Merged(xs1[1..], ys1), Merged(xs2, ys2);
    calc {
      Merged(xs1 + xs2, ys1 + ys2);
      { PiecesTakeLeft(xs1, xs2, ys1, ys2, p); }
      [h] + Merged(xs1[1..] + xs2, ys1 + ys2);
      { AtMostTail(xs1, p); MergedSplit(xs1[1..], xs2, ys1, ys2, p); }
      [h] + (u + v);
      ([h] + u) + v;
      { MergedTakesLeft(xs1, ys1); }
      Merged(xs1, ys1) + v;
    }
  }

  /** MergedSplit when the head of `ys1` is taken first, on both sides. */
  lemma {:induction false} MergedSplitRightHead(xs1: seq<Long>, xs2: seq<Long>, ys1: seq<Long>, ys2: seq<Long>, p: Long)
    requires AtMost(xs1, p) && AtLeast(p, xs2)
    requires Below(ys1, p) && AtLeast(p, ys2)
    requires ys1 != [] && (xs1 == [] || ys1[0] < xs1[0])
    ensures Merged(xs1 + xs2, ys1 + ys2) == Merged(xs1, ys1) + Merged(xs2, ys2)
    decreases |xs1| + |ys1|, 0
  {
    var h, u, v := ys1[0], Merged(xs1, ys1[1..]), Merged(xs2, ys2);
    calc {
      Merged(xs1 + xs2, ys1 + ys2);
      { PiecesTakeRight(xs1, xs2, ys1, ys2, p); }
      [h] + Merged(xs1 + xs2, ys1[1..] + ys2);
      { BelowTail(ys1, p); MergedSplit(xs1, xs2, ys1[1..], ys2, p); }
      [h] + (u + v);
      ([h] + u) + v;
      { MergedTakesRight(xs1, ys1); }
      Merged(xs1, ys1) + v;
    }
  }

  lemma AtMostTail(s: seq<Long>, p: Long)
    requires s != [] && AtMost(s, p)
    ensures AtMost(s[1..], p)
  {
  }

  lemma BelowTail(s: seq<Long>, p: Long)
    requires s != [] && Below(s, p)
    ensures Below(s[1..], p)
  {
  }

  /** With the pieces cut at `p`, the head of `xs1` is the first element of the whole merge. */
  lemma PiecesTakeLeft(xs1: seq<Long>, xs2: seq<Long>, ys1: seq<Long>, ys2: seq<Long>, p: Long)
    requires AtMost(xs1, p) && AtLeast(p, ys2)
    requires xs1 != [] && (ys1 == [] || xs1[0] <= ys1[0])
    ensures Merged(xs1 + xs2, ys1 + ys2) == [xs1[0]] + Merged(xs1[1..] + xs2, ys1 + ys2)
  {
    var xs, ys := xs1 + xs2, ys1 + ys2;
    assert xs[0] == xs1[0] && xs[1..] == xs1[1..] + xs2;
    assert ys == [] || xs[0] <= ys[0] by {
      if ys1 == [] && ys2 != [] {
        assert ys[0] == ys2[0];
      }
    }
    MergedTakesLeft(xs, ys);
  }

  /** With the pieces cut at `p`, the head of `ys1` is the first element of the whole merge. */
  lemma PiecesTakeRight(xs1: seq<Long>, xs2: seq<Long>, ys1: seq<Long>, ys2: seq<Long>, p: Long)
    requires Below(ys1, p) && AtLeast(p, xs2)
    requires ys1 != [] && (xs1 == [] || ys1[0] < xs1[0])
    ensures Merged(xs1 + xs2, ys1 + ys2) == [ys1[0]] + Merged(xs1 + xs2, ys1[1..] + ys2)
  {
    var xs, ys := xs1 + xs2, ys1 + ys2;
    assert ys[0] == ys1[0] && ys[1..] == ys1[1..] + ys2;
    assert xs == [] || ys[0] < xs[0] by {
      if xs1 == [] && xs2 != [] {
        assert xs[0] == xs2[0];
      }
    }
    MergedTakesRight(xs, ys);
  }

  /** `x` placed into the sorted `s` before the first element not below it. */
  function Insert(x: Long, s: seq<Long>): (r: seq<Long>)
    ensures |r| == |s| + 1
  {
    if s == [] || x <= s[0] then [x] + s else [s[0]] + Insert(x, s[1..])
  }

  /** Inserting adds exactly `x`, and into a sorted sequence it keeps it sorted. */
  lemma InsertKeeps(x: Long, s: seq<Long>)
    ensures multiset(Insert(x, s)) == multiset(s) + multiset{x}
    ensures Sorted(s) ==> Sorted(Insert(x, s))
  {
    InsertPermutes(x, s);
    if Sorted(s) {
      InsertSorted(x, s);
    }
  }

  /** Inserting adds exactly `x`. */
  lemma {:induction false} InsertPermutes(x: Long, s: seq<Long>)
    ensures multiset(Insert(x, s)) == multiset(s) + multiset{x}
    decreases |s|
  {
    if s != [] && x > s[0] {
      InsertPermutes(x, s[1..]);
      assert s == [s[0]] + s[1..];
    }
  }

  /** Inserting into a sorted sequence keeps it sorted. */
  lemma {:induction false} InsertSorted(x: Long, s: seq<Long>)
    requires Sorted(s)
    ensures Sorted(Insert(x, s))
    decreases |s|
  {
    if s != [] && x > s[0] {
      var rest := Insert(x, s[1..]);
      InsertSorted(x, s[1..]);
      InsertPermutes(x, s[1..]);
      AtLeastOfMultiset(s[0], rest, s[1..], [x]);
      SortedCons(s[0], rest);
    }
  }

  /** Insertion sort: the ascending permutation of `s`. */
  function Sort(s: seq<Long>): (r: seq<Long>)
    ensures |r| == |s|
  {
    if s == [] then [] else Insert(s[0], Sort(s[1..]))
  }

  /**
   * Insertion sort sorts and keeps the elements. (Stated as a lemma rather
   * than on `Sort` itself, so that code mentioning many sorted ranges does not
   * carry these facts for each of them.)
   */
  lemma {:induction false} SortSorts(s: seq<Long>)
    ensures Sorted(Sort(s))
    ensures multiset(Sort(s)) == multiset(s)
    decreases |s|
  {
    if s != [] {
      SortSorts(s[1..]);
      InsertKeeps(s[0], Sort(s[1..]));
      assert s == [s[0]] + s[1..];
    }
  }

  /** A sequence has exactly one ascending arrangement: two sorted sequences with the same elements are equal. */
  lemma {:induction false} SortedUnique(s: seq<Long>, t: seq<Long>)
    requires Sorted(s) && Sorted(t)
    requires multiset(s) == multiset(t)
    ensures s == t
    decreases |s|
  {
    SameLength(s, t);
    if s != [] {
      SameHead(s, t);
      TailMultiset(s);
      TailMultiset(t);
      SortedTail(s);
      SortedTail(t);
      SortedUnique(s[1..], t[1..]);
      assert s == [s[0]] + s[1..] && t == [t[0]] + t[1..];
    }
  }

  /** Sequences with the same elements have the same length. */
  lemma SameLength(s: seq<Long>, t: seq<Long>)
    requires multiset(s) == multiset(t)
    ensures |s| == |t|
  {
    assert |s| == |multiset(s)| && |t| == |multiset(t)|;
  }

  /** Two sorted, non-empty sequences with the same elements start with the same element. */
  lemma SameHead(s: seq<Long>, t: seq<Long>)
    requires Sorted(s) && Sorted(t) && s != [] && t != []
    requires multiset(s) == multiset(t)
    ensures s[0] == t[0]
  {
    assert s[0] in multiset(s) && t[0] in multiset(t);
    MinOfSorted(s, t[0]);
    MinOfSorted(t, s[0]);
  }

  /** Dropping the head of a sequence removes one copy of it from its elements. */
  lemma TailMultiset(s: seq<Long>)
    requires s != []
    ensures multiset(s[1..]) == multiset(s) - multiset{s[0]}
  {
    assert s == [s[0]] + s[1..];
  }

  /** The tail of a sorted sequence is sorted. */
  lemma SortedTail(s: seq<Long>)
    requires s != [] && Sorted(s)
    ensures Sorted(s[1..])
  {
  }

  /** The head of a sorted sequence is at most each of its elements. */
  lemma MinOfSorted(s: seq<Long>, x: Long)
    requires Sorted(s) && x in multiset(s)
    ensures s[0] <= x
  {
    var i :| 0 <= i < |s| && s[i] == x;
  }

  /** Whatever way a sequence is sorted, the result is Sort of it. */
  lemma SortedPermutationIsSort(s: seq<Long>, t: seq<Long>)
    requires Sorted(t) && multiset(t) == multiset(s)
    ensures t == Sort(s)
  {
    SortSorts(s);
    SortedUnique(t, Sort(s));
  }

  /** Merging the sorted forms of two sequences sorts their concatenation. */
  lemma MergedSorts(xs: seq<Long>, ys: seq<Long>)
    ensures Merged(Sort(xs), Sort(ys)) == Sort(xs + ys)
  {
    var m := Merged(Sort(xs), Sort(ys));
    SortSorts(xs);
    SortSorts(ys);
    MergedSorted(Sort(xs), Sort(ys));
    MergedPermutes(Sort(xs), Sort(ys));
    SortedPermutationIsSort(xs + ys, m);
  }

  /** Merging the sorted halves of `s`, cut anywhere, sorts `s`. */
  lemma MergedHalves(s: seq<Long>, k: nat)
    requires k <= |s|
    ensures Merged(Sort(s[..k]), Sort(s[k..])) == Sort(s)
  {
    assert s == s[..k] + s[k..];
    MergedSorts(s[..k], s[k..]);
  }
}
