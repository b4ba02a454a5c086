/**
 * The two-cursor merge that splits two listings into the entries found
 * only on the left, only on the right, and the pairs it matched
 * (collectDifferent). The three revisions of the library share the loop,
 * over two different `less` functions, so it is modelled once, with `less`
 * as a parameter.
 */
module Merge {

  /** What one merge produces. `matched` is not returned by the code; it
      records which pairs the merge stepped over together. */
  datatype Split<T> = Split(onlyLeft: seq<T>, onlyRight: seq<T>, matched: seq<(T, T)>)

  function Lefts<T>(m: seq<(T, T)>): (r: seq<T>)
    ensures |r| == |m| && forall i :: 0 <= i < |m| ==> r[i] == m[i].0
  {
    if m == [] then [] else [m[0].0] + Lefts(m[1..])
  }

  function Rights<T>(m: seq<(T, T)>): (r: seq<T>)
    ensures |r| == |m| && forall i :: 0 <= i < |m| ==> r[i] == m[i].1
  {
    if m == [] then [] else [m[0].1] + Rights(m[1..])
  }

  /** The merge, one step per call: the right head is unique when the left
      side is exhausted or the right head ranks first (tested first); then
      the left head is unique when the right side is exhausted or the left
      head ranks first; otherwise the two heads are matched and both dropped. */
  function Diff<T>(left: seq<T>, right: seq<T>, less: (T, T) -> bool): (s: Split<T>)
    ensures |s.onlyLeft| + |s.matched| == |left|
    ensures |s.onlyRight| + |s.matched| == |right|
    decreases |left| + |right|
  {
    if left == [] && right == [] then Split([], [], [])
    else if right != [] && (left == [] || less(right[0], left[0])) then
      var s := Diff(left, right[1..], less);
      Split(s.onlyLeft, [right[0]] + s.onlyRight, s.matched)
    else if left != [] && (right == [] || less(left[0], right[0])) then
      var s := Diff(left[1..], right, less);
      Split([left[0]] + s.onlyLeft, s.onlyRight, s.matched)
    else
      var s := Diff(left[1..], right[1..], less);
      Split(s.onlyLeft, s.onlyRight, [(left[0], right[0])] + s.matched)
  }

  /** collectDifferent: the cursor loop of the source. */
  method CollectDifferent<T>(left: seq<T>, right: seq<T>, less: (T, T) -> bool)
    returns (onlyLeft: seq<T>, onlyRight: seq<T>)
    ensures onlyLeft == Diff(left, right, less).onlyLeft
    ensures onlyRight == Diff(left, right, less).onlyRight
  {
    onlyLeft, onlyRight := [], [];
    var l, r := 0, 0;
    while l < |left| || r < |right|
      invariant l <= |left| && r <= |right|
      invariant Diff(left, right, less).onlyLeft == onlyLeft + Diff(left[l..], right[r..], less).onlyLeft
      invariant Diff(left, right, less).onlyRight == onlyRight + Diff(left[l..], right[r..], less).onlyRight
      decreases |left| - l + |right| - r
    {
      if r < |right| && (l == |left| || less(right[r], left[l])) {
        DiffTakesRight(left, right, l, r, less, onlyRight);
        onlyRight := onlyRight + [right[r]];
        r := r + 1;
      } else if l < |left| && (r == |right| || less(left[l], right[r])) {
        DiffTakesLeft(left, right, l, r, less, onlyLeft);
        onlyLeft := onlyLeft + [left[l]];
        l := l + 1;
      } else {
        DiffMatches(left, right, l, r, less);
        l := l + 1;
        r := r + 1;
      }
    }
  }

  /** One merge step that reports the right head as unique, after the
      entries `done` already reported on the right. */
  lemma {:induction false} DiffTakesRight<T>(left: seq<T>, right: seq<T>, l: nat, r: nat, less: (T, T) -> bool, done: seq<T>)
    requires l <= |left| && r < |right| && (l == |left| || less(right[r], left[l]))
    ensures Diff(left[l..], right[r..], less).onlyLeft == Diff(left[l..], right[r + 1..], less).onlyLeft
    ensures Diff(left[l..], right[r..], less).onlyRight == [right[r]] + Diff(left[l..], right[r + 1..], less).onlyRight
    ensures done + Diff(left[l..], right[r..], less).onlyRight == (done + [right[r]]) + Diff(left[l..], right[r + 1..], less).onlyRight
  {
    assert right[r..][1..] == right[r + 1..];
    var rest := Diff(left[l..], right[r + 1..], less).onlyRight;
    assert done + ([right[r]] + rest) == (done + [right[r]]) + rest;
  }

  /** One merge step that reports the left head as unique, after the
      entries `done` already reported on the left. */
  lemma {:induction false} DiffTakesLeft<T>(left: seq<T>, right: seq<T>, l: nat, r: nat, less: (T, T) -> bool, done: seq<T>)
    requires l < |left| && r <= |right| && (r == |right| || less(left[l], right[r]))
    requires r == |right| || !less(right[r], left[l])
    ensures Diff(left[l..], right[r..], less).onlyLeft == [left[l]] + Diff(left[l + 1..], right[r..], less).onlyLeft
    ensures Diff(left[l..], right[r..], less).onlyRight == Diff(left[l + 1..], right[r..], less).onlyRight
    ensures done + Diff(left[l..], right[r..], less).onlyLeft == (done + [left[l]]) + Diff(left[l + 1..], right[r..], less).onlyLeft
  {
    assert left[l..][1..] == left[l + 1..];
    var rest := Diff(left[l + 1..], right[r..], less).onlyLeft;
    assert done + ([left[l]] + rest) == (done + [left[l]]) + rest;
  }

  /** One merge step that steps over both heads. */
  lemma {:induction false} DiffMatches<T>(left: seq<T>, right: seq<T>, l: nat, r: nat, less: (T, T) -> bool)
    requires l < |left| && r < |right| && !less(right[r], left[l]) && !less(left[l], right[r])
    ensures Diff(left[l..], right[r..], less).onlyLeft == Diff(left[l + 1..], right[r + 1..], less).onlyLeft
    ensures Diff(left[l..], right[r..], less).onlyRight == Diff(left[l + 1..], right[r + 1..], less).onlyRight
  {
    assert left[l..][1..] == left[l + 1..] && right[r..][1..] == right[r + 1..];
  }

  /** `t` is an order-preserving interleaving of `a` and `b`: every element
      of `t` is taken, in turn, from the front of `a` or of `b`. */
  ghost predicate Interleaving<T>(t: seq<T>, a: seq<T>, b: seq<T>)
    decreases |t|
  {
    if t == [] then a == [] && b == []
    else
      || (a != [] && a[0] == t[0] && Interleaving(t[1..], a[1..], b))
      || (b != [] && b[0] == t[0] && Interleaving(t[1..], a, b[1..]))
  }

  /** `s` occurs in `t` in order, possibly with gaps. */
  ghost predicate Subsequence<T>(s: seq<T>, t: seq<T>)
    decreases |t|
  {
    s == [] || (t != [] && ((s[0] == t[0] && Subsequence(s[1..], t[1..])) || Subsequence(s, t[1..])))
  }

  /** The two halves of an interleaving are order-preserving subsequences of it. */
  lemma {:induction false} InterleavingSubsequences<T>(t: seq<T>, a: seq<T>, b: seq<T>)
    requires Interleaving(t, a, b)
    ensures Subsequence(a, t) && Subsequence(b, t)
    decreases |t|
  {
    if t != [] {
      if a != [] && a[0] == t[0] && Interleaving(t[1..], a[1..], b) {
        InterleavingSubsequences(t[1..], a[1..], b);
      } else {
        InterleavingSubsequences(t[1..], a, b[1..]);
      }
    }
  }

  /** Together the two halves of an interleaving hold exactly the elements of the whole. */
  lemma {:induction false} InterleavingElements<T>(t: seq<T>, a: seq<T>, b: seq<T>)
    requires Interleaving(t, a, b)
    ensures multiset(t) == multiset(a) + multiset(b)
    decreases |t|
  {
    if t != [] {
      assert t == [t[0]] + t[1..];
      if a != [] && a[0] == t[0] && Interleaving(t[1..], a[1..], b) {
        InterleavingElements(t[1..], a[1..], b);
        assert a == [a[0]] + a[1..];
      } else {
        InterleavingElements(t[1..], a, b[1..]);
        assert b == [b[0]] + b[1..];
      }
    }
  }

  /** The left listing is exactly the left-only entries interleaved with
      the left halves of the matched pairs, and likewise on the right: no
      entry is lost, duplicated or reordered. */
  lemma {:induction false} DiffPartitions<T>(left: seq<T>, right: seq<T>, less: (T, T) -> bool)
    ensures Interleaving(left, Diff(left, right, less).onlyLeft, Lefts(Diff(left, right, less).matched))
    ensures Interleaving(right, Diff(left, right, less).onlyRight, Rights(Diff(left, right, less).matched))
    decreases |left| + |right|
  {
    var s := Diff(left, right, less);
    if left == [] && right == [] {
    } else if right != [] && (left == [] || less(right[0], left[0])) {
      DiffPartitions(left, right[1..], less);
    } else if left != [] && (right == [] || less(left[0], right[0])) {
      DiffPartitions(left[1..], right, less);
    } else {
      var s' := Diff(left[1..], right[1..], less);
      DiffPartitions(left[1..], right[1..], less);
      assert Lefts(s.matched) == [left[0]] + Lefts(s'.matched);
      assert Rights(s.matched) == [right[0]] + Rights(s'.matched);
      assert Lefts(s.matched)[1..] == Lefts(s'.matched);
      assert Rights(s.matched)[1..] == Rights(s'.matched);
    }
  }

  /** The consequences the callers rely on: both unique lists are
      order-preserving subsequences of their inputs, and the two sides
      lose the same number of entries to matches. */
  lemma {:induction false} DiffSubsequences<T>(left: seq<T>, right: seq<T>, less: (T, T) -> bool)
    ensures Subsequence(Diff(left, right, less).onlyLeft, left)
    ensures Subsequence(Diff(left, right, less).onlyRight, right)
    ensures |left| - |Diff(left, right, less).onlyLeft| == |right| - |Diff(left, right, less).onlyRight|
    ensures multiset(left) == multiset(Diff(left, right, less).onlyLeft) + multiset(Lefts(Diff(left, right, less).matched))
    ensures multiset(right) == multiset(Diff(left, right, less).onlyRight) + multiset(Rights(Diff(left, right, less).matched))
  {
    var s := Diff(left, right, less);
    DiffPartitions(left, right, less);
    InterleavingSubsequences(left, s.onlyLeft, Lefts(s.matched));
    InterleavingSubsequences(right, s.onlyRight, Rights(s.matched));
    InterleavingElements(left, s.onlyLeft, Lefts(s.matched));
    InterleavingElements(right, s.onlyRight, Rights(s.matched));
  }

  /** A matched pair is a tie: neither entry ranks before the other. */
  lemma {:induction false} MatchedAreTies<T>(left: seq<T>, right: seq<T>, less: (T, T) -> bool, i: int)
    requires 0 <= i < |Diff(left, right, less).matched|
    ensures !less(Diff(left, right, less).matched[i].0, Diff(left, right, less).matched[i].1)
    ensures !less(Diff(left, right, less).matched[i].1, Diff(left, right, less).matched[i].0)
    decreases |left| + |right|
  {
    if left == [] && right == [] {
    } else if right != [] && (left == [] || less(right[0], left[0])) {
      MatchedAreTies(left, right[1..], less, i);
    } else if left != [] && (right == [] || less(left[0], right[0])) {
      MatchedAreTies(left[1..], right, less, i);
    } else if i > 0 {
      MatchedAreTies(left[1..], right[1..], less, i - 1);
    }
  }

  /** An empty left side sends all of the right side to onlyRight, and the other way round. */
  lemma {:induction false} DiffOneSideEmpty<T>(xs: seq<T>, less: (T, T) -> bool)
    ensures Diff([], xs, less) == Split([], xs, [])
    ensures Diff(xs, [], less) == Split(xs, [], [])
    decreases |xs|
  {
    if xs != [] {
      DiffOneSideEmpty(xs[1..], less);
      assert xs == [xs[0]] + xs[1..];
    }
  }

  /** When the heads rank before each other both ways, the right head is
      reported first, and the pair is never matched. */
  lemma {:induction false} RightTestedFirst<T>(left: seq<T>, right: seq<T>, less: (T, T) -> bool)
    requires left != [] && right != []
    requires less(right[0], left[0]) && less(left[0], right[0])
    ensures Diff(left, right, less).onlyRight == [right[0]] + Diff(left, right[1..], less).onlyRight
    ensures Diff(left, right, less).onlyLeft == Diff(left, right[1..], less).onlyLeft
  {
  }

  /** Lists of equal length whose entries tie position by position are
      matched pairwise, leaving nothing unique on either side. */
  lemma {:induction false} PairwiseTiesNoDiff<T>(xs: seq<T>, ys: seq<T>, less: (T, T) -> bool)
    requires |xs| == |ys|
    requires forall i :: 0 <= i < |xs| ==> !less(xs[i], ys[i]) && !less(ys[i], xs[i])
    ensures Diff(xs, ys, less).onlyLeft == [] && Diff(xs, ys, less).onlyRight == []
    decreases |xs|
  {
    if xs != [] {
      PairwiseTiesNoDiff(xs[1..], ys[1..], less);
    }
  }

  /** With an irreflexive `less`, a listing compared with itself has no differences. */
  lemma {:induction false} SelfDiffEmpty<T>(xs: seq<T>, less: (T, T) -> bool)
    requires forall i :: 0 <= i < |xs| ==> !less(xs[i], xs[i])
    ensures Diff(xs, xs, less).onlyLeft == [] && Diff(xs, xs, less).onlyRight == []
  {
    PairwiseTiesNoDiff(xs, xs, less);
  }

  /** When no left entry ties with any right entry, nothing is matched and
      every entry is reported on its own side. */
  lemma {:induction false} DisjointAllUnique<T>(left: seq<T>, right: seq<T>, less: (T, T) -> bool)
    requires forall i, j :: 0 <= i < |left| && 0 <= j < |right| ==> less(left[i], right[j]) || less(right[j], left[i])
    ensures Diff(left, right, less) == Split(left, right, [])
    decreases |left| + |right|
  {
    if left == [] || right == [] {
      DiffOneSideEmpty(left, less);
      DiffOneSideEmpty(right, less);
    } else if less(right[0], left[0]) {
      DisjointAllUnique(left, right[1..], less);
      assert right == [right[0]] + right[1..];
    } else {
      assert less(left[0], right[0]);
      DisjointAllUnique(left[1..], right, less);
      assert left == [left[0]] + left[1..];
    }
  }

  /** `less` is a strict weak order: irreflexive, transitive, and "neither
      ranks first" is transitive too. Ordering by name is one. */
  ghost predicate StrictWeakOrder<T(!new)>(less: (T, T) -> bool)
  {
    && (forall x :: !less(x, x))
    && (forall x, y, z :: less(x, y) && less(y, z) ==> less(x, z))
    && (forall x, y, z :: less(x, z) ==> less(x, y) || less(y, z))
  }

  /** Every later entry of `xs` ranks after every earlier one. */
  ghost predicate Sorted<T>(xs: seq<T>, less: (T, T) -> bool)
  {
    forall i, j :: 0 <= i < j < |xs| ==> less(xs[i], xs[j])
  }

  /** `x` ties with some entry of `ys`. */
  ghost predicate TiesWith<T>(x: T, ys: seq<T>, less: (T, T) -> bool)
  {
    exists j :: 0 <= j < |ys| && !less(x, ys[j]) && !less(ys[j], x)
  }

  /** The entries of `xs`, in order, that tie with nothing in `ys`. */
  ghost function Unmatched<T>(xs: seq<T>, ys: seq<T>, less: (T, T) -> bool): seq<T>
  {
    if xs == [] then []
    else (if TiesWith(xs[0], ys, less) then [] else [xs[0]]) + Unmatched(xs[1..], ys, less)
  }

  /** Dropping from `ys` an entry that ties with nothing in `xs` leaves
      Unmatched(xs, ys) as it was. */
  lemma {:induction false} UnmatchedDrop<T>(xs: seq<T>, ys: seq<T>, less: (T, T) -> bool)
    requires ys != []
    requires forall i :: 0 <= i < |xs| ==> less(xs[i], ys[0]) || less(ys[0], xs[i])
    ensures Unmatched(xs, ys, less) == Unmatched(xs, ys[1..], less)
    decreases |xs|
  {
    if xs != [] {
      UnmatchedDrop(xs[1..], ys, less);
      assert TiesWith(xs[0], ys, less) ==> TiesWith(xs[0], ys[1..], less) by {
        if TiesWith(xs[0], ys, less) {
          var j :| 0 <= j < |ys| && !less(xs[0], ys[j]) && !less(ys[j], xs[0]);
          assert j > 0 && ys[1..][j - 1] == ys[j];
        }
      }
      assert TiesWith(xs[0], ys[1..], less) ==> TiesWith(xs[0], ys, less) by {
        if TiesWith(xs[0], ys[1..], less) {
          var j :| 0 <= j < |ys[1..]| && !less(xs[0], ys[1..][j]) && !less(ys[1..][j], xs[0]);
          assert ys[j + 1] == ys[1..][j];
        }
      }
    }
  }

  /** Merge correctness: on two lists sorted by a strict weak order, the
      merge reports on each side exactly the entries that tie with nothing
      on the other side, in their original order. */
  lemma {:induction false} SortedDiffIsUnmatched<T(!new)>(left: seq<T>, right: seq<T>, less: (T, T) -> bool)
    requires StrictWeakOrder(less)
    requires Sorted(left, less) && Sorted(right, less)
    ensures Diff(left, right, less).onlyLeft == Unmatched(left, right, less)
    ensures Diff(left, right, less).onlyRight == Unmatched(right, left, less)
    decreases |left| + |right|
  {
    if left == [] && right == [] {
    } else if right != [] && (left == [] || less(right[0], left[0])) {
      SortedDiffIsUnmatched(left, right[1..], less);
      forall i | 0 <= i < |left| ensures less(left[i], right[0]) || less(right[0], left[i]) {
        assert i == 0 || less(left[0], left[i]);
      }
      UnmatchedDrop(left, right, less);
      assert !TiesWith(right[0], left, less);
    } else if left != [] && (right == [] || less(left[0], right[0])) {
      SortedDiffIsUnmatched(left[1..], right, less);
      forall i | 0 <= i < |right| ensures less(right[i], left[0]) || less(left[0], right[i]) {
        assert i == 0 || less(right[0], right[i]);
      }
      UnmatchedDrop(right, left, less);
      assert !TiesWith(left[0], right, less);
    } else {
      SortedDiffIsUnmatched(left[1..], right[1..], less);
      forall i | 0 <= i < |left[1..]| ensures less(left[1..][i], right[0]) || less(right[0], left[1..][i]) {
        assert less(left[0], left[1..][i]);
      }
      forall i | 0 <= i < |right[1..]| ensures less(right[1..][i], left[0]) || less(left[0], right[1..][i]) {
        assert less(right[0], right[1..][i]);
      }
      UnmatchedDrop(left[1..], right, less);
      UnmatchedDrop(right[1..], left, less);
      assert TiesWith(left[0], right, less);
      assert TiesWith(right[0], left, less);
    }
  }
}
