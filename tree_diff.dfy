/**
 * Tree comparison of the fstest revision (tree_diff.go): one composite
 * `less` over name, directory flag, size, whole mode and modification
 * time with a 5 ms tolerance, and the notes TreeDiffs returns.
 */
module TreeDiff {
  import Lex
  import Merge
  import opened Wrappers
  import opened FileInfo
  import opened Report

  /** Timestamps closer than this (5 ms, in nanoseconds) do not count as different. */
  const Tolerance: int := 5_000_000

  /** The composite order: true as soon as one clause says `left` ranks first.
      The size clause looks only at whether `left` is a directory, and the mode
      is compared as a whole word, type bits included. */
  function Less(left: Info, right: Info): bool
  {
    || Lex.Less(left.name, right.name, Lex.CharRank)
    || (IsDir(left) && !IsDir(right))
    || (!IsDir(left) && left.size < right.size)
    || left.mode < right.mode
    || left.mtime < right.mtime - Tolerance
  }

  /** TreeDiffs over the two listings the walks produced (or the walk errors). */
  method TreeDiffs(a: string, b: string, listA: Result<seq<Info>, string>, listB: Result<seq<Info>, string>)
    returns (diags: seq<Note>)
    ensures listA.Failure? ==> diags == [CollectFailed(a, listA.error)]
    ensures listA.Success? && listB.Failure? ==> diags == [CollectFailed(b, listB.error)]
    ensures listA.Success? && listB.Success? ==>
      var s := Merge.Diff(listA.value, listB.value, Less);
      && (diags == [] <==> s.onlyLeft == [] && s.onlyRight == [])
      && |diags| == (if s.onlyLeft != [] then 1 else 0) + (if s.onlyRight != [] then 1 else 0)
      && (s.onlyLeft != [] ==> diags[0] == UniqueItems(a, s.onlyLeft))
      && (s.onlyRight != [] ==> diags[|diags| - 1] == UniqueItems(b, s.onlyRight))
  {
    diags := [];
    if listA.Failure? {
      return [CollectFailed(a, listA.error)];
    }
    if listB.Failure? {
      return [CollectFailed(b, listB.error)];
    }
    var onlyA, onlyB := Merge.CollectDifferent(listA.value, listB.value, Less);
    if |onlyA| > 0 {
      diags := diags + [UniqueItems(a, onlyA)];
    }
    if |onlyB| > 0 {
      diags := diags + [UniqueItems(b, onlyB)];
    }
  }

  /** No entry ranks before itself. */
  lemma {:induction false} LessIrreflexive(x: Info)
    ensures !Less(x, x)
  {
    Lex.LessIrreflexive(x.name, Lex.CharRank);
  }

  /** For entries alike in name, size and mode, the time clause alone decides,
      and only when `left` is more than 5 ms older than `right`. */
  lemma {:induction false} TimeTolerance(left: Info, right: Info)
    requires left.name == right.name && left.size == right.size && left.mode == right.mode
    ensures Less(left, right) <==> right.mtime - left.mtime > Tolerance
  {
    Lex.LessIrreflexive(left.name, Lex.CharRank);
  }

  /** Two listings that differ only by timestamp jitter of at most 5 ms,
      entry by entry, have no differences: a tree and its copy compare equal. */
  lemma {:induction false} JitterInvisible(xs: seq<Info>, ys: seq<Info>)
    requires |xs| == |ys|
    requires forall i :: 0 <= i < |xs| ==>
      ys[i].name == xs[i].name && ys[i].size == xs[i].size && ys[i].mode == xs[i].mode
      && -Tolerance <= ys[i].mtime - xs[i].mtime <= Tolerance
    ensures Merge.Diff(xs, ys, Less).onlyLeft == [] && Merge.Diff(xs, ys, Less).onlyRight == []
  {
    forall i | 0 <= i < |xs|
      ensures !Less(xs[i], ys[i]) && !Less(ys[i], xs[i])
    {
      TimeTolerance(xs[i], ys[i]);
      TimeTolerance(ys[i], xs[i]);
    }
    Merge.PairwiseTiesNoDiff(xs, ys, Less);
  }

  /** A listing compared with itself has no differences. */
  lemma {:induction false} SelfDiffEmpty(xs: seq<Info>)
    ensures Merge.Diff(xs, xs, Less).onlyLeft == [] && Merge.Diff(xs, xs, Less).onlyRight == []
  {
    forall i | 0 <= i < |xs|
      ensures !Less(xs[i], xs[i])
    {
      LessIrreflexive(xs[i]);
    }
    Merge.SelfDiffEmpty(xs, Less);
  }

  /** A timestamp more than 5 ms apart on one entry is reported on both sides. */
  lemma {:induction false} TimeDifferenceReported(x: Info, y: Info)
    requires y.name == x.name && y.size == x.size && y.mode == x.mode
    requires y.mtime - x.mtime > Tolerance || x.mtime - y.mtime > Tolerance
    ensures Merge.Diff([x], [y], Less) == Merge.Split([x], [y], [])
  {
    TimeTolerance(x, y);
    TimeTolerance(y, x);
    Merge.DisjointAllUnique([x], [y], Less);
  }
}
