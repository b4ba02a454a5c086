/**
 * Tree comparison helpers of the fstests revision (test_util.go): a `less`
 * over name, directory flag and size, and treesAreDifferent.
 */
module TestUtil {
  import Lex
  import Merge
  import opened Wrappers
  import opened FileInfo

  /** True when the left name is smaller, the directory flags differ (in
      either direction), or the left size is smaller. */
  function Less(left: Info, right: Info): bool
  {
    || Lex.Less(left.name, right.name, Lex.CharRank)
    || IsDir(left) != IsDir(right)
    || left.size < right.size
  }

  /** treesAreDifferent: a failed walk, or any unique entry on either side. */
  method TreesAreDifferent(listA: Result<seq<Info>, string>, listB: Result<seq<Info>, string>)
    returns (different: bool)
    ensures listA.Failure? || listB.Failure? ==> different
    ensures listA.Success? && listB.Success? ==>
      (different <==> Merge.Diff(listA.value, listB.value, Less).onlyLeft != []
                      || Merge.Diff(listA.value, listB.value, Less).onlyRight != [])
  {
    if listA.Failure? {
      return true;
    }
    if listB.Failure? {
      return true;
    }
    different := false;
    var onlyA, onlyB := Merge.CollectDifferent(listA.value, listB.value, Less);
    if |onlyA| > 0 {
      different := true;
    }
    if |onlyB| > 0 {
      different := true;
    }
  }

  /** No entry ranks before itself. */
  lemma {:induction false} LessIrreflexive(x: Info)
    ensures !Less(x, x)
  {
    Lex.LessIrreflexive(x.name, Lex.CharRank);
  }

  /** A directory and a file rank before each other, whatever their names and sizes. */
  lemma {:induction false} DirFileBothWays(a: Info, b: Info)
    requires IsDir(a) != IsDir(b)
    ensures Less(a, b) && Less(b, a)
  {
  }

  /** So the merge never matches a directory with a file: every matched
      pair agrees on the directory flag, name and size. */
  lemma {:induction false} MatchedAgree(left: seq<Info>, right: seq<Info>, i: int)
    requires 0 <= i < |Merge.Diff(left, right, Less).matched|
    ensures var (x, y) := Merge.Diff(left, right, Less).matched[i];
      IsDir(x) == IsDir(y) && x.name == y.name && x.size == y.size
  {
    var (x, y) := Merge.Diff(left, right, Less).matched[i];
    Merge.MatchedAreTies(left, right, Less, i);
    if x.name != y.name {
      Lex.CharRankInjective();
      Lex.LessTotal(x.name, y.name, Lex.CharRank);
    }
  }

  /** A directory and a file at the heads of the two listings: the right one
      is recorded as right-only first. */
  lemma {:induction false} DirFileRightFirst(left: seq<Info>, right: seq<Info>)
    requires left != [] && right != [] && IsDir(left[0]) != IsDir(right[0])
    ensures Merge.Diff(left, right, Less).onlyRight == [right[0]] + Merge.Diff(left, right[1..], Less).onlyRight
  {
    DirFileBothWays(left[0], right[0]);
    Merge.RightTestedFirst(left, right, Less);
  }

  /** A listing compared with itself has no differences. */
  lemma {:induction false} SelfDiffEmpty(xs: seq<Info>)
    ensures Merge.Diff(xs, xs, Less).onlyLeft == [] && Merge.Diff(xs, xs, Less).onlyRight == []
  {
    forall i | 0 <= i < |xs|
      ensures !Less(xs[i], xs[i])
    {
      LessIrreflexive(xs[i]);
    }
    Merge.SelfDiffEmpty(xs, Less);
  }

  /** Because a directory and a file rank before each other, a directory
      "a" on the left against a file "a" on the right sends the merge down
      the right side first: an entry "b" present on both sides is then
      reported as unique on both. */
  lemma {:induction false} SharedEntryReportedTwice(d: Info, f: Info, b: Info)
    requires d.name == "a" && IsDir(d)
    requires f.name == "a" && !IsDir(f)
    requires b.name == "b" && !IsDir(b)
    ensures Merge.Diff([d, b], [f, b], Less) == Merge.Split([d, b], [f, b], [])
  {
    assert Less(b, d);
    assert [f, b][1..] == [b] && [b][1..] == [];
    Merge.DiffOneSideEmpty([d, b], Less);
  }
}
