/**
 * TreeDiffs of the fstests revision (fstests.go). Its collectDifferent
 * uses the package's `less`, the one of test_util.go.
 */
module FsTests {
  import Merge
  import TestUtil
  import opened Wrappers
  import opened FileInfo
  import opened Report

  method TreeDiffs(a: string, b: string, listA: Result<seq<Info>, string>, listB: Result<seq<Info>, string>)
    returns (diags: seq<Note>)
    ensures listA.Failure? ==> diags == [CollectFailed(a, listA.error)]
    ensures listA.Success? && listB.Failure? ==> diags == [CollectFailed(b, listB.error)]
    ensures listA.Success? && listB.Success? ==>
      var s := Merge.Diff(listA.value, listB.value, TestUtil.Less);
      && (diags == [] <==> s.onlyLeft == [] && s.onlyRight == [])
      && |diags| == (if s.onlyLeft != [] then 1 else 0) + (if s.onlyRight != [] then 1 else 0)
      && (s.onlyLeft != [] ==> diags[0] == UniqueItems(a, s.onlyLeft))
      && (s.onlyRight != [] ==> diags[|diags| - 1] == UniqueItems(b, s.onlyRight))
  {
    diags := [];
    if listA.Failure? {
      return [CollectFailed(a, listA.error)];
    }
    if listB.Failure? {
      return [CollectFailed(b, listB.error)];
    }
    var onlyA, onlyB := Merge.CollectDifferent(listA.value, listB.value, TestUtil.Less);
    if |onlyA| > 0 {
      diags := diags + [UniqueItems(a, onlyA)];
    }
    if |onlyB| > 0 {
      diags := diags + [UniqueItems(b, onlyB)];
    }
  }
}
