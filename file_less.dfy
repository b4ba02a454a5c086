/**
 * The earlier comparator set over plain os.FileInfo values (file_less.go):
 * the same predicates as FileRank without content, and the same chain rule.
 */
module FileLess {
  import Lex
  import Merge
  import opened FileInfo

  /** A FileLess says whether `left` sorts strictly before `right`. */
  type Cmp = (Info, Info) -> bool

  function LessName(left: Info, right: Info): bool
  {
    Lex.Less(left.name, right.name, Lex.CharRank)
  }

  function LessDir(left: Info, right: Info): bool
  {
    IsDir(left) && !IsDir(right)
  }

  function LessSize(left: Info, right: Info): bool
  {
    IsRegular(left) && IsRegular(right) && left.size < right.size
  }

  function LessTime(left: Info, right: Info): bool
  {
    left.mtime < right.mtime
  }

  function LessPerm(left: Info, right: Info): bool
  {
    Perm(left) < Perm(right)
  }

  /** True as soon as one comparator of the chain, tried in order, says "less". */
  function Less(left: Info, right: Info, cmps: seq<Cmp>): (less: bool)
    ensures less <==> exists i :: 0 <= i < |cmps| && cmps[i](left, right)
  {
    if cmps == [] then false
    else if cmps[0](left, right) then true
    else Less(left, right, cmps[1..])
  }

  /** The loop of Less: the comparators are tried in order, and the first
      one that says "less" ends it with true. */
  method ApplyChain(left: Info, right: Info, cmps: seq<Cmp>) returns (less: bool)
    ensures less <==> exists i :: 0 <= i < |cmps| && cmps[i](left, right)
    ensures less == Less(left, right, cmps)
  {
    for i := 0 to |cmps|
      invariant forall j :: 0 <= j < i ==> !cmps[j](left, right)
    {
      if cmps[i](left, right) {
        return true;
      }
    }
    return false;
  }

  /** One of the five comparators this file defines. */
  ghost predicate Known(c: Cmp)
  {
    c == LessName || c == LessDir || c == LessSize || c == LessTime || c == LessPerm
  }

  /** LessName is Go's string order on names: strict, and total on different names. */
  lemma {:induction false} LessNameIsStringOrder(a: Info, b: Info)
    ensures !LessName(a, a)
    ensures LessName(a, b) ==> !LessName(b, a)
    ensures a.name != b.name ==> LessName(a, b) || LessName(b, a)
  {
    Lex.LessIrreflexive(a.name, Lex.CharRank);
    Lex.LessAsymmetric(a.name, b.name, Lex.CharRank);
    if a.name != b.name {
      Lex.CharRankInjective();
      Lex.LessTotal(a.name, b.name, Lex.CharRank);
    }
  }

  /** Ordering by name alone is a strict weak order, so the sorted-merge
      facts that need one hold for it. */
  lemma {:induction false} LessNameStrictWeakOrder()
    ensures Merge.StrictWeakOrder(LessName)
  {
    forall x: Info
      ensures !LessName(x, x)
    {
      Lex.LessIrreflexive(x.name, Lex.CharRank);
    }
    forall x: Info, y: Info, z: Info | LessName(x, y) && LessName(y, z)
      ensures LessName(x, z)
    {
      Lex.LessTransitive(x.name, y.name, z.name, Lex.CharRank);
    }
    forall x: Info, y: Info, z: Info | LessName(x, z)
      ensures LessName(x, y) || LessName(y, z)
    {
      if x.name != y.name && !LessName(x, y) {
        Lex.CharRankInjective();
        Lex.LessTotal(x.name, y.name, Lex.CharRank);
        Lex.LessTransitive(y.name, x.name, z.name, Lex.CharRank);
      }
    }
  }

  /** LessDir holds only for a (directory, non-directory) pair and never both ways. */
  lemma {:induction false} LessDirOneWay(a: Info, b: Info)
    ensures LessDir(a, b) ==> IsDir(a) && !IsDir(b) && !LessDir(b, a)
  {
  }

  /** LessSize is false unless both are regular files, and then it is size order. */
  lemma {:induction false} LessSizeRegularOnly(a: Info, b: Info)
    ensures LessSize(a, b) <==> IsRegular(a) && IsRegular(b) && a.size < b.size
    ensures IsDir(a) || IsDir(b) ==> !LessSize(a, b)
  {
  }

  /** LessPerm reads the nine permission bits only; LessTime is strictly "before". */
  lemma {:induction false} LessPermTimeStrict(a: Info, b: Info)
    ensures a.mode & ModePerm == b.mode & ModePerm ==> !LessPerm(a, b) && !LessPerm(b, a)
    ensures LessTime(a, b) ==> !LessTime(b, a)
    ensures LessPerm(a, b) ==> !LessPerm(b, a)
  {
  }

  /** Every comparator of this file is irreflexive, so no chain built from
      them ranks an entry before itself. */
  lemma {:induction false} LessIrreflexive(x: Info, cmps: seq<Cmp>)
    requires forall i :: 0 <= i < |cmps| ==> Known(cmps[i])
    ensures !Less(x, x, cmps)
  {
    Lex.LessIrreflexive(x.name, Lex.CharRank);
    forall i | 0 <= i < |cmps|
      ensures !cmps[i](x, x)
    {
      assert Known(cmps[i]);
    }
  }

  /** The empty chain never says "less". */
  lemma {:induction false} EmptyChain(a: Info, b: Info)
    ensures !Less(a, b, [])
  {
  }
}
