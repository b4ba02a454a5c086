/**
 * Comparators over entry descriptors that also know where the entry's
 * bytes are (file_rank.go), and the "any comparator says less" chain rule.
 */
module FileRank {
  import Lex
  import opened FileInfo

  /** FileInfoPath: what os.Stat reports plus the path of the file. The path
      is only ever opened to read the bytes, so the model keeps the bytes. */
  datatype FileInfoPath = FileInfoPath(info: Info, content: seq<bv8>)

  /** A FileRank says whether `left` ranks strictly before `right`. */
  type Rank = (FileInfoPath, FileInfoPath) -> bool

  /** Go's string order on base names. */
  function ByName(left: FileInfoPath, right: FileInfoPath): bool
  {
    Lex.Less(left.info.name, right.info.name, Lex.CharRank)
  }

  /** Directories before everything else. */
  function ByDir(left: FileInfoPath, right: FileInfoPath): bool
  {
    IsDir(left.info) && !IsDir(right.info)
  }

  /** Size order, between regular files only. */
  function BySize(left: FileInfoPath, right: FileInfoPath): bool
  {
    IsRegular(left.info) && IsRegular(right.info) && left.info.size < right.info.size
  }

  /** Strictly earlier modification time. */
  function ByTime(left: FileInfoPath, right: FileInfoPath): bool
  {
    left.info.mtime < right.info.mtime
  }

  /** Order on the nine permission bits only. */
  function ByPerm(left: FileInfoPath, right: FileInfoPath): bool
  {
    Perm(left.info) < Perm(right.info)
  }

  /** The comparator that ByContent(t) hands out: strict lexicographic order
      on the two files' bytes, without looking at their sizes first. */
  function ContentRank(left: FileInfoPath, right: FileInfoPath): bool
  {
    Lex.Less(left.content, right.content, Lex.ByteRank)
  }

  /** The byte-stream loop of ByContent. A byte is read from the right
      file first; the right file running out answers false, then the left
      file running out answers true. A read error ends a stream just like
      end of file, so the model reads from the byte sequences. */
  method ByContent(left: FileInfoPath, right: FileInfoPath) returns (less: bool)
    ensures less == ContentRank(left, right)
  {
    var l, r := left.content, right.content;
    var i := 0;
    while true
      invariant i <= |l| && i <= |r|
      invariant Lex.Less(l, r, Lex.ByteRank) == Lex.Less(l[i..], r[i..], Lex.ByteRank)
      decreases |r| - i
    {
      if i == |r| {
        return false;
      }
      var rByte := r[i];
      if i == |l| {
        return true;
      }
      var lByte := l[i];
      if lByte == rByte {
        i := i + 1;
        continue;
      }
      if lByte < rByte {
        return true;
      }
      return false;
    }
  }

  /** `Less(left, right, cmps)`: true as soon as one comparator of the chain,
      tried in order, says `left` ranks before `right`. */
  function Less(left: FileInfoPath, right: FileInfoPath, cmps: seq<Rank>): (less: bool)
    ensures less <==> exists i :: 0 <= i < |cmps| && cmps[i](left, right)
  {
    if cmps == [] then false
    else if cmps[0](left, right) then true
    else Less(left, right, cmps[1..])
  }

  /** The loop of Less: the comparators are tried in order, and the first
      one that says "less" ends it with true. */
  method ApplyChain(left: FileInfoPath, right: FileInfoPath, cmps: seq<Rank>) returns (less: bool)
    ensures less <==> exists i :: 0 <= i < |cmps| && cmps[i](left, right)
    ensures less == Less(left, right, cmps)
  {
    for i := 0 to |cmps|
      invariant forall j :: 0 <= j < i ==> !cmps[j](left, right)
    {
      if cmps[i](left, right) {
        return true;
      }
    }
    return false;
  }

  /** How many comparators Less calls before it answers: it stops at the
      first one that says "less", and calls all of them otherwise. */
  function Consulted(left: FileInfoPath, right: FileInfoPath, cmps: seq<Rank>): (n: nat)
    ensures n <= |cmps|
    ensures forall i :: 0 <= i < n - 1 ==> !cmps[i](left, right)
    ensures n < |cmps| ==> n > 0 && cmps[n - 1](left, right)
    ensures Less(left, right, cmps) <==> n > 0 && cmps[n - 1](left, right)
  {
    if cmps == [] then 0
    else if cmps[0](left, right) then 1
    else 1 + Consulted(left, right, cmps[1..])
  }

  /** ByName, ByTime and ByPerm are strict: irreflexive and never true both ways. */
  lemma {:induction false} StrictComparators(a: FileInfoPath, b: FileInfoPath)
    ensures !ByName(a, a) && (ByName(a, b) ==> !ByName(b, a))
    ensures !ByTime(a, a) && (ByTime(a, b) ==> !ByTime(b, a))
    ensures !ByPerm(a, a) && (ByPerm(a, b) ==> !ByPerm(b, a))
  {
    Lex.LessIrreflexive(a.info.name, Lex.CharRank);
    Lex.LessAsymmetric(a.info.name, b.info.name, Lex.CharRank);
  }

  /** Two entries with different base names are always ordered by ByName one way. */
  lemma {:induction false} ByNameTotal(a: FileInfoPath, b: FileInfoPath)
    requires a.info.name != b.info.name
    ensures ByName(a, b) || ByName(b, a)
  {
    Lex.CharRankInjective();
    Lex.LessTotal(a.info.name, b.info.name, Lex.CharRank);
  }

  /** ByDir holds exactly for a (directory, non-directory) pair, hence never
      for two directories or two non-directories, and never both ways. */
  lemma {:induction false} ByDirOnlyDirBeforeOther(a: FileInfoPath, b: FileInfoPath)
    ensures ByDir(a, b) <==> IsDir(a.info) && !IsDir(b.info)
    ensures IsDir(a.info) == IsDir(b.info) ==> !ByDir(a, b) && !ByDir(b, a)
  {
  }

  /** BySize is false as soon as either side is not a regular file (a
      directory in particular); between regular files it is size order. */
  lemma {:induction false} BySizeRegularOnly(a: FileInfoPath, b: FileInfoPath)
    ensures !IsRegular(a.info) || !IsRegular(b.info) ==> !BySize(a, b)
    ensures IsDir(a.info) || IsDir(b.info) ==> !BySize(a, b)
    ensures IsRegular(a.info) && IsRegular(b.info) ==> (BySize(a, b) <==> a.info.size < b.info.size)
  {
  }

  /** Entries whose modes differ only above the nine permission bits are
      unordered by ByPerm. */
  lemma {:induction false} ByPermIgnoresHighBits(a: FileInfoPath, b: FileInfoPath)
    requires a.info.mode & ModePerm == b.info.mode & ModePerm
    ensures !ByPerm(a, b) && !ByPerm(b, a)
  {
  }

  /** ByContent is lexicographic order on bytes: the first differing byte
      decides, a proper prefix ranks before, and sizes are only consulted
      when one content is a prefix of the other. */
  lemma {:induction false} ContentIsLexicographic(a: FileInfoPath, b: FileInfoPath)
    ensures ContentRank(a, b) <==>
      Lex.ProperPrefix(a.content, b.content) || exists k :: Lex.DecidedAt(a.content, b.content, Lex.ByteRank, k)
  {
    Lex.LessIffFirstDifference(a.content, b.content, Lex.ByteRank);
  }

  /** Identical contents, two empty files included, rank neither way; any two
      different contents rank exactly one way. */
  lemma {:induction false} ContentStrictTotal(a: FileInfoPath, b: FileInfoPath)
    ensures a.content == b.content ==> !ContentRank(a, b) && !ContentRank(b, a)
    ensures a.content != b.content ==> ContentRank(a, b) != ContentRank(b, a)
  {
    Lex.LessIrreflexive(a.content, Lex.ByteRank);
    Lex.LessAsymmetric(a.content, b.content, Lex.ByteRank);
    if a.content != b.content {
      Lex.ByteRankInjective();
      Lex.LessTotal(a.content, b.content, Lex.ByteRank);
    }
  }

  /** The doc comment's example: "aaa" ranks before "ab", against their sizes. */
  lemma {:induction false} ContentIgnoresLength(i: Info, j: Info)
    ensures ContentRank(FileInfoPath(i, [0x61, 0x61, 0x61]), FileInfoPath(j, [0x61, 0x62]))
    ensures !ContentRank(FileInfoPath(j, [0x61, 0x62]), FileInfoPath(i, [0x61, 0x61, 0x61]))
  {
  }

  /** The chain rule does not depend on the order of the chain. */
  lemma {:induction false} LessIgnoresChainOrder(left: FileInfoPath, right: FileInfoPath, c1: seq<Rank>, c2: seq<Rank>)
    requires multiset(c1) == multiset(c2)
    ensures Less(left, right, c1) == Less(left, right, c2)
  {
    if Less(left, right, c1) {
      var i :| 0 <= i < |c1| && c1[i](left, right);
      assert c1[i] in multiset(c2);
      var j :| 0 <= j < |c2| && c2[j] == c1[i];
    }
    if Less(left, right, c2) {
      var i :| 0 <= i < |c2| && c2[i](left, right);
      assert c2[i] in multiset(c1);
      var j :| 0 <= j < |c1| && c1[j] == c2[i];
    }
  }

  /** Appending a comparator can only turn false into true. */
  lemma {:induction false} LessAppend(left: FileInfoPath, right: FileInfoPath, cmps: seq<Rank>, extra: Rank)
    ensures Less(left, right, cmps + [extra]) == (Less(left, right, cmps) || extra(left, right))
  {
    var c := cmps + [extra];
    if Less(left, right, cmps) {
      var i :| 0 <= i < |cmps| && cmps[i](left, right);
      assert c[i] == cmps[i];
    }
    if extra(left, right) {
      assert c[|cmps|] == extra;
    }
    if Less(left, right, c) && !extra(left, right) {
      var i :| 0 <= i < |c| && c[i](left, right);
      assert i < |cmps| && c[i] == cmps[i];
    }
  }

  /** The chain rule is not a lexicographic compare: with [ByName, ByDir] a
      file named "a" and a directory named "b" each rank before the other. */
  lemma {:induction false} ChainIsNotLexicographic(f: Info, d: Info)
    requires f.name == "a" && !IsDir(f)
    requires d.name == "b" && IsDir(d)
    ensures Less(FileInfoPath(f, []), FileInfoPath(d, []), [ByName, ByDir])
    ensures Less(FileInfoPath(d, []), FileInfoPath(f, []), [ByName, ByDir])
  {
    var x, y := FileInfoPath(f, []), FileInfoPath(d, []);
    assert [ByName, ByDir][0](x, y);
    assert [ByName, ByDir][1](y, x);
  }
}
