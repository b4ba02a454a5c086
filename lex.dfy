/**
 * Strict lexicographic order on sequences, the order Go uses for `<` on
 * strings and the order that a byte-by-byte content scan computes.
 *
 * Dafny's own `<` on sequences means "proper prefix", so the order is
 * defined here. Elements are compared through a rank into the integers:
 * a character by its code point, a byte by its value. For strings that
 * are valid UTF-8 this agrees with Go's byte-wise comparison, because
 * UTF-8 preserves code point order. A Go string that is not valid UTF-8
 * has no counterpart here.
 */
module Lex {

  /** The rank of a character: its Unicode code point. */
  function CharRank(c: char): int { c as int }

  /** The rank of a byte: its unsigned value. */
  function ByteRank(b: bv8): int { b as int }

  /** `a` sorts strictly before `b`: the first differing element decides,
      and a proper prefix sorts before the longer sequence. */
  function Less<T(==)>(a: seq<T>, b: seq<T>, rank: T -> int): bool
    decreases |a|
  {
    if b == [] then false
    else if a == [] then true
    else if a[0] == b[0] then Less(a[1..], b[1..], rank)
    else rank(a[0]) < rank(b[0])
  }

  /** `a` and `b` agree on their first `k` elements and differ at position
      `k`, where the element of `a` ranks lower. */
  ghost predicate DecidedAt<T>(a: seq<T>, b: seq<T>, rank: T -> int, k: int)
  {
    0 <= k < |a| && k < |b| && a[..k] == b[..k] && rank(a[k]) < rank(b[k])
  }

  /** `a` is a proper prefix of `b`. */
  ghost predicate ProperPrefix<T>(a: seq<T>, b: seq<T>)
  {
    |a| < |b| && a == b[..|a|]
  }

  /** A first difference in favour of `a` makes `a` sort first. */
  lemma {:induction false} DecidedAtLess<T>(a: seq<T>, b: seq<T>, rank: T -> int, k: int)
    requires DecidedAt(a, b, rank, k)
    ensures Less(a, b, rank)
    decreases k
  {
    if k > 0 {
      assert a[0] == a[..k][0] == b[..k][0] == b[0];
      assert a[1..][..k - 1] == a[..k][1..] && b[1..][..k - 1] == b[..k][1..];
      DecidedAtLess(a[1..], b[1..], rank, k - 1);
    }
  }

  /** A proper prefix sorts first. */
  lemma {:induction false} ProperPrefixLess<T>(a: seq<T>, b: seq<T>, rank: T -> int)
    requires ProperPrefix(a, b)
    ensures Less(a, b, rank)
    decreases |a|
  {
    if a != [] {
      assert a[0] == b[..|a|][0] == b[0];
      assert a[1..] == b[1..][..|a| - 1];
      ProperPrefixLess(a[1..], b[1..], rank);
    }
  }

  /** Whenever `a` sorts first, there is a first difference in its favour or it is a proper prefix. */
  lemma {:induction false} LessDecided<T>(a: seq<T>, b: seq<T>, rank: T -> int) returns (k: int)
    requires Less(a, b, rank)
    ensures ProperPrefix(a, b) || DecidedAt(a, b, rank, k)
    decreases |a|
  {
    k := 0;
    if a != [] && a[0] == b[0] {
      var j := LessDecided(a[1..], b[1..], rank);
      if ProperPrefix(a[1..], b[1..]) {
        assert a == [a[0]] + a[1..] && b[..|a|] == [b[0]] + b[1..][..|a| - 1];
      } else {
        k := j + 1;
        assert a[..k] == [a[0]] + a[1..][..j] && b[..k] == [b[0]] + b[1..][..j];
      }
    }
  }

  /** The order is exactly "first difference in favour of `a`, or proper prefix":
      the first differing element decides, and length is consulted only when
      one sequence is a prefix of the other. */
  lemma {:induction false} LessIffFirstDifference<T>(a: seq<T>, b: seq<T>, rank: T -> int)
    ensures Less(a, b, rank) <==> ProperPrefix(a, b) || exists k :: DecidedAt(a, b, rank, k)
  {
    if Less(a, b, rank) {
      var k := LessDecided(a, b, rank);
    }
    if ProperPrefix(a, b) {
      ProperPrefixLess(a, b, rank);
    }
    if exists k :: DecidedAt(a, b, rank, k) {
      var k :| DecidedAt(a, b, rank, k);
      DecidedAtLess(a, b, rank, k);
    }
  }

  /** No sequence sorts before itself. */
  lemma {:induction false} LessIrreflexive<T>(a: seq<T>, rank: T -> int)
    ensures !Less(a, a, rank)
    decreases |a|
  {
    if a != [] {
      LessIrreflexive(a[1..], rank);
    }
  }

  /** The order is never true in both directions. */
  lemma {:induction false} LessAsymmetric<T>(a: seq<T>, b: seq<T>, rank: T -> int)
    ensures Less(a, b, rank) ==> !Less(b, a, rank)
    decreases |a|
  {
    if a != [] && b != [] && a[0] == b[0] {
      LessAsymmetric(a[1..], b[1..], rank);
    }
  }

  /** The order is transitive. */
  lemma {:induction false} LessTransitive<T>(a: seq<T>, b: seq<T>, c: seq<T>, rank: T -> int)
    requires Less(a, b, rank) && Less(b, c, rank)
    ensures Less(a, c, rank)
    decreases |a|
  {
    if a != [] && b != [] && c != [] && a[0] == b[0] && b[0] == c[0] {
      LessTransitive(a[1..], b[1..], c[1..], rank);
    }
  }

  /** With a rank that tells elements apart, any two different sequences
      are ordered one way or the other. */
  lemma {:induction false} LessTotal<T>(a: seq<T>, b: seq<T>, rank: T -> int)
    requires forall x, y :: rank(x) == rank(y) ==> x == y
    requires a != b
    ensures Less(a, b, rank) || Less(b, a, rank)
    decreases |a|
  {
    if a != [] && b != [] && a[0] == b[0] {
      assert a == [a[0]] + a[1..] && b == [b[0]] + b[1..];
      LessTotal(a[1..], b[1..], rank);
    }
  }

  /** Code points tell characters apart. */
  lemma {:induction false} CharRankInjective()
    ensures forall x: char, y: char :: CharRank(x) == CharRank(y) ==> x == y
  {
  }

  /** Byte values tell bytes apart. */
  lemma {:induction false} ByteRankInjective()
    ensures forall x: bv8, y: bv8 :: ByteRank(x) == ByteRank(y) ==> x == y
  {
  }
}
