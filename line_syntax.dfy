/**
 * Pieces shared by the two line parsers: the character classes of their
 * regular expressions, scanning a run of one class, octal permission
 * values, and the optional unquoting of a field. Parsing an RFC 3339
 * timestamp and Go's string-literal unquoting are supplied as oracles.
 */
module LineSyntax {
  import opened Wrappers
  import opened FileInfo
  import opened FsOps

  /** Go's `\s`: tab, newline, form feed, carriage return, space. */
  predicate IsSpace(c: char) { c == '\t' || c == '\n' || c == '\U{C}' || c == '\r' || c == ' ' }

  predicate IsTab(c: char) { c == '\t' }

  predicate IsNotTab(c: char) { c != '\t' }

  /** The characters of `[-0-9T:Z]`, the only ones a timestamp token may hold. */
  predicate IsTimeChar(c: char) { c == '-' || ('0' <= c <= '9') || c == 'T' || c == ':' || c == 'Z' }

  predicate IsOctalDigit(c: char) { '0' <= c <= '7' }

  /** A field is passed through the unquoting oracle when it starts with one of these. */
  predicate IsQuote(c: char) { c == '"' || c == '`' }

  /** The line matches `^\s*$`. */
  predicate IsBlank(line: string)
  {
    forall i :: 0 <= i < |line| ==> IsSpace(line[i])
  }

  /** A string is its part before position `k` followed by the rest. */
  lemma {:induction false} SplitAt(s: string, k: nat)
    requires k <= |s|
    ensures s == s[..k] + s[k..]
  {
  }

  /** A string split after its longest leading run of class `p`. */
  lemma {:induction false} Peel(s: string, p: char -> bool) returns (run: string, rest: string)
    ensures run == s[..Span(s, 0, p)] && rest == s[Span(s, 0, p)..] && s == run + rest
    ensures forall k :: 0 <= k < |run| ==> p(run[k])
    ensures rest == [] || !p(rest[0])
  {
    var n := Span(s, 0, p);
    run, rest := s[..n], s[n..];
    assert forall k :: 0 <= k < |run| ==> run[k] == s[k];
    assert rest != [] ==> rest[0] == s[n];
  }

  /** A run of `\s+`: one or more whitespace characters. */
  predicate SpaceRun(w: string)
  {
    w != [] && IsBlank(w)
  }

  /** Tabs only, possibly none. */
  predicate AllTabs(w: string)
  {
    forall i :: 0 <= i < |w| ==> IsTab(w[i])
  }

  /** A run of `\t+`: one or more tabs. */
  predicate TabRun(w: string)
  {
    w != [] && AllTabs(w)
  }

  /** The end of the longest run of characters satisfying `p` that starts at `i`. */
  function Span(s: string, i: nat, p: char -> bool): (j: nat)
    requires i <= |s|
    ensures i <= j <= |s|
    ensures forall k :: i <= k < j ==> p(s[k])
    ensures j == |s| || !p(s[j])
    decreases |s| - i
  {
    if i == |s| || !p(s[i]) then i else Span(s, i + 1, p)
  }

  /** A run that a character outside the class ends cannot be extended:
      Span finds exactly the end of a run built that way. */
  lemma {:induction false} SpanOfRun(s: string, i: nat, j: nat, p: char -> bool)
    requires i <= j <= |s|
    requires forall k :: i <= k < j ==> p(s[k])
    requires j == |s| || !p(s[j])
    ensures Span(s, i, p) == j
    decreases j - i
  {
    if i < j {
      SpanOfRun(s, i + 1, j, p);
    }
  }

  /** Parses an RFC 3339 timestamp into nanoseconds since the epoch, or fails. */
  type TimeParser = string -> Option<int>

  /** Go's strconv.Unquote: the value of a quoted string literal, or failure. */
  type Unquoter = string -> Option<string>

  /** A field taken verbatim, or through the unquoting oracle when it starts with a quote. */
  function Unquoted(field: string, unquote: Unquoter): (r: Result<string, Error>)
    ensures field == [] || !IsQuote(field[0]) ==> r == Success(field)
    ensures field != [] && IsQuote(field[0]) && unquote(field).None? ==> r == Failure(BadQuote(field))
    ensures field != [] && IsQuote(field[0]) && unquote(field).Some? ==> r == Success(unquote(field).value)
  {
    if field != [] && IsQuote(field[0]) then
      match unquote(field)
      case None => Failure(BadQuote(field))
      case Some(v) => Success(v)
    else Success(field)
  }

  /** What one line parses to. */
  datatype Parsed<N> = Blank | Entry(entry: N) | Bad(error: Error)

  /** Reading a whole input: the first line's error, or the entries of the
      non-blank lines in order. */
  function Collect<N>(ps: seq<Parsed<N>>): Result<seq<N>, Error>
  {
    if ps == [] then Success([])
    else match ps[0]
      case Blank => Collect(ps[1..])
      case Bad(e) => Failure(e)
      case Entry(n) => Prepend([n], Collect(ps[1..]))
  }

  function Prepend<N>(ns: seq<N>, r: Result<seq<N>, Error>): Result<seq<N>, Error>
  {
    match r
    case Success(rest) => Success(ns + rest)
    case Failure(e) => Failure(e)
  }

  /** One more line read: what reading the rest from line `i` on gives,
      in terms of line `i` and the lines after it. */
  lemma {:induction false} CollectStep<N>(ps: seq<Parsed<N>>, i: nat, done: seq<N>)
    requires i < |ps|
    ensures ps[i].Blank? ==> Prepend(done, Collect(ps[i..])) == Prepend(done, Collect(ps[i + 1..]))
    ensures ps[i].Bad? ==> Prepend(done, Collect(ps[i..])) == Failure(ps[i].error)
    ensures ps[i].Entry? ==> Prepend(done, Collect(ps[i..])) == Prepend(done + [ps[i].entry], Collect(ps[i + 1..]))
  {
    assert ps[i..][0] == ps[i] && ps[i..][1..] == ps[i + 1..];
    var rest := Collect(ps[i + 1..]);
    if ps[i].Entry? && rest.Success? {
      assert done + ([ps[i].entry] + rest.value) == (done + [ps[i].entry]) + rest.value;
    }
  }

  /** Nothing read yet, and nothing left to read. */
  lemma {:induction false} CollectEnds<N>(ps: seq<Parsed<N>>, done: seq<N>)
    ensures Prepend([], Collect(ps)) == Collect(ps)
    ensures Prepend(done, Collect(ps[|ps|..])) == Success(done)
  {
    assert ps[|ps|..] == [];
    assert done + [] == done;
    if Collect(ps).Success? {
      assert [] + Collect(ps).value == Collect(ps).value;
    }
  }

  /** Every line the reader gets to can be parsed: each line up to and
      including the first bad one is Some. None stands for a line the
      parser cannot handle; the lines after the first bad one are never
      read, so they may be anything. */
  predicate ReadableUntilBad<N>(os: seq<Option<Parsed<N>>>)
    decreases |os|
  {
    os == [] || (os[0].Some? && (os[0].value.Bad? || ReadableUntilBad(os[1..])))
  }

  /** What the lines the reader gets to parse to, in order: every line up
      to and including the first bad one. */
  function UpToBad<N>(os: seq<Option<Parsed<N>>>): (ps: seq<Parsed<N>>)
    requires ReadableUntilBad(os)
    ensures |ps| <= |os|
    ensures forall i :: 0 <= i < |ps| ==> os[i] == Some(ps[i])
    ensures forall i :: 0 <= i < |ps| - 1 ==> !ps[i].Bad?
    ensures |ps| < |os| ==> ps != [] && ps[|ps| - 1].Bad?
    decreases |os|
  {
    if os == [] then []
    else if os[0].value.Bad? then [os[0].value]
    else
      var rest := UpToBad(os[1..]);
      assert forall i :: 1 <= i < |rest| + 1 ==> ([os[0].value] + rest)[i] == rest[i - 1] && os[i] == os[1..][i - 1];
      [os[0].value] + rest
  }

  /** Reading line `i`: it can be parsed; a bad line ends the reading, and
      any other line is followed by the lines after it. */
  lemma {:induction false} ReadLineAt<N>(os: seq<Option<Parsed<N>>>, i: nat)
    requires i < |os| && ReadableUntilBad(os[i..])
    ensures os[i].Some?
    ensures os[i].value.Bad? ==> UpToBad(os[i..]) == [os[i].value]
    ensures !os[i].value.Bad? ==> ReadableUntilBad(os[i + 1..])
    ensures !os[i].value.Bad? ==> UpToBad(os[i..]) == [os[i].value] + UpToBad(os[i + 1..])
  {
    assert os[i..][0] == os[i] && os[i..][1..] == os[i + 1..];
  }

  /** Where reading starts and ends: all the lines ahead, then none. */
  lemma {:induction false} ReadEndsAt<N>(os: seq<Option<Parsed<N>>>)
    ensures os[0..] == os
    ensures UpToBad(os[|os|..]) == []
  {
    assert os[|os|..] == [];
  }

  /** One more line read, as Collect sees it: a blank line adds nothing,
      an entry is added at the end, and a bad line is the result. */
  lemma {:induction false} CollectHead<N>(p: Parsed<N>, rest: seq<Parsed<N>>, done: seq<N>)
    ensures p.Blank? ==> Prepend(done, Collect([p] + rest)) == Prepend(done, Collect(rest))
    ensures p.Bad? ==> Prepend(done, Collect([p] + rest)) == Failure(p.error)
    ensures p.Entry? ==> Prepend(done, Collect([p] + rest)) == Prepend(done + [p.entry], Collect(rest))
  {
    CollectStep([p] + rest, 0, done);
    assert ([p] + rest)[0..] == [p] + rest && ([p] + rest)[1..] == rest;
  }

  /** The entries among the parsed lines, in order. */
  function Entries<N>(ps: seq<Parsed<N>>): (ns: seq<N>)
    ensures |ns| <= |ps|
  {
    if ps == [] then []
    else (if ps[0].Entry? then [ps[0].entry] else []) + Entries(ps[1..])
  }

  /** Reading one more line adds its entry, if it has one, at the end. */
  lemma {:induction false} EntriesSnoc<N>(ps: seq<Parsed<N>>, i: nat)
    requires i < |ps|
    ensures Entries(ps[..i + 1]) == Entries(ps[..i]) + (if ps[i].Entry? then [ps[i].entry] else [])
    decreases i
  {
    if i > 0 {
      EntriesSnoc(ps[1..], i - 1);
      assert ps[..i + 1][1..] == ps[1..][..i];
      assert ps[..i][1..] == ps[1..][..i - 1];
      assert ps[1..][i - 1] == ps[i];
    } else {
      assert ps[..1] == [ps[0]];
    }
  }

  /** The number of lines that are not blank. */
  function NonBlankCount<N>(ps: seq<Parsed<N>>): (c: nat)
    ensures c <= |ps|
  {
    if ps == [] then 0 else (if ps[0].Blank? then 0 else 1) + NonBlankCount(ps[1..])
  }

  /** Reading succeeds exactly when no line is bad, and then yields every
      entry, one per non-blank line. */
  lemma {:induction false} CollectSucceeds<N>(ps: seq<Parsed<N>>)
    ensures Collect(ps).Success? <==> forall i :: 0 <= i < |ps| ==> !ps[i].Bad?
    ensures Collect(ps).Success? ==> Collect(ps).value == Entries(ps) && |Entries(ps)| == NonBlankCount(ps)
    decreases |ps|
  {
    if ps != [] {
      CollectSucceeds(ps[1..]);
      assert forall i :: 1 <= i < |ps| ==> ps[i] == ps[1..][i - 1];
    }
  }

  /** A failed read reports the first bad line's error; every line before it
      parsed. */
  lemma {:induction false} CollectFirstError<N>(ps: seq<Parsed<N>>) returns (k: nat)
    requires Collect(ps).Failure?
    ensures k < |ps| && ps[k] == Bad(Collect(ps).error)
    ensures forall i :: 0 <= i < k ==> !ps[i].Bad?
    decreases |ps|
  {
    if ps[0].Bad? {
      k := 0;
    } else {
      var j := CollectFirstError(ps[1..]);
      k := j + 1;
      assert ps[k] == ps[1..][j];
      assert forall i :: 1 <= i < k ==> ps[i] == ps[1..][i - 1];
    }
  }

  function Pow8(n: nat): (p: nat)
    ensures p >= 1
  {
    if n == 0 then 1 else 8 * Pow8(n - 1)
  }

  function DigitValue(c: char): (d: nat)
    requires IsOctalDigit(c)
    ensures d < 8
  {
    (c as int) - ('0' as int)
  }

  function DigitChar(d: nat): (c: char)
    requires d < 8
    ensures IsOctalDigit(c) && DigitValue(c) == d
  {
    (('0' as int) + d) as char
  }

  predicate AllOctal(s: string)
  {
    forall i :: 0 <= i < |s| ==> IsOctalDigit(s[i])
  }

  /** The value of a string of octal digits, most significant first, as
      strconv.ParseUint(s, 8, 32) computes it. */
  function OctalValue(s: string): nat
    requires AllOctal(s)
  {
    if s == [] then 0 else DigitValue(s[0]) * Pow8(|s| - 1) + OctalValue(s[1..])
  }

  /** `n` digits have a value below 8 to the `n`: five digits behind a
      leading zero stay at most 0o7777. */
  lemma {:induction false} OctalValueBound(s: string)
    requires AllOctal(s)
    ensures OctalValue(s) < Pow8(|s|)
    decreases |s|
  {
    if s != [] {
      OctalValueBound(s[1..]);
      var d, p := DigitValue(s[0]), Pow8(|s| - 1);
      assert d * p <= 7 * p by { MulMono(d, 7, p); }
    }
  }

  lemma {:induction false} Pow8Mono(m: nat, n: nat)
    requires m <= n
    ensures Pow8(m) <= Pow8(n)
    decreases n
  {
    if m < n {
      Pow8Mono(m, n - 1);
    }
  }

  lemma {:induction false} MulMono(a: nat, b: nat, p: nat)
    requires a <= b
    ensures a * p <= b * p
  {
  }

  /** `v` written with exactly `n` octal digits, leading zeros included. */
  function OctalDigits(v: nat, n: nat): (s: string)
    requires v < Pow8(n)
    ensures |s| == n && AllOctal(s)
  {
    if n == 0 then ""
    else
      var p := Pow8(n - 1);
      DivBound(v, p);
      [DigitChar(v / p)] + OctalDigits(v % p, n - 1)
  }

  lemma {:induction false} DivBound(v: nat, p: nat)
    requires p >= 1 && v < 8 * p
    ensures v / p < 8 && v % p < p
  {
  }

  /** Reading back what OctalDigits writes gives the number written. */
  lemma {:induction false} OctalRoundTrip(v: nat, n: nat)
    requires v < Pow8(n)
    ensures OctalValue(OctalDigits(v, n)) == v
    decreases n
  {
    if n > 0 {
      var p := Pow8(n - 1);
      DivBound(v, p);
      OctalRoundTrip(v % p, n - 1);
      var s := OctalDigits(v, n);
      var q, r := v / p, v % p;
      assert s[0] == DigitChar(q) && s[1..] == OctalDigits(r, n - 1);
      assert DigitValue(s[0]) == q;
      assert OctalValue(s) == q * p + OctalValue(s[1..]);
      DivMod(v, p);
    }
  }

  lemma {:induction false} DivMod(v: nat, p: nat)
    requires p >= 1
    ensures (v / p) * p + v % p == v
  {
  }

  /** A timestamp token: one or more of `-0123456789T:Z`. */
  predicate TimeToken(s: string)
  {
    s != [] && forall i :: 0 <= i < |s| ==> IsTimeChar(s[i])
  }

  /** A permission token: a zero and at most four more octal digits. */
  predicate PermToken(s: string)
  {
    1 <= |s| <= 5 && s[0] == '0' && AllOctal(s)
  }

  /** A run of `a`, all in the class and followed by `b`, which does not
      start with a character of the class, is the longest such run. */
  lemma {:induction false} SpanPrefix(a: string, b: string, p: char -> bool)
    requires forall k :: 0 <= k < |a| ==> p(a[k])
    requires b == [] || !p(b[0])
    ensures Span(a + b, 0, p) == |a|
  {
    SpanOfRun(a + b, 0, |a|, p);
  }

  /** Splits text that starts with '0' where both line patterns split it:
      after the octal digits that follow the '0', and after the run of
      separators (`sep`) that comes next. */
  lemma {:induction false} PermSplit(s: string, sep: char -> bool) returns (perm: string, w: string, rest: string)
    requires s != [] && s[0] == '0'
    ensures perm == s[..1 + Span(s[1..], 0, IsOctalDigit)]
    ensures var afterPerm := s[1 + Span(s[1..], 0, IsOctalDigit)..];
      w == afterPerm[..Span(afterPerm, 0, sep)] && rest == afterPerm[Span(afterPerm, 0, sep)..]
    ensures perm != [] && perm[0] == '0' && (forall k :: 1 <= k < |perm| ==> IsOctalDigit(perm[k]))
    ensures (forall k :: 0 <= k < |w| ==> sep(w[k])) && (rest == [] || !sep(rest[0]))
    ensures s == perm + (w + rest)
  {
    var digits, afterPerm := Peel(s[1..], IsOctalDigit);
    var p := 1 + |digits|;
    SplitAt(s, 1);
    assert s[..p] == s[..1] + digits && s[p..] == afterPerm;
    perm := s[..p];
    assert forall k :: 1 <= k < p ==> perm[k] == digits[k - 1];
    w, rest := Peel(afterPerm, sep);
    SplitAt(s, p);
  }

  /** os.FileMode of a parsed permission value; twelve bits are kept as they are. */
  function PermMode(v: nat): (m: FileMode)
    requires v <= 0xFFF
  {
    v as bv32
  }

  /** A leading zero and at most four more octal digits stay below 0o10000. */
  lemma {:induction false} PermFits(perm: string)
    requires PermToken(perm)
    ensures OctalValue(perm) <= 0xFFF
  {
    assert OctalValue(perm) == OctalValue(perm[1..]);
    OctalValueBound(perm[1..]);
    assert Pow8(|perm[1..]|) <= Pow8(4) by { Pow8Mono(|perm[1..]|, 4); }
  }
}
