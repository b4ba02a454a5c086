/**
 * The directory-list format and the directory builder (dir_create.go).
 *
 * A line is `time<space+>perm<space+>path`, the path running to the end of
 * the line. DirCreate makes each directory at mode 0700 as soon as its
 * line is read, and once every line is read applies the permissions and
 * times, last directory first.
 */
module DirCreate {
  import opened Wrappers
  import opened FileInfo
  import opened FsOps
  import opened LineSyntax

  /** One directory to create (dir_entry.go). */
  datatype DirEntry = DirEntry(name: string, perm: FileMode, time: int)

  /** The capture groups of the line pattern. */
  datatype DirFields = DirFields(time: string, perm: string, path: string)

  predicate NoNewline(s: string)
  {
    forall i :: 0 <= i < |s| ==> s[i] != '\n'
  }

  /** Fields the pattern can capture: whitespace cannot start the path,
      since the run before it takes all of it, and `.` stops at a newline. */
  predicate WellFormed(f: DirFields)
  {
    TimeToken(f.time) && PermToken(f.perm) && NoNewline(f.path) && (f.path == [] || !IsSpace(f.path[0]))
  }

  /** The line pattern `^([-0-9T:Z]+)\s+(0[0-7]{0,4})\s+(.*)$`, written out
      up to the permission token. */
  function MatchLine(line: string): (f: Option<DirFields>)
    ensures f.Some? ==> WellFormed(f.value)
  {
    var t := Span(line, 0, IsTimeChar);
    var afterTime := line[t..];
    var atPerm := afterTime[Span(afterTime, 0, IsSpace)..];
    if t == 0 || |atPerm| == |afterTime| || atPerm == [] || atPerm[0] != '0' then None
    else MatchPerm(line[..t], atPerm)
  }

  /** The pattern from the permission token, which starts with '0', on.
      The whitespace run after the token takes all the whitespace there is,
      and the path is what is left, with no newline in it. */
  function MatchPerm(time: string, s: string): (f: Option<DirFields>)
    requires TimeToken(time) && s != [] && s[0] == '0'
    ensures f.Some? ==> WellFormed(f.value) && f.value.time == time
  {
    var p := 1 + Span(s[1..], 0, IsOctalDigit);
    var afterPerm := s[p..];
    var w := Span(afterPerm, 0, IsSpace);
    var path := afterPerm[w..];
    if p > 5 || w == 0 || !NoNewline(path) then None
    else
      assert forall k :: 1 <= k < p ==> s[k] == s[1..][k - 1];
      Some(DirFields(time, s[..p], path))
  }

  /** A line the builder would read back into the given fields. */
  function FormatLine(f: DirFields): string
  {
    f.time + (" " + (f.perm + (" " + f.path)))
  }

  /** How the pattern lays out a line: the time token at the very start,
      a whitespace run, the permission token, a whitespace run, and the
      path to the end of the line. */
  predicate LaidOut(line: string, f: DirFields, w1: string, w2: string)
  {
    SpaceRun(w1) && SpaceRun(w2) && line == f.time + (w1 + (f.perm + (w2 + f.path)))
  }

  /** The permission token, any whitespace run and the path are read back. */
  lemma {:induction false} PermMatches(f: DirFields, w2: string)
    requires WellFormed(f) && SpaceRun(w2)
    ensures MatchPerm(f.time, f.perm + (w2 + f.path)) == Some(f)
  {
    var s := f.perm + (w2 + f.path);
    assert s[1..] == f.perm[1..] + (w2 + f.path);
    SpanPrefix(f.perm[1..], w2 + f.path, IsOctalDigit);
    var p := |f.perm|;
    assert s[..p] == f.perm && s[p..] == w2 + f.path;
    SpanPrefix(w2, f.path, IsSpace);
    assert (w2 + f.path)[|w2|..] == f.path;
  }

  /** A line laid out as the pattern allows is read back into its fields. */
  lemma {:induction false} LaidOutMatches(line: string, f: DirFields, w1: string, w2: string)
    requires WellFormed(f) && LaidOut(line, f, w1, w2)
    ensures MatchLine(line) == Some(f)
  {
    var atPerm := f.perm + (w2 + f.path);
    SpanPrefix(f.time, w1 + atPerm, IsTimeChar);
    var t := |f.time|;
    assert line[..t] == f.time && line[t..] == w1 + atPerm;
    SpanPrefix(w1, atPerm, IsSpace);
    assert (w1 + atPerm)[|w1|..] == atPerm;
    PermMatches(f, w2);
  }

  /** MatchLine peels the time token and a whitespace run off the line and
      hands the rest to MatchPerm. */
  lemma {:induction false} MatchLineSteps(line: string) returns (time: string, w1: string, atPerm: string)
    requires MatchLine(line).Some?
    ensures TimeToken(time) && SpaceRun(w1)
    ensures atPerm != [] && atPerm[0] == '0' && line == time + (w1 + atPerm)
    ensures MatchPerm(time, atPerm) == MatchLine(line)
  {
    var afterTime;
    time, afterTime := Peel(line, IsTimeChar);
    w1, atPerm := Peel(afterTime, IsSpace);
  }

  /** MatchPerm reads the permission token, a whitespace run and the rest
      of the line as the path. */
  lemma {:induction false} MatchPermSteps(time: string, s: string) returns (w2: string)
    requires TimeToken(time) && s != [] && s[0] == '0' && MatchPerm(time, s).Some?
    ensures SpaceRun(w2)
    ensures s == MatchPerm(time, s).value.perm + (w2 + MatchPerm(time, s).value.path)
  {
    var perm, path;
    perm, w2, path := PermSplit(s, IsSpace);
  }

  /** A line the pattern matches is laid out as LaidOut says, with the runs
      the matcher found. */
  lemma {:induction false} MatchLineParts(line: string, f: DirFields) returns (w1: string, w2: string)
    requires MatchLine(line) == Some(f)
    ensures LaidOut(line, f, w1, w2)
  {
    var time, atPerm;
    time, w1, atPerm := MatchLineSteps(line);
    w2 := MatchPermSteps(time, atPerm);
    assert f.time == time;
  }

  /** The hand-written pattern reads exactly the lines laid out as
      `^([-0-9T:Z]+)\s+(0[0-7]{0,4})\s+(.*)$` allows, into the fields that
      layout spells out. */
  lemma {:induction false} MatchLineLaidOut(line: string, f: DirFields)
    ensures MatchLine(line) == Some(f) <==> WellFormed(f) && exists w1, w2 :: LaidOut(line, f, w1, w2)
  {
    if MatchLine(line) == Some(f) {
      var w1, w2 := MatchLineParts(line, f);
    }
    if WellFormed(f) && exists w1, w2 :: LaidOut(line, f, w1, w2) {
      var w1, w2 :| LaidOut(line, f, w1, w2);
      LaidOutMatches(line, f, w1, w2);
    }
  }

  /** A line that starts with whitespace but is not blank is not read: the
      time token must open the line. */
  lemma {:induction false} LeadingSpaceUnreadable(line: string, parseTime: TimeParser)
    requires line != [] && IsSpace(line[0]) && !IsBlank(line)
    ensures MatchLine(line).None? && !Readable(line, parseTime)
  {
  }

  /** The pattern reads back every line written from well-formed fields. */
  lemma {:induction false} FormatMatches(f: DirFields)
    requires WellFormed(f)
    ensures MatchLine(FormatLine(f)) == Some(f)
  {
    LaidOutMatches(FormatLine(f), f, " ", " ");
  }

  /** A line the parser can handle: blank, or matching the pattern with a
      path that is not empty or a timestamp that fails to parse (the time
      is converted, and its error returned, before the path is looked at).
      Any other line makes the source index a nil match or an empty path
      and crash. */
  predicate Readable(line: string, parseTime: TimeParser)
  {
    || IsBlank(line)
    || (MatchLine(line).Some? && (MatchLine(line).value.path != [] || parseTime(MatchLine(line).value.time).None?))
  }

  /** parse, once the pattern has matched: the timestamp, then the path are
      converted, and the first failure is the result. */
  function ParseFields(f: DirFields, parseTime: TimeParser, unquote: Unquoter): (r: Parsed<DirEntry>)
    requires PermToken(f.perm)
    ensures !r.Blank?
    ensures parseTime(f.time).None? ==> r == Bad(BadTime(f.time))
    ensures parseTime(f.time).Some? && Unquoted(f.path, unquote).Failure? ==> r == Bad(BadQuote(f.path))
    ensures r.Entry? <==> parseTime(f.time).Some? && Unquoted(f.path, unquote).Success?
    ensures r.Entry? ==>
      && r.entry.time == parseTime(f.time).value
      && OctalValue(f.perm) <= 0xFFF && r.entry.perm == PermMode(OctalValue(f.perm))
      && Unquoted(f.path, unquote) == Success(r.entry.name)
  {
    match parseTime(f.time)
    case None => Bad(BadTime(f.time))
    case Some(t) =>
      PermFits(f.perm);
      var perm := PermMode(OctalValue(f.perm));
      match Unquoted(f.path, unquote)
      case Failure(e) => Bad(e)
      case Success(path) => Entry(DirEntry(path, perm, t))
  }

  /** parse: blank lines give Blank; any other readable line is parsed from its fields. */
  function Parse(line: string, parseTime: TimeParser, unquote: Unquoter): (r: Parsed<DirEntry>)
    requires Readable(line, parseTime)
    ensures r.Blank? <==> IsBlank(line)
    ensures !IsBlank(line) ==> r == ParseFields(MatchLine(line).value, parseTime, unquote)
  {
    if IsBlank(line) then Blank else ParseFields(MatchLine(line).value, parseTime, unquote)
  }

  /** Fields whose path needs no unquoting give the directory they spell out. */
  lemma {:induction false} ParsePlainFields(f: DirFields, parseTime: TimeParser, unquote: Unquoter)
    requires PermToken(f.perm) && parseTime(f.time).Some? && f.path != [] && !IsQuote(f.path[0])
    ensures OctalValue(f.perm) <= 0xFFF
    ensures ParseFields(f, parseTime, unquote)
      == Entry(DirEntry(f.path, PermMode(OctalValue(f.perm)), parseTime(f.time).value))
  {
    PermFits(f.perm);
    assert Unquoted(f.path, unquote) == Success(f.path);
  }

  /** A written line whose path needs no unquoting parses back to the
      directory it describes. */
  lemma {:induction false} ParseFormatted(f: DirFields, parseTime: TimeParser, unquote: Unquoter)
    requires WellFormed(f) && parseTime(f.time).Some? && f.path != [] && !IsQuote(f.path[0])
    ensures Readable(FormatLine(f), parseTime) && OctalValue(f.perm) <= 0xFFF
    ensures Parse(FormatLine(f), parseTime, unquote)
      == Entry(DirEntry(f.path, PermMode(OctalValue(f.perm)), parseTime(f.time).value))
  {
    var line := FormatLine(f);
    FormatMatches(f);
    assert !IsBlank(line) by { assert line[0] == f.time[0]; }
    ParsePlainFields(f, parseTime, unquote);
  }

  /** What one line parses to, or None for a line on which the source
      panics. */
  function ParseLine(line: string, parseTime: TimeParser, unquote: Unquoter): (o: Option<Parsed<DirEntry>>)
    ensures o.Some? <==> Readable(line, parseTime)
    ensures o.Some? ==> o.value == Parse(line, parseTime, unquote)
  {
    if Readable(line, parseTime) then Some(Parse(line, parseTime, unquote)) else None
  }

  /** A matched line with an empty path is read when its timestamp fails
      to parse: the source returns the time error before it looks at the
      path. */
  lemma {:induction false} EmptyPathBadTime(line: string, parseTime: TimeParser, unquote: Unquoter)
    requires MatchLine(line).Some? && MatchLine(line).value.path == []
    requires parseTime(MatchLine(line).value.time).None?
    ensures ParseLine(line, parseTime, unquote) == Some(Bad(BadTime(MatchLine(line).value.time)))
  {
    var time, w1, atPerm := MatchLineSteps(line);
    assert line[0] == time[0];
  }

  /** So the line written from a time that fails to parse, a permission
      and an empty path, such as "2017-13-01T00:00:00Z 0755 ", gives the
      time error. */
  lemma {:induction false} FormattedBadTime(f: DirFields, parseTime: TimeParser, unquote: Unquoter)
    requires WellFormed(f) && f.path == [] && parseTime(f.time).None?
    ensures ParseLine(FormatLine(f), parseTime, unquote) == Some(Bad(BadTime(f.time)))
  {
    FormatMatches(f);
    EmptyPathBadTime(FormatLine(f), parseTime, unquote);
  }

  /** What each line parses to, in order. */
  function ParseLines(lines: seq<string>, parseTime: TimeParser, unquote: Unquoter): (os: seq<Option<Parsed<DirEntry>>>)
    ensures |os| == |lines|
    ensures forall i :: 0 <= i < |lines| ==> os[i] == ParseLine(lines[i], parseTime, unquote)
  {
    if lines == [] then []
    else
      assert forall i :: 1 <= i < |lines| ==> lines[1..][i - 1] == lines[i];
      [ParseLine(lines[0], parseTime, unquote)] + ParseLines(lines[1..], parseTime, unquote)
  }

  /** The steps the reading loop takes: nothing for a blank line, the
      parse error for a bad one, and a 0700 directory for the rest. */
  function ReadSteps(ps: seq<Parsed<DirEntry>>): seq<Step>
  {
    if ps == [] then []
    else
      var head := match ps[0]
        case Blank => []
        case Bad(e) => [Abort(e)]
        case Entry(d) => [Do(Mkdir(d.name, OwnerOnly))];
      head + ReadSteps(ps[1..])
  }

  /** The attribute steps, last directory first. */
  function AttrSteps(dirs: seq<DirEntry>): seq<Step>
  {
    if dirs == [] then []
    else
      var d := dirs[|dirs| - 1];
      [Do(Chmod(d.name, d.perm)), Do(Chtimes(d.name, d.time, d.time))] + AttrSteps(dirs[..|dirs| - 1])
  }

  /** Everything DirCreate attempts when nothing fails. */
  function Plan(ps: seq<Parsed<DirEntry>>): seq<Step>
  {
    ReadSteps(ps) + AttrSteps(Entries(ps))
  }

  /** One more line read: a blank line does nothing, a bad line ends the
      run with its error, and an entry line attempts its 0700 Mkdir before
      the rest. */
  lemma {:induction false} ReadHead(fails: Oracle, done: seq<Op>, p: Parsed<DirEntry>, rest: seq<Parsed<DirEntry>>, tail: seq<Step>)
    ensures p.Bad? ==> Run(fails, done, ReadSteps([p]) + tail) == (done, Some(p.error))
    ensures p.Blank? ==> Run(fails, done, ReadSteps([p] + rest) + tail) == Run(fails, done, ReadSteps(rest) + tail)
    ensures p.Entry? ==>
      Run(fails, done, ReadSteps([p] + rest) + tail) ==
        if fails(done, Mkdir(p.entry.name, OwnerOnly))
        then (done + [Mkdir(p.entry.name, OwnerOnly)], Some(OpFailed(Mkdir(p.entry.name, OwnerOnly))))
        else Run(fails, done + [Mkdir(p.entry.name, OwnerOnly)], ReadSteps(rest) + tail)
  {
    assert ([p] + rest)[0] == p && ([p] + rest)[1..] == rest;
    if p.Bad? {
      assert (ReadSteps([p]) + tail)[0] == Abort(p.error);
    } else if p.Blank? {
      assert ReadSteps([p] + rest) == [] + ReadSteps(rest) == ReadSteps(rest);
    } else {
      var mkdir := Do(Mkdir(p.entry.name, OwnerOnly));
      assert ReadSteps([p] + rest) == [mkdir] + ReadSteps(rest);
      var steps := ReadSteps([p] + rest) + tail;
      assert steps == [mkdir] + (ReadSteps(rest) + tail);
      assert steps[0] == mkdir && steps[1..] == ReadSteps(rest) + tail;
    }
  }

  /** One more line read: its directory, if it has one, is the next one
      after those read so far. */
  lemma {:induction false} EntriesHead(dirs: seq<DirEntry>, p: Parsed<DirEntry>, rest: seq<Parsed<DirEntry>>)
    ensures !p.Entry? ==> dirs + Entries([p] + rest) == dirs + Entries(rest)
    ensures p.Entry? ==> dirs + Entries([p] + rest) == (dirs + [p.entry]) + Entries(rest)
  {
    assert ([p] + rest)[0] == p && ([p] + rest)[1..] == rest;
    if p.Entry? {
      assert Entries([p] + rest) == [p.entry] + Entries(rest);
      assert dirs + ([p.entry] + Entries(rest)) == (dirs + [p.entry]) + Entries(rest);
    }
  }

  /** The reading loop's step at line `i`, in terms of what the lines
      parse to: a bad line ends the run, a blank line does nothing, and an
      entry line attempts its 0700 Mkdir and adds its directory. */
  lemma {:induction false} ReadAdvance(fails: Oracle, done: seq<Op>, dirs: seq<DirEntry>, os: seq<Option<Parsed<DirEntry>>>, i: nat, tail: seq<Step>)
    requires i < |os| && ReadableUntilBad(os[i..])
    ensures os[i].Some?
    ensures os[i].value.Bad? ==> Run(fails, done, ReadSteps(UpToBad(os[i..])) + tail) == (done, Some(os[i].value.error))
    ensures !os[i].value.Bad? ==> ReadableUntilBad(os[i + 1..])
    ensures os[i].value.Blank? ==>
      && Run(fails, done, ReadSteps(UpToBad(os[i..])) + tail) == Run(fails, done, ReadSteps(UpToBad(os[i + 1..])) + tail)
      && dirs + Entries(UpToBad(os[i..])) == dirs + Entries(UpToBad(os[i + 1..]))
    ensures os[i].value.Entry? ==>
      var op := Mkdir(os[i].value.entry.name, OwnerOnly);
      && Run(fails, done, ReadSteps(UpToBad(os[i..])) + tail) ==
        (if fails(done, op) then (done + [op], Some(OpFailed(op)))
         else Run(fails, done + [op], ReadSteps(UpToBad(os[i + 1..])) + tail))
      && dirs + Entries(UpToBad(os[i..])) == (dirs + [os[i].value.entry]) + Entries(UpToBad(os[i + 1..]))
  {
    ReadLineAt(os, i);
    var p := os[i].value;
    if p.Bad? {
      ReadHead(fails, done, p, [], tail);
    } else {
      ReadHead(fails, done, p, UpToBad(os[i + 1..]), tail);
      EntriesHead(dirs, p, UpToBad(os[i + 1..]));
    }
  }

  lemma {:induction false} AttrStep(dirs: seq<DirEntry>, k: nat)
    requires 0 < k <= |dirs|
    ensures AttrSteps(dirs[..k]) ==
      [Do(Chmod(dirs[k - 1].name, dirs[k - 1].perm))] + ([Do(Chtimes(dirs[k - 1].name, dirs[k - 1].time, dirs[k - 1].time))] + AttrSteps(dirs[..k - 1]))
  {
    assert dirs[..k][..k - 1] == dirs[..k - 1];
  }

  /** The reading loop of DirCreate: each line is parsed, a bad line is
      the result, and every directory is made at 0700 as it is read, until
      one fails. `attrs` is what follows, for the proof only. */
  method ReadDirs(lines: seq<string>, parseTime: TimeParser, unquote: Unquoter, fails: Oracle, ghost attrs: seq<Step>)
    returns (ops: seq<Op>, err: Option<Error>, dirs: seq<DirEntry>)
    requires ReadableUntilBad(ParseLines(lines, parseTime, unquote))
    ensures err.None? ==> dirs == Entries(UpToBad(ParseLines(lines, parseTime, unquote)))
    ensures Run(fails, [], ReadSteps(UpToBad(ParseLines(lines, parseTime, unquote))) + attrs) ==
      if err.Some? then (ops, err) else Run(fails, ops, attrs)
  {
    ghost var os := ParseLines(lines, parseTime, unquote);
    ghost var ps := UpToBad(os);
    ops, dirs := [], [];
    ReadEndsAt(os);
    assert dirs + Entries(ps) == Entries(ps);
    var i := 0;
    while i < |lines|
      invariant i <= |lines| && ReadableUntilBad(os[i..])
      invariant Entries(ps) == dirs + Entries(UpToBad(os[i..]))
      invariant Run(fails, [], ReadSteps(ps) + attrs) == Run(fails, ops, ReadSteps(UpToBad(os[i..])) + attrs)
    {
      ReadAdvance(fails, ops, dirs, os, i, attrs);
      var o := ParseLine(lines[i], parseTime, unquote);
      assert o == os[i];
      var p := o.value;
      if p.Bad? {
        return ops, Some(p.error), dirs;
      }
      if p.Entry? {
        var d := p.entry;
        var failed;
        ops, failed := Perform(fails, ops, Mkdir(d.name, OwnerOnly), ReadSteps(UpToBad(os[i + 1..])) + attrs);
        if failed {
          return ops, Some(OpFailed(Mkdir(d.name, OwnerOnly))), dirs;
        }
        dirs := dirs + [d];
      }
      i := i + 1;
    }
    assert dirs + [] == dirs && ReadSteps([]) + attrs == attrs;
    err := None;
  }

  /** The attribute loop of DirCreate: permissions, then times, last
      directory first, until one fails. */
  method SetDirAttributes(fails: Oracle, done: seq<Op>, dirs: seq<DirEntry>)
    returns (ops: seq<Op>, err: Option<Error>)
    ensures (ops, err) == Run(fails, done, AttrSteps(dirs))
  {
    ops := done;
    var k := |dirs|;
    assert dirs[..k] == dirs;
    while k > 0
      invariant 0 <= k <= |dirs|
      invariant Run(fails, done, AttrSteps(dirs)) == Run(fails, ops, AttrSteps(dirs[..k]))
    {
      AttrStep(dirs, k);
      k := k - 1;
      var d := dirs[k];
      var failed;
      ops, failed := Perform(fails, ops, Chmod(d.name, d.perm), [Do(Chtimes(d.name, d.time, d.time))] + AttrSteps(dirs[..k]));
      if failed {
        return ops, Some(OpFailed(Chmod(d.name, d.perm)));
      }
      ops, failed := Perform(fails, ops, Chtimes(d.name, d.time, d.time), AttrSteps(dirs[..k]));
      if failed {
        return ops, Some(OpFailed(Chtimes(d.name, d.time, d.time)));
      }
    }
    return ops, None;
  }

  /** DirCreate over the lines of its input: the operations it attempted
      and the error it returned, if any. */
  method Create(lines: seq<string>, parseTime: TimeParser, unquote: Unquoter, fails: Oracle)
    returns (ops: seq<Op>, err: Option<Error>)
    requires ReadableUntilBad(ParseLines(lines, parseTime, unquote))
    ensures (ops, err) == Run(fails, [], Plan(UpToBad(ParseLines(lines, parseTime, unquote))))
  {
    ghost var ps := UpToBad(ParseLines(lines, parseTime, unquote));
    var dirs;
    ops, err, dirs := ReadDirs(lines, parseTime, unquote, fails, AttrSteps(Entries(ps)));
    if err.Some? {
      return;
    }
    ops, err := SetDirAttributes(fails, ops, dirs);
  }

  /** The directory made for each entry, in order. */
  function Mkdirs(dirs: seq<DirEntry>): (ops: seq<Op>)
    ensures |ops| == |dirs|
    ensures forall i :: 0 <= i < |dirs| ==> ops[i] == Mkdir(dirs[i].name, OwnerOnly)
  {
    if dirs == [] then [] else [Mkdir(dirs[0].name, OwnerOnly)] + Mkdirs(dirs[1..])
  }

  /** The reading loop makes every directory, in input order, at mode 0700,
      and does nothing else to the filesystem. */
  lemma {:induction false} ReadStepsMkdirs(ps: seq<Parsed<DirEntry>>)
    ensures OpsOf(ReadSteps(ps)) == Mkdirs(Entries(ps))
    decreases |ps|
  {
    if ps != [] {
      ReadStepsMkdirs(ps[1..]);
      OpsOfAppend(if ps[0].Entry? then [Do(Mkdir(ps[0].entry.name, OwnerOnly))] else if ps[0].Bad? then [Abort(ps[0].error)] else [], ReadSteps(ps[1..]));
      if ps[0].Entry? {
        var ds := Entries(ps);
        assert ds == [ps[0].entry] + Entries(ps[1..]);
        assert Mkdirs(ds) == [Mkdir(ps[0].entry.name, OwnerOnly)] + Mkdirs(Entries(ps[1..])) by {
          assert ds[1..] == Entries(ps[1..]);
        }
      }
    }
  }

  /** A line that does not parse stops the reading loop with an error. */
  lemma {:induction false} BadLineAborts(fails: Oracle, done: seq<Op>, ps: seq<Parsed<DirEntry>>, i: nat)
    requires i < |ps| && ps[i].Bad?
    ensures Run(fails, done, ReadSteps(ps)).1.Some?
    decreases |ps|
  {
    var steps := ReadSteps(ps);
    if i > 0 {
      assert ps[1..][i - 1] == ps[i];
    }
    match ps[0]
    case Bad(e) =>
      assert steps[0] == Abort(e);
    case Blank =>
      assert steps == ReadSteps(ps[1..]);
      BadLineAborts(fails, done, ps[1..], i - 1);
    case Entry(d) =>
      var op := Mkdir(d.name, OwnerOnly);
      assert steps[0] == Do(op) && steps[1..] == ReadSteps(ps[1..]);
      if !fails(done, op) {
        BadLineAborts(fails, done + [op], ps[1..], i - 1);
      }
  }

  /** So no permission or time is ever set once a line fails to parse. */
  lemma {:induction false} BadLineStops(fails: Oracle, done: seq<Op>, ps: seq<Parsed<DirEntry>>, i: nat)
    requires i < |ps| && ps[i].Bad?
    ensures Run(fails, done, ReadSteps(ps)).1.Some?
    ensures Run(fails, done, Plan(ps)) == Run(fails, done, ReadSteps(ps))
  {
    BadLineAborts(fails, done, ps, i);
    RunAppend(fails, done, ReadSteps(ps), AttrSteps(Entries(ps)));
  }

  /** The attribute phase has two steps per directory. */
  lemma {:induction false} AttrStepsLength(dirs: seq<DirEntry>)
    ensures |AttrSteps(dirs)| == 2 * |dirs|
    decreases |dirs|
  {
    if dirs != [] {
      AttrStepsLength(dirs[..|dirs| - 1]);
    }
  }

  /** The attribute phase sets each directory's permissions and then its
      times, from the last directory read back to the first: the `k`-th
      directory from the end owns steps `2k` and `2k + 1`. */
  lemma {:induction false} AttrStepsReversed(dirs: seq<DirEntry>, k: nat)
    requires k < |dirs|
    ensures |AttrSteps(dirs)| == 2 * |dirs|
    ensures AttrSteps(dirs)[2 * k] == Do(Chmod(dirs[|dirs| - 1 - k].name, dirs[|dirs| - 1 - k].perm))
    ensures AttrSteps(dirs)[2 * k + 1] == Do(Chtimes(dirs[|dirs| - 1 - k].name, dirs[|dirs| - 1 - k].time, dirs[|dirs| - 1 - k].time))
    decreases k
  {
    var n := |dirs|;
    var front := dirs[..n - 1];
    AttrStepsLength(front);
    var steps := AttrSteps(dirs);
    var d := dirs[n - 1];
    assert steps == [Do(Chmod(d.name, d.perm)), Do(Chtimes(d.name, d.time, d.time))] + AttrSteps(front);
    if k > 0 {
      AttrStepsReversed(front, k - 1);
      assert steps[2 * k] == AttrSteps(front)[2 * (k - 1)];
      assert steps[2 * k + 1] == AttrSteps(front)[2 * (k - 1) + 1];
      assert front[|front| - 1 - (k - 1)] == dirs[n - 1 - k];
    }
  }
}
