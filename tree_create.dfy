/**
 * The tree description format and the tree builder (tree_create.go).
 *
 * A line is `time<TAB+>perm<TAB+>path[<TAB+>content]`, with whitespace
 * allowed around it. TreeParseReader turns lines into Nodes; TreeCreate
 * turns Nodes into filesystem operations in two phases: everything is
 * created first, directories at mode 0700, and the directories'
 * permissions and times are applied last, in reverse order.
 */
module TreeCreate {
  import opened Wrappers
  import opened FileInfo
  import opened FsOps
  import opened LineSyntax

  /** One filesystem object to create; a name ending in '/' is a directory. */
  datatype Node = Node(name: string, perm: FileMode, time: int, body: string)

  /** The capture groups of the line pattern: the timestamp token, the
      permission token, the path and the content ("" when absent). */
  datatype Fields = Fields(time: string, perm: string, path: string, content: string)

  predicate NoTab(s: string)
  {
    forall i :: 0 <= i < |s| ==> IsNotTab(s[i])
  }

  /** Fields the pattern can capture. */
  predicate WellFormed(f: Fields)
  {
    TimeToken(f.time) && PermToken(f.perm) && f.path != [] && NoTab(f.path) && NoTab(f.content)
  }

  /** The line pattern `^\s*([-0-9T:Z]+)\t+(0[0-7]{0,4})\t+([^\t]+)(\t+([^\t]+))?\s*$`,
      written out, up to the permission token. Each token is the longest
      run of its class: a shorter one would leave a character of that class
      where the pattern next wants a tab, or where only whitespace may follow. */
  function MatchLine(line: string): (f: Option<Fields>)
    ensures f.Some? ==> WellFormed(f.value)
  {
    var s := line[Span(line, 0, IsSpace)..];
    var t := Span(s, 0, IsTimeChar);
    var afterTime := s[t..];
    var atPerm := afterTime[Span(afterTime, 0, IsTab)..];
    if t == 0 || |atPerm| == |afterTime| || atPerm == [] || atPerm[0] != '0' then None
    else MatchPerm(s[..t], atPerm)
  }

  /** The pattern from the permission token, which starts with '0', on. */
  function MatchPerm(time: string, s: string): (f: Option<Fields>)
    requires TimeToken(time) && s != [] && s[0] == '0'
    ensures f.Some? ==> WellFormed(f.value) && f.value.time == time
  {
    var p := 1 + Span(s[1..], 0, IsOctalDigit);
    var afterPerm := s[p..];
    var atPath := afterPerm[Span(afterPerm, 0, IsTab)..];
    if p > 5 || |atPath| == |afterPerm| then None
    else
      assert forall k :: 1 <= k < p ==> s[k] == s[1..][k - 1];
      MatchPath(time, s[..p], atPath)
  }

  /** The pattern from the path to the end of the line. */
  function MatchPath(time: string, perm: string, s: string): (f: Option<Fields>)
    requires TimeToken(time) && PermToken(perm)
    ensures f.Some? ==> WellFormed(f.value) && f.value.time == time && f.value.perm == perm
  {
    var n := Span(s, 0, IsNotTab);
    var afterPath := s[n..];
    var c := afterPath[Span(afterPath, 0, IsTab)..];
    var m := Span(c, 0, IsNotTab);
    if n == 0 then None
    else if m == 0 then Some(Fields(time, perm, s[..n], ""))
    else if IsBlank(c[m..]) then Some(Fields(time, perm, s[..n], c[..m]))
    else None
  }

  /** A line the builder would read back into the given fields. */
  function FormatLine(f: Fields): string
  {
    f.time + ("\t" + (f.perm + ("\t" + (f.path + ContentTail(f.content)))))
  }

  function ContentTail(content: string): string
  {
    if content == "" then "" else "\t" + content
  }

  /** How the pattern lays out the part of a line from the path on: the
      path, then either only tabs, or a tab run, the content, and trailing
      whitespace that does not start with a character the content could
      take. */
  predicate PathLaidOut(s: string, path: string, content: string, t3: string, trail: string)
  {
    && (content == "" ==> t3 == "" && AllTabs(trail))
    && (content != "" ==> TabRun(t3) && IsBlank(trail) && (trail == [] || IsTab(trail[0])))
    && s == path + (t3 + (content + trail))
  }

  /** How the pattern lays out a whole line: leading whitespace, the time
      token, a tab run, the permission token, a tab run, and the rest. */
  predicate LaidOut(line: string, f: Fields, lead: string, t1: string, t2: string, t3: string, trail: string)
  {
    && IsBlank(lead) && TabRun(t1) && TabRun(t2)
    && PathLaidOut(f.path + (t3 + (f.content + trail)), f.path, f.content, t3, trail)
    && line == lead + (f.time + (t1 + (f.perm + (t2 + (f.path + (t3 + (f.content + trail)))))))
  }

  /** A path and content laid out as the pattern allows are read back. */
  lemma {:induction false} PathMatches(f: Fields, t3: string, trail: string)
    requires WellFormed(f)
    requires PathLaidOut(f.path + (t3 + (f.content + trail)), f.path, f.content, t3, trail)
    ensures MatchPath(f.time, f.perm, f.path + (t3 + (f.content + trail))) == Some(f)
  {
    var rest := t3 + (f.content + trail);
    var s := f.path + rest;
    SpanPrefix(f.path, rest, IsNotTab);
    assert s[..|f.path|] == f.path && s[|f.path|..] == rest;
    if f.content == "" {
      assert rest == trail;
      SpanOfRun(trail, 0, |trail|, IsTab);
      assert trail[|trail|..] == [];
      SpanOfRun([], 0, 0, IsNotTab);
    } else {
      SpanPrefix(t3, f.content + trail, IsTab);
      assert rest[|t3|..] == f.content + trail;
      SpanPrefix(f.content, trail, IsNotTab);
      var c := f.content + trail;
      assert c[..|f.content|] == f.content && c[|f.content|..] == trail;
    }
  }

  /** Splits the input of MatchPath where MatchPath does: after the path,
      after the tab run, and after the content. */
  lemma {:induction false} PathSplit(s: string) returns (path: string, tabs: string, content: string, trail: string)
    ensures path == s[..Span(s, 0, IsNotTab)]
    ensures var afterPath := s[Span(s, 0, IsNotTab)..];
      var c := afterPath[Span(afterPath, 0, IsTab)..];
      content == c[..Span(c, 0, IsNotTab)] && trail == c[Span(c, 0, IsNotTab)..]
    ensures |tabs| == Span(s[Span(s, 0, IsNotTab)..], 0, IsTab)
    ensures AllTabs(tabs) && (content == [] ==> trail == []) && (content != [] ==> tabs != [])
    ensures trail == [] || IsTab(trail[0])
    ensures s == path + (tabs + (content + trail))
  {
    var afterPath, c;
    path, afterPath := Peel(s, IsNotTab);
    tabs, c := Peel(afterPath, IsTab);
    content, trail := Peel(c, IsNotTab);
  }

  /** The part of a line the pattern reads from the path on is laid out as
      PathLaidOut says, with the tab run and trailing whitespace found. */
  lemma {:induction false} MatchPathParts(time: string, perm: string, s: string) returns (t3: string, trail: string)
    requires TimeToken(time) && PermToken(perm) && MatchPath(time, perm, s).Some?
    ensures PathLaidOut(s, MatchPath(time, perm, s).value.path, MatchPath(time, perm, s).value.content, t3, trail)
  {
    var f := MatchPath(time, perm, s).value;
    var path, tabs, content, rest := PathSplit(s);
    assert f.path == path && f.content == content;
    if content == [] {
      t3, trail := "", tabs;
      assert s == path + (t3 + (content + trail));
    } else {
      assert IsBlank(rest);
      t3, trail := tabs, rest;
    }
  }

  /** MatchPath reads exactly the paths and contents laid out as the
      pattern allows. */
  lemma {:induction false} MatchPathLaidOut(time: string, perm: string, s: string, f: Fields)
    requires TimeToken(time) && PermToken(perm)
    ensures MatchPath(time, perm, s) == Some(f) <==>
      && f.time == time && f.perm == perm && WellFormed(f)
      && exists t3, trail :: PathLaidOut(s, f.path, f.content, t3, trail)
  {
    if MatchPath(time, perm, s) == Some(f) {
      var t3, trail := MatchPathParts(time, perm, s);
    }
    if f.time == time && f.perm == perm && WellFormed(f) && exists t3, trail :: PathLaidOut(s, f.path, f.content, t3, trail) {
      var t3, trail :| PathLaidOut(s, f.path, f.content, t3, trail);
      PathMatches(f, t3, trail);
    }
  }

  /** The permission token and all that follows, laid out as the pattern
      allows, are read back. */
  lemma {:induction false} PermMatches(f: Fields, t2: string, t3: string, trail: string)
    requires WellFormed(f) && TabRun(t2)
    requires PathLaidOut(f.path + (t3 + (f.content + trail)), f.path, f.content, t3, trail)
    ensures MatchPerm(f.time, f.perm + (t2 + (f.path + (t3 + (f.content + trail))))) == Some(f)
  {
    var atPath := f.path + (t3 + (f.content + trail));
    var s := f.perm + (t2 + atPath);
    assert s[1..] == f.perm[1..] + (t2 + atPath);
    SpanPrefix(f.perm[1..], t2 + atPath, IsOctalDigit);
    var p := |f.perm|;
    assert s[..p] == f.perm && s[p..] == t2 + atPath;
    SpanPrefix(t2, atPath, IsTab);
    assert (t2 + atPath)[|t2|..] == atPath;
    PathMatches(f, t3, trail);
  }

  /** A line laid out as the pattern allows is read back into its fields. */
  lemma {:induction false} LaidOutMatches(line: string, f: Fields, lead: string, t1: string, t2: string, t3: string, trail: string)
    requires WellFormed(f) && LaidOut(line, f, lead, t1, t2, t3, trail)
    ensures MatchLine(line) == Some(f)
  {
    var atPerm := f.perm + (t2 + (f.path + (t3 + (f.content + trail))));
    var s := f.time + (t1 + atPerm);
    SpanPrefix(lead, s, IsSpace);
    assert line[|lead|..] == s;
    SpanPrefix(f.time, t1 + atPerm, IsTimeChar);
    var t := |f.time|;
    assert s[..t] == f.time && s[t..] == t1 + atPerm;
    SpanPrefix(t1, atPerm, IsTab);
    assert (t1 + atPerm)[|t1|..] == atPerm;
    PermMatches(f, t2, t3, trail);
  }

  /** MatchPerm peels the permission token and a tab run off its input and
      hands the rest to MatchPath. */
  lemma {:induction false} MatchPermSteps(time: string, s: string) returns (perm: string, t2: string, atPath: string)
    requires TimeToken(time) && s != [] && s[0] == '0' && MatchPerm(time, s).Some?
    ensures PermToken(perm) && TabRun(t2) && s == perm + (t2 + atPath)
    ensures MatchPath(time, perm, atPath) == MatchPerm(time, s)
  {
    perm, t2, atPath := PermSplit(s, IsTab);
  }

  /** The part of a line the pattern reads from the permission token on is
      the token, a tab run, and a path laid out as PathLaidOut says. */
  lemma {:induction false} MatchPermParts(time: string, s: string, f: Fields) returns (t2: string, t3: string, trail: string)
    requires TimeToken(time) && s != [] && s[0] == '0' && MatchPerm(time, s) == Some(f)
    ensures TabRun(t2)
    ensures PathLaidOut(f.path + (t3 + (f.content + trail)), f.path, f.content, t3, trail)
    ensures s == f.perm + (t2 + (f.path + (t3 + (f.content + trail))))
  {
    var perm, atPath;
    perm, t2, atPath := MatchPermSteps(time, s);
    t3, trail := MatchPathParts(time, perm, atPath);
  }

  /** MatchLine peels leading whitespace, the time token and a tab run off
      the line and hands the rest to MatchPerm. */
  lemma {:induction false} MatchLineSteps(line: string) returns (lead: string, time: string, t1: string, atPerm: string)
    requires MatchLine(line).Some?
    ensures IsBlank(lead) && TimeToken(time) && TabRun(t1)
    ensures atPerm != [] && atPerm[0] == '0' && line == lead + (time + (t1 + atPerm))
    ensures MatchPerm(time, atPerm) == MatchLine(line)
  {
    var s, afterTime;
    lead, s := Peel(line, IsSpace);
    time, afterTime := Peel(s, IsTimeChar);
    t1, atPerm := Peel(afterTime, IsTab);
  }

  /** A line the pattern matches is laid out as LaidOut says, with the runs
      the matcher found. */
  lemma {:induction false} MatchLineParts(line: string, f: Fields) returns (lead: string, t1: string, t2: string, t3: string, trail: string)
    requires MatchLine(line) == Some(f)
    ensures LaidOut(line, f, lead, t1, t2, t3, trail)
  {
    var time, atPerm;
    lead, time, t1, atPerm := MatchLineSteps(line);
    t2, t3, trail := MatchPermParts(time, atPerm, f);
    assert f.time == time;
  }

  /** The hand-written pattern reads exactly the lines laid out as
      `^\s*([-0-9T:Z]+)\t+(0[0-7]{0,4})\t+([^\t]+)(\t+([^\t]+))?\s*$` allows,
      into the fields that layout spells out. */
  lemma {:induction false} MatchLineLaidOut(line: string, f: Fields)
    ensures MatchLine(line) == Some(f) <==>
      WellFormed(f) && exists lead, t1, t2, t3, trail :: LaidOut(line, f, lead, t1, t2, t3, trail)
  {
    if MatchLine(line) == Some(f) {
      var lead, t1, t2, t3, trail := MatchLineParts(line, f);
    }
    if WellFormed(f) && exists lead, t1, t2, t3, trail :: LaidOut(line, f, lead, t1, t2, t3, trail) {
      var lead, t1, t2, t3, trail :| LaidOut(line, f, lead, t1, t2, t3, trail);
      LaidOutMatches(line, f, lead, t1, t2, t3, trail);
    }
  }

  /** Every line written from well-formed fields matches and gives those
      fields back. */
  lemma {:induction false} FormatMatches(f: Fields)
    requires WellFormed(f)
    ensures MatchLine(FormatLine(f)) == Some(f)
  {
    var t3 := if f.content == "" then "" else "\t";
    assert f.content + [] == f.content;
    assert ContentTail(f.content) == t3 + (f.content + []);
    assert FormatLine(f) == [] + (f.time + ("\t" + (f.perm + ("\t" + (f.path + (t3 + (f.content + [])))))));
    LaidOutMatches(FormatLine(f), f, [], "\t", "\t", t3, []);
  }

  /** A line the parser can handle: blank, or matching the pattern. Any
      other line makes the source index a nil match and crash. */
  predicate Readable(line: string)
  {
    IsBlank(line) || MatchLine(line).Some?
  }

  /** parse, once the pattern has matched: the timestamp, then the path,
      then the content are converted, and the first failure is the result.
      The permission token is octal and at most four digits after its
      leading zero, so it always converts and fits in twelve bits. */
  function ParseFields(f: Fields, parseTime: TimeParser, unquote: Unquoter): (r: Parsed<Node>)
    requires PermToken(f.perm)
    ensures !r.Blank?
    ensures parseTime(f.time).None? ==> r == Bad(BadTime(f.time))
    ensures parseTime(f.time).Some? && Unquoted(f.path, unquote).Failure? ==> r == Bad(BadQuote(f.path))
    ensures parseTime(f.time).Some? && Unquoted(f.path, unquote).Success? && f.content != "" && Unquoted(f.content, unquote).Failure?
      ==> r == Bad(BadQuote(f.content))
    ensures r.Entry? <==>
      && parseTime(f.time).Some? && Unquoted(f.path, unquote).Success?
      && (f.content == "" || Unquoted(f.content, unquote).Success?)
    ensures r.Entry? ==>
      && r.entry.time == parseTime(f.time).value
      && OctalValue(f.perm) <= 0xFFF && r.entry.perm == PermMode(OctalValue(f.perm))
      && Unquoted(f.path, unquote) == Success(r.entry.name)
      && (f.content == "" ==> r.entry.body == "")
      && (f.content != "" ==> Unquoted(f.content, unquote) == Success(r.entry.body))
  {
    match parseTime(f.time)
    case None => Bad(BadTime(f.time))
    case Some(t) =>
      PermFits(f.perm);
      var perm := PermMode(OctalValue(f.perm));
      match Unquoted(f.path, unquote)
      case Failure(e) => Bad(e)
      case Success(path) =>
        if f.content == "" then Entry(Node(path, perm, t, ""))
        else
          match Unquoted(f.content, unquote)
          case Failure(e) => Bad(e)
          case Success(body) => Entry(Node(path, perm, t, body))
  }

  /** parse: blank lines give Blank; any other readable line is parsed from its fields. */
  function Parse(line: string, parseTime: TimeParser, unquote: Unquoter): (r: Parsed<Node>)
    requires Readable(line)
    ensures r.Blank? <==> IsBlank(line)
    ensures !IsBlank(line) ==> r == ParseFields(MatchLine(line).value, parseTime, unquote)
  {
    if IsBlank(line) then Blank else ParseFields(MatchLine(line).value, parseTime, unquote)
  }

  /** Fields that need no unquoting give the node they spell out. */
  lemma {:induction false} ParsePlainFields(f: Fields, parseTime: TimeParser, unquote: Unquoter)
    requires PermToken(f.perm) && parseTime(f.time).Some? && f.path != []
    requires !IsQuote(f.path[0]) && (f.content == "" || !IsQuote(f.content[0]))
    ensures OctalValue(f.perm) <= 0xFFF
    ensures ParseFields(f, parseTime, unquote)
      == Entry(Node(f.path, PermMode(OctalValue(f.perm)), parseTime(f.time).value, f.content))
  {
    PermFits(f.perm);
    assert Unquoted(f.path, unquote) == Success(f.path);
    assert f.content != "" ==> Unquoted(f.content, unquote) == Success(f.content);
  }

  /** A written line whose fields need no unquoting parses back to the node
      it describes. */
  lemma {:induction false} ParseFormatted(f: Fields, parseTime: TimeParser, unquote: Unquoter)
    requires WellFormed(f) && parseTime(f.time).Some?
    requires !IsQuote(f.path[0]) && (f.content == "" || !IsQuote(f.content[0]))
    ensures Readable(FormatLine(f)) && OctalValue(f.perm) <= 0xFFF
    ensures Parse(FormatLine(f), parseTime, unquote)
      == Entry(Node(f.path, PermMode(OctalValue(f.perm)), parseTime(f.time).value, f.content))
  {
    var line := FormatLine(f);
    FormatMatches(f);
    assert !IsBlank(line) by { assert line[0] == f.time[0]; }
    ParsePlainFields(f, parseTime, unquote);
  }

  /** What one line parses to, or None for a line on which the source
      panics. */
  function ParseLine(line: string, parseTime: TimeParser, unquote: Unquoter): (o: Option<Parsed<Node>>)
    ensures o.Some? <==> Readable(line)
    ensures o.Some? ==> o.value == Parse(line, parseTime, unquote)
  {
    if Readable(line) then Some(Parse(line, parseTime, unquote)) else None
  }

  /** What each line parses to, in order. */
  function ParseLines(lines: seq<string>, parseTime: TimeParser, unquote: Unquoter): (os: seq<Option<Parsed<Node>>>)
    ensures |os| == |lines|
    ensures forall i :: 0 <= i < |lines| ==> os[i] == ParseLine(lines[i], parseTime, unquote)
  {
    if lines == [] then []
    else
      assert forall i :: 1 <= i < |lines| ==> lines[1..][i - 1] == lines[i];
      [ParseLine(lines[0], parseTime, unquote)] + ParseLines(lines[1..], parseTime, unquote)
  }

  /** TreeParseReader over the lines of its input: the nodes of the
      non-blank lines in order, or the first bad line's error. */
  method TreeParseReader(lines: seq<string>, parseTime: TimeParser, unquote: Unquoter)
    returns (r: Result<seq<Node>, Error>)
    requires ReadableUntilBad(ParseLines(lines, parseTime, unquote))
    ensures r == Collect(UpToBad(ParseLines(lines, parseTime, unquote)))
  {
    ghost var os := ParseLines(lines, parseTime, unquote);
    var entries: seq<Node> := [];
    CollectEnds(UpToBad(os), entries);
    ReadEndsAt(os);
    var i := 0;
    while i < |lines|
      invariant i <= |lines| && ReadableUntilBad(os[i..])
      invariant Collect(UpToBad(os)) == Prepend(entries, Collect(UpToBad(os[i..])))
    {
      ReadLineAt(os, i);
      var p := Parse(lines[i], parseTime, unquote);
      assert os[i] == Some(p);
      if p.Bad? {
        CollectHead(p, [], entries);
        return Failure(p.error);
      }
      CollectHead(p, UpToBad(os[i + 1..]), entries);
      if p.Entry? {
        entries := entries + [p.entry];
      }
      i := i + 1;
    }
    CollectEnds([], entries);
    return Success(entries);
  }

  /** A name ending in '/' names a directory. */
  predicate IsDirName(name: string)
  {
    name != [] && name[|name| - 1] == '/'
  }

  /** setAttributes: permissions, then both timestamps, on the node's name as given. */
  function AttrSteps(n: Node): seq<Step>
  {
    [Do(Chmod(n.name, n.perm)), Do(Chtimes(n.name, n.time, n.time))]
  }

  /** The first-phase operations for one node: a directory is made at mode
      0700 under its name without the slash; a file is created, written
      when its body is not empty, closed, and gets its attributes at once. */
  function EntrySteps(n: Node): seq<Step>
    requires n.name != []
  {
    if IsDirName(n.name) then [Do(Mkdir(n.name[..|n.name| - 1], OwnerOnly))]
    else
      [Do(Create(n.name))]
      + (if |n.body| > 0 then [Do(Write(n.name, n.body))] else [])
      + [Do(Close(n.name))]
      + AttrSteps(n)
  }

  function Phase1(entries: seq<Node>): seq<Step>
    requires forall i :: 0 <= i < |entries| ==> entries[i].name != []
  {
    if entries == [] then [] else EntrySteps(entries[0]) + Phase1(entries[1..])
  }

  /** The directory nodes, in input order. */
  function Dirs(entries: seq<Node>): (ds: seq<Node>)
    ensures |ds| <= |entries|
    ensures forall i :: 0 <= i < |ds| ==> IsDirName(ds[i].name)
  {
    if entries == [] then []
    else
      var last := entries[|entries| - 1];
      Dirs(entries[..|entries| - 1]) + (if IsDirName(last.name) then [last] else [])
  }

  /** The second phase: attributes of the given directories, last one first. */
  function Phase2(dirs: seq<Node>): seq<Step>
  {
    if dirs == [] then [] else AttrSteps(dirs[|dirs| - 1]) + Phase2(dirs[..|dirs| - 1])
  }

  /** Everything TreeCreate attempts when nothing fails. */
  function Plan(entries: seq<Node>): seq<Step>
    requires forall i :: 0 <= i < |entries| ==> entries[i].name != []
  {
    Phase1(entries) + Phase2(Dirs(entries))
  }

  /** setAttributes against the filesystem oracle. */
  method SetAttributes(fails: Oracle, done: seq<Op>, n: Node, ghost rest: seq<Step>)
    returns (ops: seq<Op>, err: Option<Error>)
    ensures Run(fails, done, AttrSteps(n) + rest) ==
      if err.Some? then (ops, err) else Run(fails, ops, rest)
  {
    var failed;
    assert AttrSteps(n) + rest == [Do(Chmod(n.name, n.perm))] + ([Do(Chtimes(n.name, n.time, n.time))] + rest);
    ops, failed := Perform(fails, done, Chmod(n.name, n.perm), [Do(Chtimes(n.name, n.time, n.time))] + rest);
    if failed {
      return ops, Some(OpFailed(Chmod(n.name, n.perm)));
    }
    ops, failed := Perform(fails, ops, Chtimes(n.name, n.time, n.time), rest);
    if failed {
      return ops, Some(OpFailed(Chtimes(n.name, n.time, n.time)));
    }
    return ops, None;
  }

  /** The first phase for one node against the filesystem oracle. */
  method CreateEntry(fails: Oracle, done: seq<Op>, e: Node, ghost rest: seq<Step>)
    returns (ops: seq<Op>, err: Option<Error>)
    requires e.name != []
    ensures Run(fails, done, EntrySteps(e) + rest) ==
      if err.Some? then (ops, err) else Run(fails, ops, rest)
  {
    if e.name[|e.name| - 1] == '/' {
      var op := Mkdir(e.name[..|e.name| - 1], OwnerOnly);
      var failed;
      ops, failed := Perform(fails, done, op, rest);
      if failed {
        return ops, Some(OpFailed(op));
      }
      return ops, None;
    }
    ghost var afterWrite := [Do(Close(e.name))] + (AttrSteps(e) + rest);
    ghost var write := if |e.body| > 0 then [Do(Write(e.name, e.body))] else [];
    assert EntrySteps(e) + rest == [Do(Create(e.name))] + (write + afterWrite);
    var failed;
    ops, failed := Perform(fails, done, Create(e.name), write + afterWrite);
    if failed {
      return ops, Some(OpFailed(Create(e.name)));
    }
    if |e.body| > 0 {
      ops, failed := Perform(fails, ops, Write(e.name, e.body), afterWrite);
      if failed {
        return ops, Some(OpFailed(Write(e.name, e.body)));
      }
    } else {
      assert write + afterWrite == afterWrite;
    }
    ops, failed := Perform(fails, ops, Close(e.name), AttrSteps(e) + rest);
    if failed {
      return ops, Some(OpFailed(Close(e.name)));
    }
    ops, err := SetAttributes(fails, ops, e, rest);
  }

  /** The first phase from node `i` on is node `i`'s steps, then the rest;
      the directories seen grow by node `i` when it is one. */
  lemma {:induction false} Phase1Step(entries: seq<Node>, i: nat, tail: seq<Step>)
    requires forall j :: 0 <= j < |entries| ==> entries[j].name != []
    requires i < |entries|
    ensures Phase1(entries[i..]) + tail == EntrySteps(entries[i]) + (Phase1(entries[i + 1..]) + tail)
    ensures Dirs(entries[..i + 1]) == Dirs(entries[..i]) + (if IsDirName(entries[i].name) then [entries[i]] else [])
  {
    assert entries[i..][0] == entries[i] && entries[i..][1..] == entries[i + 1..];
    assert entries[..i + 1][..i] == entries[..i];
  }

  /** Where the first loop starts and ends: all of the first phase ahead
      and no directory seen, then none of it ahead and every directory seen. */
  lemma {:induction false} Phase1Ends(entries: seq<Node>, tail: seq<Step>)
    requires forall j :: 0 <= j < |entries| ==> entries[j].name != []
    ensures Phase1(entries[0..]) + tail == Phase1(entries) + tail && Dirs(entries[..0]) == []
    ensures Phase1(entries[|entries|..]) + tail == tail && Dirs(entries[..|entries|]) == Dirs(entries)
  {
    assert entries[0..] == entries && entries[..0] == [];
    assert entries[|entries|..] == [] && entries[..|entries|] == entries;
  }

  /** The second phase over the first `k` directories starts with the k-th. */
  lemma {:induction false} Phase2Step(dirs: seq<Node>, k: nat)
    requires 0 < k <= |dirs|
    ensures Phase2(dirs[..k]) == AttrSteps(dirs[k - 1]) + Phase2(dirs[..k - 1])
  {
    assert dirs[..k][..k - 1] == dirs[..k - 1];
  }

  /** The first loop of TreeCreate: each node is created in turn and the
      directory nodes are collected; the first failure ends the loop.
      `rest` is what the plan does afterwards, for the proof only. */
  method CreateEntries(fails: Oracle, done: seq<Op>, entries: seq<Node>, ghost rest: seq<Step>)
    returns (ops: seq<Op>, err: Option<Error>, dirs: seq<Node>)
    requires forall i :: 0 <= i < |entries| ==> entries[i].name != []
    ensures err.None? ==> dirs == Dirs(entries)
    ensures Run(fails, done, Phase1(entries) + rest) ==
      if err.Some? then (ops, err) else Run(fails, ops, rest)
  {
    ops := done;
    dirs := [];
    Phase1Ends(entries, rest);
    for i := 0 to |entries|
      invariant dirs == Dirs(entries[..i])
      invariant Run(fails, done, Phase1(entries) + rest) == Run(fails, ops, Phase1(entries[i..]) + rest)
    {
      var e := entries[i];
      ghost var after := Phase1(entries[i + 1..]) + rest;
      Phase1Step(entries, i, rest);
      ops, err := CreateEntry(fails, ops, e, after);
      if err.Some? {
        return;
      }
      if IsDirName(e.name) {
        dirs := dirs + [e];
      }
    }
    err := None;
  }

  /** The second loop of TreeCreate: the collected directories get their
      attributes, last one first, until one fails. */
  method SetDirAttributes(fails: Oracle, done: seq<Op>, dirs: seq<Node>)
    returns (ops: seq<Op>, err: Option<Error>)
    ensures (ops, err) == Run(fails, done, Phase2(dirs))
  {
    ops := done;
    var k := |dirs|;
    assert dirs[..k] == dirs;
    while k > 0
      invariant 0 <= k <= |dirs|
      invariant Run(fails, done, Phase2(dirs)) == Run(fails, ops, Phase2(dirs[..k]))
    {
      Phase2Step(dirs, k);
      k := k - 1;
      ops, err := SetAttributes(fails, ops, dirs[k], Phase2(dirs[..k]));
      if err.Some? {
        return;
      }
    }
    return ops, None;
  }

  /** TreeCreate: returns the operations it attempted and the error it
      returned, if any. */
  method Build(entries: seq<Node>, fails: Oracle) returns (ops: seq<Op>, err: Option<Error>)
    requires forall i :: 0 <= i < |entries| ==> entries[i].name != []
    ensures (ops, err) == Run(fails, [], Plan(entries))
  {
    var dirs;
    ops, err, dirs := CreateEntries(fails, [], entries, Phase2(Dirs(entries)));
    if err.Some? {
      return;
    }
    ops, err := SetDirAttributes(fails, ops, dirs);
  }

  /** What the first phase may do: make directories at mode 0700 only,
      write only non-empty bodies, and set attributes of files only. */
  predicate FirstPhaseStep(st: Step)
  {
    && st.Do?
    && (st.op.Mkdir? ==> st.op.mode == OwnerOnly)
    && (st.op.Write? ==> st.op.data != [])
    && (st.op.Chmod? ==> !IsDirName(st.op.path))
    && (st.op.Chtimes? ==> !IsDirName(st.op.path))
  }

  /** No directory is restricted before the second phase: the first phase
      never sets a directory's attributes. */
  lemma {:induction false} Phase1Steps(entries: seq<Node>)
    requires forall i :: 0 <= i < |entries| ==> entries[i].name != []
    ensures forall k :: 0 <= k < |Phase1(entries)| ==> FirstPhaseStep(Phase1(entries)[k])
    decreases |entries|
  {
    if entries != [] {
      var e := entries[0];
      Phase1Steps(entries[1..]);
      var head, tail := EntrySteps(e), Phase1(entries[1..]);
      assert forall k :: 0 <= k < |head| ==> FirstPhaseStep(head[k]);
      forall k | 0 <= k < |head + tail|
        ensures FirstPhaseStep((head + tail)[k])
      {
        if k >= |head| {
          assert (head + tail)[k] == tail[k - |head|];
        }
      }
    }
  }

  /** The second phase has two steps per directory. */
  lemma {:induction false} Phase2Length(dirs: seq<Node>)
    ensures |Phase2(dirs)| == 2 * |dirs|
    decreases |dirs|
  {
    if dirs != [] {
      Phase2Length(dirs[..|dirs| - 1]);
    }
  }

  /** The second phase sets each directory's permissions and then its times,
      going from the last directory back to the first: the `k`-th directory
      from the end owns steps `2k` and `2k + 1`. */
  lemma {:induction false} Phase2At(dirs: seq<Node>, k: nat)
    requires k < |dirs|
    ensures |Phase2(dirs)| == 2 * |dirs|
    ensures Phase2(dirs)[2 * k] == Do(Chmod(dirs[|dirs| - 1 - k].name, dirs[|dirs| - 1 - k].perm))
    ensures Phase2(dirs)[2 * k + 1] == Do(Chtimes(dirs[|dirs| - 1 - k].name, dirs[|dirs| - 1 - k].time, dirs[|dirs| - 1 - k].time))
    decreases k
  {
    var n := |dirs|;
    var front := dirs[..n - 1];
    Phase2Length(front);
    var steps := Phase2(dirs);
    assert steps == AttrSteps(dirs[n - 1]) + Phase2(front);
    if k > 0 {
      Phase2At(front, k - 1);
      assert steps[2 * k] == Phase2(front)[2 * (k - 1)];
      assert steps[2 * k + 1] == Phase2(front)[2 * (k - 1) + 1];
      assert front[|front| - 1 - (k - 1)] == dirs[n - 1 - k];
    }
  }

  /** The directories seen before node `i` come first among those seen before `j`. */
  lemma {:induction false} DirsPrefix(entries: seq<Node>, i: nat, j: nat)
    requires i <= j <= |entries|
    ensures |Dirs(entries[..i])| <= |Dirs(entries[..j])|
    ensures Dirs(entries[..j])[..|Dirs(entries[..i])|] == Dirs(entries[..i])
    decreases j - i
  {
    if i < j {
      DirsPrefix(entries, i, j - 1);
      assert entries[..j][..j - 1] == entries[..j - 1];
      var d := Dirs(entries[..j - 1]);
      assert Dirs(entries[..j]) == d + (if IsDirName(entries[j - 1].name) then [entries[j - 1]] else []);
      assert Dirs(entries[..j])[..|d|] == d;
    }
  }

  /** Where a directory node's attributes are set: its permissions at `at`
      and its times right after, in the second phase. */
  function AttrIndex(entries: seq<Node>, i: nat): int
    requires forall j :: 0 <= j < |entries| ==> entries[j].name != []
    requires i < |entries|
  {
    |Phase1(entries)| + 2 * (|Dirs(entries)| - 1 - |Dirs(entries[..i])|)
  }

  /** Every directory node gets its permissions and times in the second
      phase, after everything has been created; and of two directory nodes
      the later one (a child listed after its parent) gets them first, so a
      parent made read-only cannot stop the child's attributes being set. */
  lemma {:induction false} DirAttributesLast(entries: seq<Node>, i: nat, j: nat)
    requires forall k :: 0 <= k < |entries| ==> entries[k].name != []
    requires i < j < |entries| && IsDirName(entries[i].name) && IsDirName(entries[j].name)
    ensures |Phase1(entries)| <= AttrIndex(entries, j) < AttrIndex(entries, i) && AttrIndex(entries, i) + 1 < |Plan(entries)|
    ensures Plan(entries)[AttrIndex(entries, i)] == Do(Chmod(entries[i].name, entries[i].perm))
    ensures Plan(entries)[AttrIndex(entries, i) + 1] == Do(Chtimes(entries[i].name, entries[i].time, entries[i].time))
    ensures Plan(entries)[AttrIndex(entries, j)] == Do(Chmod(entries[j].name, entries[j].perm))
  {
    DirAttributesAt(entries, i);
    DirAttributesAt(entries, j);
    DirsPrefix(entries, i + 1, j);
    Phase1Step(entries, i, []);
  }

  /** A directory node's place among the directories is the number of
      directory nodes before it. */
  lemma {:induction false} DirPosition(entries: seq<Node>, i: nat)
    requires i < |entries| && IsDirName(entries[i].name)
    ensures |Dirs(entries[..i])| < |Dirs(entries)|
    ensures Dirs(entries)[|Dirs(entries[..i])|] == entries[i]
  {
    var ds := Dirs(entries);
    var before := Dirs(entries[..i]);
    assert entries[..i + 1][..i] == entries[..i];
    assert Dirs(entries[..i + 1]) == before + [entries[i]];
    DirsPrefix(entries, i + 1, |entries|);
    assert entries[..|entries|] == entries;
    assert ds[..|before| + 1] == before + [entries[i]];
  }

  /** The same two steps after any first phase, for the directory at
      position `j` from the front. */
  lemma {:induction false} SecondPhaseAt(p1: seq<Step>, dirs: seq<Node>, j: nat)
    requires j < |dirs|
    ensures var at := |p1| + 2 * (|dirs| - 1 - j);
      && at + 1 < |p1 + Phase2(dirs)|
      && (p1 + Phase2(dirs))[at] == Do(Chmod(dirs[j].name, dirs[j].perm))
      && (p1 + Phase2(dirs))[at + 1] == Do(Chtimes(dirs[j].name, dirs[j].time, dirs[j].time))
  {
    var p2, k := Phase2(dirs), |dirs| - 1 - j;
    Phase2At(dirs, k);
    assert |dirs| - 1 - k == j;
    assert (p1 + p2)[|p1| + 2 * k] == p2[2 * k];
    assert (p1 + p2)[|p1| + 2 * k + 1] == p2[2 * k + 1];
  }

  /** A directory node's attributes are set at AttrIndex. */
  lemma {:induction false} DirAttributesAt(entries: seq<Node>, i: nat)
    requires forall k :: 0 <= k < |entries| ==> entries[k].name != []
    requires i < |entries| && IsDirName(entries[i].name)
    ensures |Phase1(entries)| <= AttrIndex(entries, i) && AttrIndex(entries, i) + 1 < |Plan(entries)|
    ensures Plan(entries)[AttrIndex(entries, i)] == Do(Chmod(entries[i].name, entries[i].perm))
    ensures Plan(entries)[AttrIndex(entries, i) + 1] == Do(Chtimes(entries[i].name, entries[i].time, entries[i].time))
  {
    DirPosition(entries, i);
    SecondPhaseAt(Phase1(entries), Dirs(entries), |Dirs(entries[..i])|);
  }
}
