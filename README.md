# fst core in Dafny

This project models the algorithmic core of the Go library `fst`, a helper
package for tests that build and compare directory trees. The core has
three parts:

- **Entry comparators and the comparator chain** (`file_rank.go`,
  `file_less.go`). These are predicates over an entry's name, directory
  flag, regular-file flag, size, mode and modification time, plus the file
  bytes for `ByContent`. `Less` is true as soon as any comparator in the
  chain says "less". The model proves that `ByContent`'s byte loop computes
  strict lexicographic order on the bytes. It also proves that the chain
  rule ignores the order of the chain and is not a multi-key comparison.
- **The sorted-merge difference** (`collectDifferent`). It appears in three
  revisions of the library: `tree_diff.go`, `fstests.go` and
  `test_util.go`. They share the two-cursor loop. There are two `less`
  functions: `tree_diff.go` has its own, and `fstests.go` defines none and
  uses the one in `test_util.go` of the same package. The loop is modelled once (`Merge.CollectDifferent`), with `less`
  as a parameter. It is proved against the recursive specification
  `Merge.Diff`. The model proves facts about `Merge.Diff` for any `less`:
  - no entry is lost, duplicated or reordered;
  - the two sides lose equally many entries to matches;
  - for a strict weak order on sorted input, exactly the entries without
    a counterpart are reported. Ordering by name alone is one such order;
    neither revision's own `less` is one, so this fact does not apply to
    them.

  Each revision's own `less` then gets its own lemmas:
  - the 5 ms time tolerance of `tree_diff.go`;
  - the directory/file symmetry of `test_util.go`, which makes a shared
    entry be reported on both sides (`TestUtil.SharedEntryReportedTwice`).

  The `TreeDiffs` and `treesAreDifferent` wrappers are modelled on top.
- **The tree-description parsers and builders** (`tree_create.go`,
  `dir_create.go`).
  - The line patterns are written out by hand as matchers over the
    line's suffixes.
  - Each matcher is proved to read exactly the lines its pattern allows,
    laid out with whitespace and tab runs of any length, into the fields
    that layout spells out; every line written from well-formed fields
    is read back.
  - `TreeParseReader` and the reading loop of `DirCreate` are proved to
    skip blank lines and stop at the first bad line. Only the lines up to
    that one must be readable: lines after it are never parsed.
  - The builders attempt filesystem operations. These become a trace of
    `FsOps.Op` values, and an oracle decides which attempt fails.
  - `TreeCreate` and `DirCreate` are proved to attempt exactly the planned
    operations up to the first failure. In the plan, directories are made
    at mode 0700 first and get their permissions and times last, in
    reverse input order.

Modules: `Wrappers` (Option, Result), `Lex` (lexicographic order),
`FileInfo` (the os.FileInfo fields read), `FileRank`, `FileLess`, `Merge`,
`Report` (the notes of TreeDiffs), `TreeDiff`, `FsTests`, `TestUtil`,
`FsOps` (the operation trace), `LineSyntax` (character classes, octal
values, unquoting, the line-reading specification), `TreeCreate` and
`DirCreate`.

The doc comment of `TreeDiffs` in `tree_diff.go` (lines 13-24) says
permissions are compared on their 12 Unix bits. The code compares the
whole `FileMode`, type bits included (line 91). The model follows the
code (`TreeDiff.Less`).

## Model

| member | source | states |
|---|---|---|
| FileInfo.Perm | file_less.go:39-42 | the permission part of a mode is at most 0o777, the nine bits rwxrwxrwx |
| FileInfo.DirNotRegular | file_rank.go:29-35 | a directory is never a regular file, so the size comparators never order a directory |
| Lex.LessIffFirstDifference | file_rank.go:70-90 | strict lexicographic order holds iff the first difference favours the left sequence or the left sequence is a proper prefix |
| Lex.DecidedAtLess | file_rank.go:85-86 | a first differing element in favour of the left sequence makes it rank first |
| Lex.ProperPrefixLess | file_rank.go:76-79 | a proper prefix ranks first |
| Lex.LessDecided | file_rank.go:70-90 | whenever the left sequence ranks first, it is a proper prefix or there is a first difference in its favour |
| Lex.LessIrreflexive | file_less.go:16-18 | no string or byte sequence ranks before itself |
| Lex.LessAsymmetric | file_less.go:16-18 | the order never holds both ways |
| Lex.LessTransitive | file_less.go:16-18 | the order is transitive |
| Lex.LessTotal | file_less.go:16-18 | any two different sequences are ordered one way or the other |
| FileRank.ByContent | file_rank.go:53-92 | the byte loop (right byte read first; right end gives false, left end gives true) returns exactly lexicographic order on the two contents |
| FileRank.Less | file_rank.go:95-102 | the chain says "less" iff some comparator in it does; an empty chain says false |
| FileRank.ApplyChain | file_rank.go:95-102 | the loop over the chain returns true iff some comparator says "less", the same answer as FileRank.Less |
| FileRank.Consulted | file_rank.go:96-100 | evaluation stops at the first comparator that says "less": all earlier ones said false, and the answer is the last one consulted |
| FileRank.StrictComparators | file_rank.go:17-45 | ByName, ByTime and ByPerm are irreflexive and never true both ways |
| FileRank.ByNameTotal | file_rank.go:19-21 | entries with different base names are ordered by ByName one way or the other |
| FileRank.ByDirOnlyDirBeforeOther | file_rank.go:25-27 | ByDir holds exactly for a (directory, non-directory) pair, never for two directories or two non-directories |
| FileRank.BySizeRegularOnly | file_rank.go:31-35 | BySize is false when either side is not a regular file, and is size order between regular files |
| FileRank.ByPermIgnoresHighBits | file_rank.go:43-45 | entries whose modes differ only above the nine permission bits are unordered by ByPerm |
| FileRank.ContentIsLexicographic | file_rank.go:47-52 | ByContent's comparator is decided by the first differing byte, and a proper prefix ranks first |
| FileRank.ContentStrictTotal | file_rank.go:70-90 | identical contents, two empty files included, rank neither way; different contents rank exactly one way |
| FileRank.ContentIgnoresLength | file_rank.go:47-50 | "aaa" ranks before "ab" and not the other way round, against their sizes |
| FileRank.LessIgnoresChainOrder | file_rank.go:95-102 | two chains holding the same comparators give the same answer in any order |
| FileRank.LessAppend | file_rank.go:95-102 | appending a comparator can only turn false into true |
| FileRank.ChainIsNotLexicographic | file_rank.go:95-102 | with the chain [ByName, ByDir], a file "a" and a directory "b" each rank before the other |
| FileLess.Less | file_less.go:45-52 | the chain says "less" iff some comparator in it does |
| FileLess.ApplyChain | file_less.go:45-52 | the loop over the chain returns true iff some comparator says "less", the same answer as FileLess.Less |
| FileLess.LessNameIsStringOrder | file_less.go:16-18 | LessName is irreflexive, asymmetric and total on different names |
| FileLess.LessNameStrictWeakOrder | file_less.go:16-18 | ordering by name alone is a strict weak order, so Merge.SortedDiffIsUnmatched applies to it |
| FileLess.LessDirOneWay | file_less.go:22-24 | LessDir holds only for a (directory, non-directory) pair and never both ways |
| FileLess.LessSizeRegularOnly | file_less.go:28-32 | LessSize holds iff both are regular files and the left is smaller; never for a directory |
| FileLess.LessPermTimeStrict | file_less.go:34-42 | LessPerm sees only the nine permission bits; LessPerm and LessTime never hold both ways |
| FileLess.LessIrreflexive | file_less.go:16-52 | no chain of this file's comparators ranks an entry before itself |
| FileLess.EmptyChain | file_less.go:45-52 | the empty chain says false |
| Merge.Diff | tree_diff.go:58-84 | the left-only and matched entries together are as many as the left list, and the same holds on the right (that they partition it, in order, is Merge.DiffPartitions) |
| Merge.CollectDifferent | tree_diff.go:58-84 | the cursor loop returns exactly the left-only and right-only lists of Merge.Diff |
| Merge.DiffPartitions | tree_diff.go:63-81 | each input is an order-preserving interleaving of its unique list and its matched entries |
| Merge.DiffSubsequences | tree_diff.go:63-81 | both unique lists are order-preserving subsequences of their inputs; both sides lose equally many entries to matches; no entry is lost or duplicated |
| Merge.InterleavingSubsequences | tree_diff.go:65-75 | both halves of an interleaving are order-preserving subsequences of it |
| Merge.InterleavingElements | tree_diff.go:65-75 | the halves of an interleaving hold exactly its elements |
| Merge.MatchedAreTies | tree_diff.go:77-80 | a matched pair is a tie: neither entry ranks before the other |
| Merge.DiffOneSideEmpty | tree_diff.go:65-75 | an empty left side sends the whole right side to onlyRight, and the other way round |
| Merge.RightTestedFirst | tree_diff.go:65-69 | when `less` holds both ways between the heads, the right head is reported first and never matched |
| Merge.PairwiseTiesNoDiff | tree_diff.go:63-81 | lists of equal length that tie position by position leave nothing unique |
| Merge.SelfDiffEmpty | tree_diff.go:63-81 | with an irreflexive `less`, a listing against itself has no differences |
| Merge.DisjointAllUnique | tree_diff.go:63-81 | when no entries tie across the sides, everything is reported and nothing matched |
| Merge.UnmatchedDrop | tree_diff.go:65-69 | dropping a right entry that ties with nothing on the left leaves the left's unmatched entries unchanged |
| Merge.SortedDiffIsUnmatched | tree_diff.go:58-84 | on lists sorted by a strict weak order, each side reports exactly its entries that tie with nothing on the other side, in order |
| TreeDiff.TreeDiffs | tree_diff.go:25-56 | a failed walk gives exactly one note naming that directory; otherwise there is one note per non-empty unique list, A's first, and no note iff nothing is unique |
| TreeDiff.LessIrreflexive | tree_diff.go:86-93 | the composite `less` never ranks an entry before itself |
| TreeDiff.TimeTolerance | tree_diff.go:92 | for entries alike in name, size and mode, `less` holds iff the left is more than 5 ms older |
| TreeDiff.JitterInvisible | tree_diff.go:86-93 | listings that differ only by at most 5 ms of timestamp jitter, entry by entry, have no differences |
| TreeDiff.SelfDiffEmpty | tree_diff.go:58-93 | a tree compared with itself has no differences |
| TreeDiff.TimeDifferenceReported | tree_diff.go:86-93 | two entries alike in name, size and mode whose times are more than 5 ms apart, either way, are each reported on their own side |
| FsTests.TreeDiffs | fstests.go:122-145 | a failed walk gives one note; otherwise there is one note per non-empty unique list (A's first, at most two), and no note iff nothing is unique |
| TestUtil.TreesAreDifferent | test_util.go:12-40 | true iff a walk failed or either unique list of the merge is non-empty |
| TestUtil.LessIrreflexive | test_util.go:56-60 | `less` never ranks an entry before itself |
| TestUtil.DirFileBothWays | test_util.go:58 | a directory and a file rank before each other, whatever their names and sizes |
| TestUtil.MatchedAgree | test_util.go:56-60 | every matched pair agrees on name, directory flag and size |
| TestUtil.DirFileRightFirst | test_util.go:69-73 | with a directory and a file at the heads, the right one is recorded as right-only first |
| TestUtil.SelfDiffEmpty | test_util.go:56-92 | a listing compared with itself has no differences |
| TestUtil.SharedEntryReportedTwice | test_util.go:56-92 | a directory "a" against a file "a" makes an identical entry "b" be reported on both sides |
| FsOps.OpsOf | tree_create.go:83-127 | a list of steps holds at most as many operations as steps |
| FsOps.RunAppend | tree_create.go:83-127 | running two step lists in turn is running their concatenation; the second starts only if the first succeeded |
| FsOps.OpsOfAppend | tree_create.go:83-127 | the operations of a concatenation are those of its parts in order |
| FsOps.Completed | tree_create.go:83-127 | the number of steps completed before stopping is at most the number of steps |
| FsOps.CompletedSucceeded | tree_create.go:83-127 | every step before the stopping point was attempted, after exactly the earlier operations, and succeeded |
| FsOps.RunResult | tree_create.go:83-127 | a run attempts the planned operations in order up to the first failure or parse error, and returns that error; nothing after it is attempted |
| FsOps.Perform | tree_create.go:129-142 | one attempted operation is appended to the trace, and the oracle's answer is returned |
| LineSyntax.Span | tree_create.go:145 | a greedy run of one character class ends at the first character outside it |
| LineSyntax.SpanOfRun | tree_create.go:145 | a run that a character outside the class ends is the run the matcher finds |
| LineSyntax.Unquoted | tree_create.go:170-178 | a field is unquoted iff it starts with `"` or a back-tick; otherwise it is taken verbatim; an unquoting failure is the error |
| LineSyntax.CollectSucceeds | tree_create.go:54-65 | reading succeeds iff no line is bad, and then yields one entry per non-blank line, in order |
| LineSyntax.CollectFirstError | tree_create.go:56-62 | a failed read reports the first bad line's error, and every earlier line parsed |
| LineSyntax.Entries | tree_create.go:54-65 | there are at most as many entries as lines |
| LineSyntax.NonBlankCount | tree_create.go:151-153 | there are at most as many non-blank lines as lines |
| LineSyntax.EntriesSnoc | tree_create.go:64 | reading one more line appends its entry, if it has one, at the end |
| LineSyntax.UpToBad | tree_create.go:54-62 | the lines read are a prefix of the input, all parsed; only the last may be bad, and it is bad whenever reading stops early |
| LineSyntax.ReadLineAt | tree_create.go:54-62 | a readable line is read; a bad one is the last line read, any other is followed by the rest |
| LineSyntax.CollectHead | tree_create.go:56-64 | a blank line adds nothing, a bad line is the result, an entry line adds its entry before the rest |
| LineSyntax.OctalDigits | tree_create.go:163-168 | a value below 8 to the n is written as exactly n octal digits |
| LineSyntax.OctalValueBound | tree_create.go:163-168 | n octal digits have a value below 8 to the n |
| LineSyntax.OctalRoundTrip | tree_create.go:163-168 | reading back the octal digits of a value gives the value |
| LineSyntax.PermFits | tree_create.go:145 | a zero followed by at most four octal digits has a value of at most 0o7777 |
| TreeCreate.MatchLine | tree_create.go:145 | a matched line yields a time token, a permission token, a non-empty tab-free path and tab-free content |
| TreeCreate.MatchPerm | tree_create.go:145 | the pattern from the permission token on yields well-formed fields carrying the given time |
| TreeCreate.MatchPath | tree_create.go:145 | the pattern from the path on yields well-formed fields carrying the given time and permission |
| TreeCreate.PathMatches | tree_create.go:145 | a path and optional content laid out as the pattern allows (any tab run before the content; trailing tabs, or trailing whitespace that starts with a tab after content) are read back |
| TreeCreate.MatchPathParts | tree_create.go:145 | whatever the pattern reads from the path on is the path, then only tabs when there is no content, or a tab run, the content and trailing whitespace starting with a tab |
| TreeCreate.MatchPathLaidOut | tree_create.go:145 | the pattern reads given fields from the path on iff they are well formed, carry the given time and permission, and the text is laid out as above |
| TreeCreate.PermMatches | tree_create.go:145 | the permission token, any tab run, and a path and content laid out as the pattern allows are read back |
| TreeCreate.MatchPermSteps | tree_create.go:145 | the pattern reads the permission token and a tab run, then hands the rest to the path part |
| TreeCreate.LaidOutMatches | tree_create.go:145 | any line with leading whitespace, the time, a tab run, the permission, a tab run, and a path and content laid out as the pattern allows is read back into those fields |
| TreeCreate.MatchLineSteps | tree_create.go:145 | the pattern reads leading whitespace, the time token and a tab run, then hands the rest to the permission part |
| TreeCreate.MatchLineParts | tree_create.go:145 | every line the pattern matches is laid out as leading whitespace, time, tab run, permission, tab run, path and content, with the fields it yields |
| TreeCreate.MatchLineLaidOut | tree_create.go:145 | the pattern reads given fields from a line iff they are well formed and the line is laid out that way: the matcher is exactly the pattern |
| TreeCreate.FormatMatches | tree_create.go:145 | every line written from well-formed fields matches and gives those fields back |
| TreeCreate.ParseFields | tree_create.go:155-194 | a bad time gives its error first; then the path's and the content's unquoting errors; otherwise the node has the parsed time, the octal permission (at most 0o7777), and the path and content unquoted as their first character requires |
| TreeCreate.Parse | tree_create.go:149-194 | a line is skipped iff it is blank; any other line is parsed from its fields |
| TreeCreate.ParsePlainFields | tree_create.go:163-178 | fields needing no unquoting give the node they spell out |
| TreeCreate.ParseFormatted | tree_create.go:149-194 | a written line needing no unquoting parses back to the node it describes |
| TreeCreate.ParseLine | tree_create.go:56 | a line has a parse result iff it is readable (blank or matching the pattern), and then it is the line's parse |
| TreeCreate.ParseLines | tree_create.go:54-56 | each line is parsed on its own, in order, or has no result where the source would panic |
| TreeCreate.TreeParseReader | tree_create.go:49-73 | given readable lines up to the first bad one, the nodes of the non-blank lines in order, or the first bad line's error and no list |
| TreeCreate.Dirs | tree_create.go:89-95 | the collected directories are directory nodes, at most one per node |
| TreeCreate.SetAttributes | tree_create.go:129-142 | permissions, then both times, are set on the node's name; the first failure is the error |
| TreeCreate.CreateEntry | tree_create.go:89-117 | a directory is made at 0700 under its name without the slash; a file is created, written only when its body is non-empty, closed, and gets its attributes; the first failure stops |
| TreeCreate.CreateEntries | tree_create.go:87-118 | the first loop attempts each node's operations in order until one fails, and collects exactly the directory nodes |
| TreeCreate.SetDirAttributes | tree_create.go:120-124 | the second loop sets the directories' attributes, last one first, until one fails |
| TreeCreate.Build | tree_create.go:83-127 | TreeCreate attempts exactly the planned operations up to the first failure and returns that failure's error |
| TreeCreate.Phase1Steps | tree_create.go:87-118 | the first phase makes directories only at 0700, writes only non-empty bodies, and never sets a directory's attributes |
| TreeCreate.Phase2Length | tree_create.go:120-124 | the second phase has two operations per directory |
| TreeCreate.Phase2At | tree_create.go:120-124 | the k-th directory from the end gets its permissions, then its times, at steps 2k and 2k+1 of the second phase |
| TreeCreate.DirsPrefix | tree_create.go:94 | directories collected earlier stay a prefix of those collected later |
| TreeCreate.DirPosition | tree_create.go:94 | a directory node's place among the directories is the number of directory nodes before it |
| TreeCreate.SecondPhaseAt | tree_create.go:120-124 | after any first phase, the directory at position j gets its permissions and times at a fixed place |
| TreeCreate.DirAttributesAt | tree_create.go:115-124 | every directory node gets its permissions and then its times after everything has been created |
| TreeCreate.DirAttributesLast | tree_create.go:115-124 | of two directory nodes, the later one (a child after its parent) gets its attributes first, and both after every creation |
| DirCreate.MatchLine | dir_create.go:79 | a matched line yields a time token, a permission token, and a path with no newline that does not start with whitespace |
| DirCreate.MatchPerm | dir_create.go:79 | the pattern from the permission token on yields well-formed fields carrying the given time |
| DirCreate.PermMatches | dir_create.go:79 | the permission token, any whitespace run and the path are read back |
| DirCreate.LaidOutMatches | dir_create.go:79 | a line of the time at its very start, a whitespace run, the permission, a whitespace run and the path to the end of the line is read back into those fields |
| DirCreate.MatchLineSteps | dir_create.go:79 | the pattern reads the time token and a whitespace run, then hands the rest to the permission part |
| DirCreate.MatchPermSteps | dir_create.go:79 | the pattern reads the permission token, a whitespace run, and takes the rest of the line as the path |
| DirCreate.MatchLineParts | dir_create.go:79 | every line the pattern matches is the time, a whitespace run, the permission, a whitespace run and the path |
| DirCreate.MatchLineLaidOut | dir_create.go:79 | the pattern reads given fields from a line iff they are well formed and the line is laid out that way: the matcher is exactly the pattern |
| DirCreate.LeadingSpaceUnreadable | dir_create.go:35 | a line that starts with whitespace and is not blank does not match and cannot be read |
| DirCreate.FormatMatches | dir_create.go:79 | every line written from well-formed fields matches and gives those fields back |
| DirCreate.ParseFields | dir_create.go:89-113 | a bad time gives its error first, then the path's unquoting error; otherwise the entry has the parsed time, the octal permission (at most 0o7777) and the path, unquoted iff it starts with a quote |
| DirCreate.Parse | dir_create.go:83-114 | a line is skipped iff it is blank; any other line is parsed from its fields |
| DirCreate.EmptyPathBadTime | dir_create.go:89-93 | a matched line with an empty path whose timestamp fails to parse is read, and gives the time error |
| DirCreate.FormattedBadTime | dir_create.go:89-93 | the written line of a bad time, a permission and an empty path gives the time error |
| DirCreate.ParsePlainFields | dir_create.go:96-111 | fields needing no unquoting give the directory they spell out |
| DirCreate.ParseFormatted | dir_create.go:83-114 | a written line needing no unquoting parses back to the directory it describes |
| DirCreate.ParseLine | dir_create.go:43 | a line has a parse result iff it is readable (blank, or matching the pattern with a non-empty path or a timestamp that fails to parse), and then it is the line's parse |
| DirCreate.ParseLines | dir_create.go:41-43 | each line is parsed on its own, in order, or has no result where the source would panic |
| DirCreate.ReadDirs | dir_create.go:41-56 | the reading loop takes exactly the reading steps of the lines up to the first bad one, stopping at a bad line or a failed Mkdir, and otherwise yields the directories read, in order |
| DirCreate.ReadAdvance | dir_create.go:41-56 | at a readable line the reading loop stops with a bad line's error, skips a blank line, or attempts the entry's 0700 Mkdir and adds its directory |
| DirCreate.SetDirAttributes | dir_create.go:63-73 | the attribute loop takes exactly the attribute steps, last directory first, until one fails |
| DirCreate.Create | dir_create.go:36-76 | given readable lines up to the first bad one, DirCreate attempts exactly its planned operations for those lines up to the first bad line or failure and returns that error |
| DirCreate.Mkdirs | dir_create.go:51-53 | one 0700 Mkdir per directory, in order |
| DirCreate.ReadStepsMkdirs | dir_create.go:41-56 | the reading loop makes every parsed directory, in input order, at 0700, and does nothing else to the filesystem |
| DirCreate.BadLineAborts | dir_create.go:43-49 | a line that fails to parse stops the reading loop with an error |
| DirCreate.BadLineStops | dir_create.go:43-49 | once a line fails to parse, no permission or time is ever set |
| DirCreate.AttrStepsLength | dir_create.go:63-73 | the attribute phase has two operations per directory |
| DirCreate.AttrStepsReversed | dir_create.go:63-73 | the k-th directory from the end gets its permissions, then its times, at steps 2k and 2k+1: last directory read first |

## Left out

- Walking a directory tree (`collectFileInfo` in `tree_diff.go` and
  `test_util.go`) is done by the OS. The walk's outcome, a listing in walk
  order or an error, is a parameter of `TreeDiff.TreeDiffs`,
  `FsTests.TreeDiffs` and `TestUtil.TreesAreDifferent`.
- FileRank.ByContent: opening the two files and the `t.Fatal` when that
  fails are not modelled. The contents are byte sequences. A read error
  ends a stream exactly like end of file, and the model does not tell
  them apart.
- Go's `time.Parse` with the RFC 3339 layout and `strconv.Unquote` are
  library code. They are parameters: oracles that return a value or fail.
  Times are nanoseconds since the epoch, and `Round(0)` only strips the
  monotonic clock reading, which these times never carry.
- The general `regexp` engine is not modelled. Only the two fixed line
  patterns are written out as matchers. Each is proved to read exactly
  the lines laid out as its pattern allows, into the fields that layout
  spells out (TreeCreate.MatchLineLaidOut, DirCreate.MatchLineLaidOut).
- Names are strings of Unicode scalar values, ordered by code point. This
  is Go's byte-wise string order only for valid UTF-8. Go names that are
  not valid UTF-8 cannot be written in the model.
- `bufio.Scanner` line splitting is not modelled: the input is a sequence
  of lines. `scanner.Err()`, which reports an over-long line or a read
  error, is not modelled either.
- TreeCreate.Parse: requires a line that is blank or matches the pattern.
  On any other line the source indexes the nil result of
  `FindStringSubmatch` and panics.
- DirCreate.Parse: requires a line that is blank, or matches the pattern
  with a non-empty path or with a timestamp that fails to parse. On any
  other line the source panics: on the nil match, or on indexing the
  empty path once the time has parsed. A matched line with an empty path
  and a bad time gives the time error (DirCreate.EmptyPathBadTime).
- TreeCreate.TreeParseReader: requires every line up to the first bad one
  to be readable, for the same reason: the source panics on an
  unreadable line it reaches. Lines after the first bad line are
  unconstrained.
- DirCreate.Create: requires every line up to the first bad one to be
  readable, as TreeCreate.TreeParseReader does. This also covers lines
  after a failed Mkdir, up to the next bad line, although the source
  returns before reading them (dir_create.go:51-53).
- TreeCreate.MatchLine: its own contract states only the shape of the
  fields it yields. Which lines it reads, and into which fields, is stated
  by TreeCreate.MatchLineLaidOut.
- TreeCreate.MatchPerm: its own contract states only the shape of the
  fields it yields. What it reads is stated by TreeCreate.MatchPermSteps
  and TreeCreate.MatchPathLaidOut.
- TreeCreate.MatchPath: its own contract states only the shape of the
  fields it yields. What it reads, including "" for absent content, is
  stated by TreeCreate.MatchPathLaidOut.
- DirCreate.MatchLine: its own contract states only the shape of the
  fields it yields. Which lines it reads, and into which fields, is stated
  by DirCreate.MatchLineLaidOut.
- DirCreate.MatchPerm: its own contract states only the shape of the
  fields it yields. What it reads is stated by DirCreate.MatchPermSteps.
- DirCreate.ReadDirs: requires readable lines up to the first bad one,
  including lines after a failed Mkdir, which the source never reads
  (dir_create.go:51-53 returns there).
- TreeCreate.CreateEntries: requires a non-empty name for every node,
  including nodes after a failing operation, which the source never
  reaches (tree_create.go:89 indexes the name's last character).
- TreeCreate.Build: requires non-empty node names, because the source
  indexes the last character of the name and panics on an empty one. The
  requirement also covers nodes after a failing operation, which the
  source never reaches.
- `strconv.ParseUint` cannot fail on a permission token the pattern
  accepts: a zero and at most four octal digits always convert and fit in
  32 bits. The model therefore has no error for it (`LineSyntax.PermFits`).
  `os.FileMode(perm64)` keeps the twelve bits as they are. Its model
  `LineSyntax.PermMode` carries no contract of its own.
- The filesystem is not modelled as a state. Each operation is recorded in
  a trace, and an oracle that sees the earlier operations decides whether
  it fails. Whether a Mkdir of an existing directory fails, for example,
  is up to the oracle.
- The error values are `FsOps.Error`: the failed operation, or the token
  that failed to parse or unquote. Go's error text is not modelled.
- The diagnostic text that `TreeDiffs` builds with `fmt` is not modelled.
  `Report.Note` keeps each note's directory and its unique entries, and
  the contracts state the number and order of the notes. The `log.Printf`
  calls of `treesAreDifferent` are not modelled.
- `Merge.Split.matched` records which pairs the merge stepped over
  together. The Go code does not return it; it is there to state what
  the merge does.
- Temporary directories, tree copying and deletion (`temp_dir.go`,
  `tree_copy.go`, `file_del_all.go`, `InitTempDir`, `CloneTempDir` and
  `copyTree` in `fstests.go`) are filesystem plumbing and are not part of
  this model. Nor are `MakeFipSlice`/`NewFileInfoPath`, the test-harness
  glue (`fatalfable.go`, `Rfc3339`, `Node.SaveAttributes`), or the test
  files.
