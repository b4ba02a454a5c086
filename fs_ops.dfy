/**
 * The filesystem as the tree builders see it: a sequence of operations,
 * each of which may fail. Whether an operation fails is decided by an
 * oracle that sees every operation attempted before it, so any
 * deterministic filesystem can stand behind it.
 */
module FsOps {
  import opened Wrappers
  import opened FileInfo

  datatype Op =
    | Mkdir(path: string, mode: FileMode)
    | Create(path: string)
    | Write(path: string, data: string)
    | Close(path: string)
    | Chmod(path: string, mode: FileMode)
    | Chtimes(path: string, atime: int, mtime: int)

  /** `fails(done, op)`: attempting `op` after the operations `done` returns an error. */
  type Oracle = (seq<Op>, Op) -> bool

  /** The errors the builders return: a failed operation (Go's PathError
      names the operation and the path), a timestamp time.Parse rejects,
      or a quoted field strconv.Unquote rejects. */
  datatype Error = OpFailed(op: Op) | BadTime(token: string) | BadQuote(field: string)

  /** One step of a builder: attempt an operation, or stop with an error
      found without touching the filesystem. */
  datatype Step = Do(op: Op) | Abort(error: Error)

  /** Run the steps after `done`, stopping at the first failing operation or
      the first Abort. Returns every operation attempted, the failing one
      last, and the error if any. */
  function Run(fails: Oracle, done: seq<Op>, steps: seq<Step>): (r: (seq<Op>, Option<Error>))
    decreases |steps|
  {
    if steps == [] then (done, None)
    else match steps[0]
      case Abort(e) => (done, Some(e))
      case Do(op) =>
        if fails(done, op) then (done + [op], Some(OpFailed(op)))
        else Run(fails, done + [op], steps[1..])
  }

  /** The operations of a list of steps, in order. */
  function OpsOf(steps: seq<Step>): (ops: seq<Op>)
    ensures |ops| <= |steps|
  {
    if steps == [] then []
    else (if steps[0].Do? then [steps[0].op] else []) + OpsOf(steps[1..])
  }

  /** Running two lists of steps one after the other is running their
      concatenation: the second list starts only if the first succeeded. */
  lemma {:induction false} RunAppend(fails: Oracle, done: seq<Op>, s1: seq<Step>, s2: seq<Step>)
    ensures Run(fails, done, s1 + s2) ==
      if Run(fails, done, s1).1.Some? then Run(fails, done, s1)
      else Run(fails, Run(fails, done, s1).0, s2)
    decreases |s1|
  {
    if s1 != [] {
      assert (s1 + s2)[0] == s1[0] && (s1 + s2)[1..] == s1[1..] + s2;
      if s1[0].Do? && !fails(done, s1[0].op) {
        RunAppend(fails, done + [s1[0].op], s1[1..], s2);
      }
    } else {
      assert s1 + s2 == s2;
    }
  }

  /** The operations of two lists of steps one after the other. */
  lemma {:induction false} OpsOfAppend(a: seq<Step>, b: seq<Step>)
    ensures OpsOf(a + b) == OpsOf(a) + OpsOf(b)
    decreases |a|
  {
    if a == [] {
      assert a + b == b;
    } else {
      OpsOfAppend(a[1..], b);
      var head := if a[0].Do? then [a[0].op] else [];
      assert (a + b)[0] == a[0] && (a + b)[1..] == a[1..] + b;
      assert OpsOf(a + b) == head + OpsOf(a[1..] + b);
      assert OpsOf(a) == head + OpsOf(a[1..]);
      assert head + (OpsOf(a[1..]) + OpsOf(b)) == (head + OpsOf(a[1..])) + OpsOf(b);
    }
  }

  /** How many steps Run gets through before it stops. */
  function Completed(fails: Oracle, done: seq<Op>, steps: seq<Step>): (k: nat)
    ensures k <= |steps|
    decreases |steps|
  {
    if steps == [] || steps[0].Abort? || fails(done, steps[0].op) then 0
    else 1 + Completed(fails, done + [steps[0].op], steps[1..])
  }

  /** Every step before the one Run stops at is an operation that was
      attempted, after exactly the operations before it, and succeeded. */
  lemma {:induction false} CompletedSucceeded(fails: Oracle, done: seq<Op>, steps: seq<Step>, i: nat)
    requires i < Completed(fails, done, steps)
    ensures steps[i].Do? && !fails(done + OpsOf(steps[..i]), steps[i].op)
    decreases i
  {
    if i > 0 {
      var op := steps[0].op;
      CompletedSucceeded(fails, done + [op], steps[1..], i - 1);
      assert steps[1..][i - 1] == steps[i];
      assert steps[..i] == [steps[0]] + steps[1..][..i - 1];
      OpsOfAppend([steps[0]], steps[1..][..i - 1]);
      assert done + OpsOf(steps[..i]) == (done + [op]) + OpsOf(steps[1..][..i - 1]);
    } else {
      assert steps[..0] == [] && done + OpsOf([]) == done;
    }
  }

  /** What Run returns, stated without recursion: with `k` steps completed,
      either they were all the steps and there is no error, or step `k` is
      the Abort whose error is returned, or the operation that failed,
      attempted last. */
  lemma {:induction false} RunResult(fails: Oracle, done: seq<Op>, steps: seq<Step>)
    ensures var k := Completed(fails, done, steps);
      Run(fails, done, steps) ==
        if k == |steps| then (done + OpsOf(steps), None)
        else if steps[k].Abort? then (done + OpsOf(steps[..k]), Some(steps[k].error))
        else (done + OpsOf(steps[..k]) + [steps[k].op], Some(OpFailed(steps[k].op)))
    ensures var k := Completed(fails, done, steps);
      k < |steps| && steps[k].Do? ==> fails(done + OpsOf(steps[..k]), steps[k].op)
    decreases |steps|
  {
    var k := Completed(fails, done, steps);
    if steps == [] {
      assert done + OpsOf([]) == done;
    } else if steps[0].Abort? || fails(done, steps[0].op) {
      assert steps[..0] == [] && done + OpsOf([]) == done;
    } else {
      var op := steps[0].op;
      RunResult(fails, done + [op], steps[1..]);
      var j := k - 1;
      assert steps[..k] == [steps[0]] + steps[1..][..j];
      OpsOfAppend([steps[0]], steps[1..][..j]);
      assert done + OpsOf(steps[..k]) == (done + [op]) + OpsOf(steps[1..][..j]);
      if k == |steps| {
        assert steps[1..][..j] == steps[1..] && steps[..k] == steps;
      } else {
        assert steps[k] == steps[1..][j];
      }
    }
  }

  /** Attempt one operation: the trace grows by `op`, and the result is the
      oracle's answer. `rest` is the plan that follows, for the proof only. */
  method Perform(fails: Oracle, done: seq<Op>, op: Op, ghost rest: seq<Step>)
    returns (ops: seq<Op>, failed: bool)
    ensures ops == done + [op] && failed == fails(done, op)
    ensures Run(fails, done, [Do(op)] + rest) ==
      if failed then (ops, Some(OpFailed(op))) else Run(fails, ops, rest)
  {
    ops := done + [op];
    failed := fails(done, op);
    assert ([Do(op)] + rest)[0] == Do(op) && ([Do(op)] + rest)[1..] == rest;
  }
}
