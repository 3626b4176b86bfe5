/**
  The kernel's side of the storage code.  Every answer it gives to a system call is written to a log, so
  that the outcome of a call can be stated by what was answered and not by what the code did with it.
 */
module Kernels {
  import opened Common
  import opened FileStats

  datatype Operation = Read | Write

  /** An answer: to `io_uring_queue_init`, to a submission, to a wait, a completion, and to `pwrite` and `pread`. */
  datatype Answer =
    | Init(result: int)
    | Submitted(result: int)
    | Waited(result: int)
    | Completed(operation: Operation, result: int)
    | Wrote(bytes: int, errno: int)
    | Got(bytes: int, errno: int)

  class Kernel {
    ghost var log: seq<Answer>

    constructor ()
      ensures log == []
    {
      log := [];
    }

    method QueueInit() returns (result: int)
      modifies this
      ensures log == old(log) + [Init(result)]
    {
      result := *;
      log := log + [Init(result)];
    }
  }

  /** Every byte of the range has an offset that `off_t` holds. */
  predicate Addressable(offset: nat, length: nat) {
    length > 0 ==> offset + length - 1 <= OFF_T_MAX
  }

  // ----- What a log means -----

  /** Worth another try; not every loop tries again on EAGAIN. */
  predicate Transient(again: bool, error: int) {
    error == EINTR || (again && error == EAGAIN)
  }

  /** The error that one answer is, or success when the work can go on after it. */
  function Refusal(again: bool, a: Answer): Status {
    match a
    case Init(r) => if r < 0 then SystemError("io_uring_queue_init", -r) else Success
    case Submitted(r) => if r < 0 then SystemError("io_uring_submit", -r) else Success
    case Waited(r) => if r < 0 && !Transient(again, -r) then SystemError("io_uring_wait_cqe", -r) else Success
    case Completed(op, r) =>
      if r > 0 || (r < 0 && Transient(again, -r)) then Success
      else if r < 0 then SystemError(if op.Read? then "io_uring read" else "io_uring write", -r)
      else RuntimeError(if op.Read? then "unexpected EOF while reading file" else "io_uring write returned zero bytes")
    case Wrote(bytes, errno) =>
      if bytes > 0 || (bytes < 0 && Transient(again, errno)) then Success
      else if bytes < 0 then SystemError("pwrite", errno)
      else RuntimeError("pwrite returned zero bytes")
    case Got(bytes, errno) =>
      if bytes > 0 || (bytes < 0 && Transient(again, errno)) then Success
      else if bytes < 0 then SystemError("pread", errno)
      else RuntimeError("unexpected EOF while reading file")
  }

  /** The first refusal among the answers. */
  function First(again: bool, answers: seq<Answer>): (s: Status)
    ensures !s.Pending? && !s.InvalidArgument?
  {
    if answers == [] then Success
    else if Refusal(again, answers[0]).Success? then First(again, answers[1..])
    else Refusal(again, answers[0])
  }

  /** The status of a call is the first refusal it met; a call still running has met none. */
  ghost predicate Heard(again: bool, status: Status, log0: seq<Answer>, log: seq<Answer>) {
    && log0 <= log
    && First(again, log[|log0|..]) == if status.Pending? then Success else status
  }

  lemma {:induction false} FirstConcat(again: bool, a: seq<Answer>, b: seq<Answer>)
    ensures First(again, a + b) == if First(again, a).Success? then First(again, b) else First(again, a)
    decreases |a|
  {
    if a == [] {
      assert a + b == b;
    } else {
      assert (a + b)[1..] == a[1..] + b;
      FirstConcat(again, a[1..], b);
    }
  }

  lemma HeardNothing(again: bool, log: seq<Answer>)
    ensures Heard(again, Success, log, log)
  {
  }

  lemma HeardOne(again: bool, log: seq<Answer>, a: Answer)
    ensures Heard(again, Refusal(again, a), log, log + [a])
  {
    assert (log + [a])[|log|..] == [a] && [a][1..] == [];
  }

  lemma HeardThen(again: bool, status: Status, a: seq<Answer>, b: seq<Answer>, c: seq<Answer>)
    requires Heard(again, Success, a, b) && Heard(again, status, b, c)
    ensures Heard(again, status, a, c)
  {
    assert c[|a|..] == b[|a|..] + c[|b|..];
    FirstConcat(again, b[|a|..], c[|b|..]);
  }

  // ----- What a log counts -----

  datatype Tally = Tally(
    submits: nat, waits: nat, completions: nat, completionBytes: nat, retries: nat,
    syscalls: nat, syscallBytes: nat, syscallRetries: nat, zeros: nat)
  {
    function Plus(t: Tally): Tally {
      Tally(submits + t.submits, waits + t.waits, completions + t.completions, completionBytes + t.completionBytes,
            retries + t.retries, syscalls + t.syscalls, syscallBytes + t.syscallBytes,
            syscallRetries + t.syscallRetries, zeros + t.zeros)
    }
  }

  const NONE := Tally(0, 0, 0, 0, 0, 0, 0, 0, 0)

  function CountOne(a: Answer): Tally {
    match a
    case Init(_) => NONE
    case Submitted(r) => if r < 0 then NONE else NONE.(submits := 1)
    case Waited(r) => NONE.(waits := 1, retries := if r < 0 && Transient(true, -r) then 1 else 0)
    case Completed(_, r) =>
      if r > 0 then NONE.(completions := 1, completionBytes := r)
      else NONE.(retries := if r < 0 && Transient(true, -r) then 1 else 0)
    case Wrote(bytes, errno) =>
      if bytes > 0 then NONE.(syscalls := 1, syscallBytes := bytes)
      else if bytes == 0 then NONE.(zeros := 1)
      else NONE.(syscallRetries := if Transient(true, errno) then 1 else 0)
    case Got(_, _) => NONE
  }

  function CountAll(answers: seq<Answer>): Tally {
    if answers == [] then NONE else CountOne(answers[0]).Plus(CountAll(answers[1..]))
  }

  ghost predicate Grown(c0: Counters, c: Counters, t: Tally) {
    && c.submits == c0.submits + t.submits && c.waits == c0.waits + t.waits
    && c.completions == c0.completions + t.completions && c.completionBytes == c0.completionBytes + t.completionBytes
    && c.retries == c0.retries + t.retries && c.syscalls == c0.syscalls + t.syscalls
    && c.syscallBytes == c0.syscallBytes + t.syscallBytes
    && c.syscallRetries == c0.syscallRetries + t.syscallRetries && c.zeros == c0.zeros + t.zeros
  }

  /** The counters grew by exactly what the answers since `log0` are worth. */
  ghost predicate Recorded(c0: Counters, c: Counters, log0: seq<Answer>, log: seq<Answer>) {
    log0 <= log && Grown(c0, c, CountAll(log[|log0|..]))
  }

  lemma PlusAssociates(t: Tally, u: Tally, v: Tally)
    ensures t.Plus(u).Plus(v) == t.Plus(u.Plus(v)) && NONE.Plus(t) == t && t.Plus(NONE) == t
  {
  }

  lemma CountFront(a: Answer, answers: seq<Answer>)
    ensures CountAll([a] + answers) == CountOne(a).Plus(CountAll(answers)) && CountAll([]) == NONE
  {
    hide CountOne;
    assert ([a] + answers)[1..] == answers;
  }

  lemma {:induction false} CountConcat(a: seq<Answer>, b: seq<Answer>)
    ensures CountAll(a + b) == CountAll(a).Plus(CountAll(b))
    decreases |a|
  {
    hide CountOne, CountAll;
    if a == [] {
      assert a + b == b;
      CountFront(Init(0), b);
      PlusAssociates(CountAll(b), NONE, NONE);
    } else {
      assert a + b == [a[0]] + (a[1..] + b) && a == [a[0]] + a[1..];
      CountFront(a[0], a[1..] + b);
      CountFront(a[0], a[1..]);
      CountConcat(a[1..], b);
      PlusAssociates(CountOne(a[0]), CountAll(a[1..]), CountAll(b));
    }
  }

  lemma RecordedNothing(c: Counters, log: seq<Answer>)
    ensures Recorded(c, c, log, log)
  {
  }

  lemma RecordedOne(c0: Counters, c: Counters, log: seq<Answer>, a: Answer)
    requires Grown(c0, c, CountOne(a))
    ensures Recorded(c0, c, log, log + [a])
  {
    hide CountOne, CountAll, Grown;
    assert (log + [a])[|log|..] == [a] + [];
    CountFront(a, []);
    PlusAssociates(CountOne(a), NONE, NONE);
  }

  lemma RecordedThen(c0: Counters, c1: Counters, c2: Counters, a: seq<Answer>, b: seq<Answer>, c: seq<Answer>)
    requires Recorded(c0, c1, a, b) && Recorded(c1, c2, b, c)
    ensures Recorded(c0, c2, a, c)
  {
    assert c[|a|..] == b[|a|..] + c[|b|..];
    CountConcat(b[|a|..], c[|b|..]);
  }

  /** Status and counters of a call, both read off the log. */
  ghost predicate Told(status: Status, c0: Counters, c: Counters, log0: seq<Answer>, log: seq<Answer>) {
    Heard(true, status, log0, log) && Recorded(c0, c, log0, log)
  }

  lemma ToldNothing(c: Counters, log: seq<Answer>)
    ensures Told(Success, c, c, log, log)
  {
    HeardNothing(true, log);
    RecordedNothing(c, log);
  }

  lemma ToldOne(status: Status, c0: Counters, c: Counters, log: seq<Answer>, a: Answer)
    requires status == Refusal(true, a) && Grown(c0, c, CountOne(a))
    ensures Told(status, c0, c, log, log + [a])
  {
    HeardOne(true, log, a);
    RecordedOne(c0, c, log, a);
  }

  lemma ToldThen(status: Status, c0: Counters, c1: Counters, c2: Counters, a: seq<Answer>, b: seq<Answer>,
                 c: seq<Answer>)
    requires Told(Success, c0, c1, a, b) && Told(status, c1, c2, b, c)
    ensures Told(status, c0, c2, a, c)
  {
    HeardThen(true, status, a, b, c);
    RecordedThen(c0, c1, c2, a, b, c);
  }

  lemma ToldStatus(status: Status, c0: Counters, c: Counters, log0: seq<Answer>, log: seq<Answer>)
    requires Told(status, c0, c, log0, log)
    ensures log0 <= log && !status.InvalidArgument?
    ensures First(true, log[|log0|..]).Success? <==> status.Success? || status.Pending?
  {
  }
}
