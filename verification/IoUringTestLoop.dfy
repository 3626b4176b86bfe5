/**
  The test loop of the liburing build, its second implementation in the build without liburing, and the
  run both of them perform.  A callback is the list of its replies; a loop whose callback has not replied
  yet is `Pending`.
 */
module IoUringTestLoop {
  import opened Common
  import opened FileStats
  import opened Kernels
  import opened IoUringSlots
  import opened IoUring

  datatype Params = Params(op: Operation, offset: nat, length: nat, depth: nat, batch: nat, size: nat)

  /** What the callback returns. */
  datatype Reply = Reply(status: Status, bytes: uint64)

  /** What a loop makes of it; a negative count is an error number. */
  datatype Completion = Completion(status: Status, count: int)

  datatype Call = Call(offset: nat, length: nat)

  datatype Outcome = Outcome(status: Status, counts: Counters, trace: seq<Call>)

  const LOST_SLOT := RuntimeError("io_uring test loop lost an in-flight slot")

  ghost predicate Good(p: Params) {
    p.length > 0 && 1 <= p.batch <= p.depth && p.size > 0
  }

  // ----- The run -----

  datatype Filled = Filled(t: Table, next: nat, inFlight: nat, submitted: nat)

  function Fill(p: Params, f: Filled, i: nat): (g: Filled)
    ensures |g.t| == |f.t|
    decreases |f.t| - i
  {
    if i >= |f.t| || f.next >= p.length || f.inFlight >= p.depth || f.submitted >= p.batch then f
    else if f.t[i].inFlight || f.t[i].remaining != 0 then Fill(p, f, i + 1)
    else
      var take := if p.size <= p.length - f.next then p.size else p.length - f.next;
      Fill(p, Filled(f.t[i := Fresh(p.offset, f.next, take)], f.next + take, f.inFlight + 1, f.submitted + 1), i + 1)
  }

  /** The last in-flight slot, or -1. */
  function Last(t: Table): (k: int)
    ensures -1 <= k < |t| && (k >= 0 ==> t[k].inFlight)
    ensures forall j :: k < j < |t| ==> !t[j].inFlight
  {
    if t == [] then -1
    else if t[|t| - 1].inFlight then |t| - 1
    else
      var k := Last(t[..|t| - 1]);
      assert forall j :: 0 <= j < |t| - 1 ==> t[..|t| - 1][j] == t[j];
      k
  }

  /** The callback's way of saying "again". */
  predicate Retries(status: Status) {
    status.SystemError? && IsRetryError(status.errno)
  }

  /** The call for a slot; the slot's 64-bit offset wraps. */
  function CallOf(slot: Slot): Call {
    Call(slot.offset % UINT64_LIMIT, slot.submittedLength)
  }

  datatype Loop = Loop(t: Table, next: nat, inFlight: nat, counts: Counters, trace: seq<Call>)

  function Start(p: Params, counts: Counters): Loop {
    Loop(seq(p.depth, _ => EMPTY), 0, 0, counts, [])
  }

  function Issue(p: Params, s: Loop): Loop {
    var f := Fill(p, Filled(s.t, s.next, s.inFlight, 0), 0);
    Loop(f.t, f.next, f.inFlight, if f.submitted > 0 then s.counts.Submit(f.submitted) else s.counts, s.trace)
  }

  /** A completion of `count` bytes in slot `k`, or a retry of it when negative. */
  function Complete(s: Loop, k: nat, count: int): Loop
    requires k < |s.t| && count <= s.t[k].remaining
  {
    var slot := s.t[k];
    var c := CountCompletion(s.counts, slot, count);
    if count == slot.remaining
    then Loop(s.t[k := EMPTY], s.next, if s.inFlight > 0 then s.inFlight - 1 else 0, c, s.trace)
    else s.(t := s.t[k := Advanced(slot, Positive(count))], counts := c.Submit(1))
  }

  function Positive(count: int): nat {
    if count > 0 then count else 0
  }

  datatype Reaction = Stop(outcome: Outcome) | Continue(next: Loop)

  /** One wait, with slots filled: call back for the last in-flight slot and act on the answer. */
  function React(p: Params, s: Loop, c: Completion): Reaction
    requires Last(s.t) >= 0
  {
    var k := Last(s.t);
    var waited := s.(counts := s.counts.Wait(), trace := s.trace + [CallOf(s.t[k])]);
    if Retries(c.status) then Continue(waited.(counts := waited.counts.Retry().Submit(1)))
    else if !c.status.Success? then Stop(Outcome(c.status, waited.counts, waited.trace))
    else
      var verdict := Verdict(p.op, c.count, s.t[k].submittedLength);
      if !verdict.Success? || c.count > s.t[k].remaining then Stop(Outcome(verdict, waited.counts, waited.trace))
      else Continue(Complete(waited, k, c.count))
  }

  predicate Over(p: Params, s: Loop) {
    s.next >= p.length && s.inFlight == 0
  }

  function Run(p: Params, s: Loop, completions: seq<Completion>): Outcome
    decreases |completions|
  {
    if Over(p, s) then Outcome(Success, s.counts, s.trace)
    else
      var filled := Issue(p, s);
      if Last(filled.t) < 0 then Outcome(LOST_SLOT, filled.counts, filled.trace)
      else if completions == [] then Outcome(Pending, filled.counts, filled.trace)
      else match React(p, filled, completions[0])
        case Stop(outcome) => outcome
        case Continue(next) => Run(p, next, completions[1..])
  }

  // ----- What every run keeps -----

  ghost predicate LoopInv(p: Params, s: Loop, c0: Counters, done: set<nat>, created: nat) {
    && |s.t| == p.depth && s.inFlight == Count(s.t)
    && TableOk(s.t, p.offset, s.next) && Partition(s.t, s.next, done) && Created(created, s.next, p.length, p.size)
    && Accounting(c0, s.counts, s.t, s.next, created, 0)
  }

  ghost predicate FillInv(p: Params, f: Filled, done: set<nat>, created: nat) {
    && |f.t| == p.depth && f.inFlight == Count(f.t)
    && TableOk(f.t, p.offset, f.next) && Partition(f.t, f.next, done) && Created(created, f.next, p.length, p.size)
  }

  lemma {:induction false} FillKeeps(p: Params, f: Filled, i: nat, done: set<nat>, created: nat)
    requires Good(p) && FillInv(p, f, done, created)
    ensures var g := Fill(p, f, i);
      && g.submitted >= f.submitted && FillInv(p, g, done, created + g.submitted - f.submitted)
      && Remaining(g.t) - Remaining(f.t) == g.next - f.next
      && g.inFlight - f.inFlight == g.submitted - f.submitted
      && (i == 0 && f.submitted == 0 && f.next < p.length ==> g.inFlight > 0)
    decreases |f.t| - i
  {
    hide Partition, Created, Count, Remaining, TableOk;
    if !(i >= |f.t| || f.next >= p.length || f.inFlight >= p.depth || f.submitted >= p.batch) {
      SlotFacts(f.t, p.offset, f.next, i);
      if f.t[i].inFlight || f.t[i].remaining != 0 {
        FillKeeps(p, f, i + 1, done, created);
      } else {
        var take := if p.size <= p.length - f.next then p.size else p.length - f.next;
        var g := Filled(f.t[i := Fresh(p.offset, f.next, take)], f.next + take, f.inFlight + 1, f.submitted + 1);
        IssueKeepsTable(f.t, i, p.offset, f.next, take);
        IssueKeepsPartition(f.t, i, p.offset, f.next, take, done);
        Updated(f.t, i, Fresh(p.offset, f.next, take));
        CreatedOneMore(created, f.next, p.length, p.size, take);
        FillKeeps(p, g, i + 1, done, created + 1);
      }
    }
  }

  predicate Busy(s: Slot) {
    s.inFlight || s.remaining != 0
  }

  /** Filling issues no more than a batch, and stops only when data, queue, batch or free slots run out. */
  lemma {:induction false} FillGreedy(p: Params, f: Filled, i: nat)
    requires i <= |f.t| && forall j :: 0 <= j < i ==> Busy(f.t[j])
    requires Good(p) && f.submitted <= p.batch
    ensures var g := Fill(p, f, i);
      && g.submitted <= p.batch
      && (|| g.next >= p.length || g.inFlight >= p.depth || g.submitted == p.batch
          || forall j :: 0 <= j < |g.t| ==> Busy(g.t[j]))
    decreases |f.t| - i
  {
    if !(i >= |f.t| || f.next >= p.length || f.inFlight >= p.depth || f.submitted >= p.batch) {
      if Busy(f.t[i]) {
        FillGreedy(p, f, i + 1);
      } else {
        var take := if p.size <= p.length - f.next then p.size else p.length - f.next;
        var t := f.t[i := Fresh(p.offset, f.next, take)];
        FillGreedy(p, Filled(t, f.next + take, f.inFlight + 1, f.submitted + 1), i + 1);
      }
    }
  }

  lemma SlotFacts(t: Table, base: nat, next: nat, i: nat)
    requires TableOk(t, base, next) && i < |t|
    ensures SlotOk(t[i], base, next)
    ensures t[i].inFlight ==> Count(t) > 0
  {
    if Count(t) == 0 {
      CountZero(t);
    }
  }

  lemma IssueKeeps(p: Params, s: Loop, c0: Counters, done: set<nat>, created: nat) returns (created': nat)
    requires Good(p) && LoopInv(p, s, c0, done, created) && (s.next < p.length || s.inFlight > 0)
    ensures LoopInv(p, Issue(p, s), c0, done, created') && Issue(p, s).inFlight > 0
    ensures Issue(p, s).trace == s.trace && Issue(p, s).counts.waits == s.counts.waits
  {
    hide Fill, Partition, Created, Count, Remaining, TableOk, Accounting;
    var f := Filled(s.t, s.next, s.inFlight, 0);
    FillKeeps(p, f, 0, done, created);
    var g := Fill(p, f, 0);
    created' := created + g.submitted;
    AccountingFilled(c0, s.counts, s.t, s.next, created, 0, g.t, g.next, created', g.submitted);
  }

  lemma LastFlies(t: Table)
    requires Count(t) > 0
    ensures Last(t) >= 0
  {
    hide Last, Count;
    if Last(t) < 0 {
      NoneCounted(t);
    }
  }

  lemma CompleteKeeps(p: Params, s: Loop, c0: Counters, done: set<nat>, created: nat, k: nat, count: int)
    returns (done': set<nat>)
    requires LoopInv(p, s, c0, done, created) && k < |s.t| && s.t[k].inFlight && 0 != count <= s.t[k].remaining
    ensures LoopInv(p, Complete(s.(counts := s.counts.Wait()), k, count), c0, done', created)
    ensures var taken := Interval(s.t[k].baseIndex, s.t[k].baseIndex + Positive(count));
      done !! taken && done' == done + taken
  {
    hide Partition, Created, Count, Remaining, TableOk, Accounting, CountCompletion;
    var slot, moved := s.t[k], Positive(count);
    SlotFacts(s.t, p.offset, s.next, k);
    AdvanceKeepsTable(s.t, k, moved, p.offset, s.next);
    AdvanceKeepsPartition(s.t, k, moved, p.offset, s.next, done);
    Updated(s.t, k, Advanced(slot, moved));
    done' := done + Interval(slot.baseIndex, slot.baseIndex + moved);
    AccountingCompleted(c0, s.counts, s.t, s.next, created, 0, slot, count, s.t[k := Advanced(slot, moved)]);
  }

  lemma RetryKeeps(p: Params, s: Loop, c0: Counters, done: set<nat>, created: nat)
    requires LoopInv(p, s, c0, done, created)
    ensures LoopInv(p, s.(counts := s.counts.Wait().Retry().Submit(1)), c0, done, created)
  {
  }

  lemma LoopCounts(p: Params, s: Loop, c0: Counters, done: set<nat>, created: nat)
    requires LoopInv(p, s, c0, done, created)
    ensures |s.t| == p.depth && s.inFlight == Count(s.t)
  {
  }

  lemma TraceIrrelevant(p: Params, s: Loop, c0: Counters, done: set<nat>, created: nat, trace: seq<Call>)
    requires LoopInv(p, s, c0, done, created)
    ensures LoopInv(p, s.(trace := trace), c0, done, created)
  {
  }

  lemma SlotSizes(p: Params, s: Loop, c0: Counters, done: set<nat>, created: nat, k: nat)
    requires LoopInv(p, s, c0, done, created) && k < |s.t| && s.t[k].inFlight
    ensures s.t[k].submittedLength == s.t[k].remaining > 0
  {
    assert SlotOk(s.t[k], p.offset, s.next);
  }

  /** The bytes a reply adds when it is accepted. */
  function Gain(c: Completion): nat {
    if c.status.Success? then Positive(c.count) else 0
  }

  lemma CompleteCounts(s: Loop, k: nat, count: int)
    requires k < |s.t| && count <= s.t[k].remaining
    ensures var n := Complete(s, k, count);
      && n.counts.waits == s.counts.waits && n.trace == s.trace
      && n.counts.completionBytes == s.counts.completionBytes + Positive(count)
  {
  }

  lemma VerdictFacts(op: Operation, result: int, submitted: nat)
    ensures Verdict(op, result, submitted) != LOST_SLOT && !Verdict(op, result, submitted).Pending?
    ensures Verdict(op, result, submitted).Success? ==> 0 != result <= submitted
  {
    assert "unexpected EOF while reading file"[0] != "io_uring test loop lost an in-flight slot"[0];
    assert "io_uring write returned zero bytes"[9] != "io_uring test loop lost an in-flight slot"[9];
    assert "io_uring completion exceeded submitted length"[9] != "io_uring test loop lost an in-flight slot"[9];
  }

  /** What one reply does: it keeps the invariant and adds its bytes, or ends the run with an error. */
  ghost predicate ReactFacts(p: Params, s: Loop, c: Completion, c0: Counters, done': set<nat>, created: nat,
                             r: Reaction)
    requires Last(s.t) >= 0
  {
    match r
    case Continue(n) =>
      && LoopInv(p, n, c0, done', created) && n.trace == s.trace + [CallOf(s.t[Last(s.t)])]
      && n.counts.waits == s.counts.waits + 1
      && n.counts.completionBytes == s.counts.completionBytes + Gain(c)
    case Stop(o) =>
      && !o.status.Success? && o.trace == s.trace + [CallOf(s.t[Last(s.t)])]
      && o.counts.completionBytes == s.counts.completionBytes
      && (o.status.Pending? ==> c.status.Pending?) && (o.status == LOST_SLOT ==> c.status == LOST_SLOT)
  }

  lemma LastFlying(p: Params, s: Loop, c0: Counters, done: set<nat>, created: nat)
    requires LoopInv(p, s, c0, done, created) && s.inFlight > 0
    ensures Last(s.t) >= 0 && s.t[Last(s.t)].submittedLength == s.t[Last(s.t)].remaining > 0
  {
    hide LoopInv, Last;
    LoopCounts(p, s, c0, done, created);
    LastFlies(s.t);
    SlotSizes(p, s, c0, done, created, Last(s.t));
  }

  lemma ReactKeeps(p: Params, s: Loop, c: Completion, c0: Counters, done: set<nat>, created: nat)
    returns (done': set<nat>)
    requires LoopInv(p, s, c0, done, created) && s.inFlight > 0
    ensures Last(s.t) >= 0 && ReactFacts(p, s, c, c0, done', created, React(p, s, c))
    ensures var b := s.t[Last(s.t)].baseIndex;
      React(p, s, c).Continue? ==> done !! Interval(b, b + Gain(c)) && done' == done + Interval(b, b + Gain(c))
  {
    hide LoopInv, Last, Complete, Verdict, Retries, LOST_SLOT;
    LastFlying(p, s, c0, done, created);
    var k := Last(s.t);
    var traced := s.(trace := s.trace + [CallOf(s.t[k])]);
    TraceIrrelevant(p, s, c0, done, created, traced.trace);
    RetryKeeps(p, traced, c0, done, created);
    RetryFacts(c.status);
    VerdictFacts(p.op, c.count, s.t[k].submittedLength);
    done' := done;
    if c.status.Success? && Verdict(p.op, c.count, s.t[k].submittedLength).Success? {
      done' := CompleteKeeps(p, traced, c0, done, created, k, c.count);
      CompleteCounts(traced.(counts := traced.counts.Wait()), k, c.count);
    }
  }

  lemma RetryFacts(status: Status)
    ensures Retries(status) ==> !status.Success?
  {
  }

  lemma RunStep(p: Params, s: Loop, completions: seq<Completion>)
    requires !Over(p, s) && Last(Issue(p, s).t) >= 0
    ensures Run(p, s, completions)
         == if completions == [] then Outcome(Pending, Issue(p, s).counts, Issue(p, s).trace)
            else match React(p, Issue(p, s), completions[0])
              case Stop(outcome) => outcome
              case Continue(next) => Run(p, next, completions[1..])
  {
  }

  lemma RunOver(p: Params, s: Loop, completions: seq<Completion>)
    requires Over(p, s)
    ensures Run(p, s, completions) == Outcome(Success, s.counts, s.trace)
  {
  }

  /** What a finished, failed or waiting run looks like from outside. */
  ghost predicate RunFacts(p: Params, c0: Counters, observed: int, o: Outcome)
    requires p.size > 0
  {
    && (o.status.Success? ==> Balanced(c0, o.counts, p.length, p.size, 0))
    && (o.status.Pending? ==> observed < p.length + (o.counts.retries - c0.retries))
    && o.status != LOST_SLOT
  }

  /** The callback does not itself return the loop's internal error or the model's own marker. */
  ghost predicate Honest(completions: seq<Completion>) {
    forall i :: 0 <= i < |completions| ==> !completions[i].status.Pending? && completions[i].status != LOST_SLOT
  }

  lemma RunEnds(p: Params, s: Loop, c0: Counters, done: set<nat>, created: nat, observed: int)
    requires Good(p) && LoopInv(p, s, c0, done, created) && Over(p, s)
    ensures RunFacts(p, c0, observed, Outcome(Success, s.counts, s.trace))
  {
    CountZero(s.t);
    NoRemaining(s.t, p.offset, s.next);
    CreatedAll(created, p.length, p.size);
    Settled(c0, s.counts, s.t, p.length, p.size, created, 0);
  }

  lemma RunWaits(p: Params, s: Loop, c0: Counters, done: set<nat>, created: nat)
    requires Good(p) && LoopInv(p, s, c0, done, created) && s.inFlight > 0
    ensures RunFacts(p, c0, s.counts.waits - c0.waits, Outcome(Pending, s.counts, s.trace))
  {
    RemainingPositive(s.t, p.offset, s.next);
    WaitsBounded(c0, s.counts, s.t, s.next, p.length, created, 0);
  }

  lemma RunStops(p: Params, c0: Counters, observed: int, o: Outcome)
    requires p.size > 0 && !o.status.Success? && !o.status.Pending? && o.status != LOST_SLOT
    ensures RunFacts(p, c0, observed, o)
  {
  }

  /**
    For every callback: a successful run completes exactly `length` bytes in ceil(length / size) whole
    requests, with one wait per completion or retry and one submission entry for each; the loop never loses a
    slot; and it needs fewer than `length` replies besides retries.
   */
  lemma {:induction false} RunBalanced(p: Params, s: Loop, completions: seq<Completion>, c0: Counters, done: set<nat>,
                                       created: nat)
    requires Good(p) && LoopInv(p, s, c0, done, created) && Honest(completions)
    ensures RunFacts(p, c0, s.counts.waits - c0.waits + |completions|, Run(p, s, completions))
    decreases |completions|
  {
    hide Run, LoopInv, Issue, Last, RunFacts, React, LOST_SLOT;
    var observed := s.counts.waits - c0.waits + |completions|;
    if Over(p, s) {
      RunOver(p, s, completions);
      RunEnds(p, s, c0, done, created, observed);
    } else {
      var created' := IssueKeeps(p, s, c0, done, created);
      var filled := Issue(p, s);
      LastFlying(p, filled, c0, done, created');
      RunStep(p, s, completions);
      if completions == [] {
        RunWaits(p, filled, c0, done, created');
      } else {
        var done' := ReactKeeps(p, filled, completions[0], c0, done, created');
        match React(p, filled, completions[0])
        case Stop(outcome) => RunStops(p, c0, observed, outcome);
        case Continue(next) => RunBalanced(p, next, completions[1..], c0, done', created');
      }
    }
  }

  /** The same from the start: the run either loop performs. */
  lemma {:induction false} TestRunBalanced(p: Params, counts: Counters, completions: seq<Completion>)
    requires Good(p) && Honest(completions)
    ensures RunFacts(p, counts, |completions|, Run(p, Start(p, counts), completions))
  {
    hide Run, LoopInv, RunFacts, Honest;
    StartKeeps(p, counts);
    RunBalanced(p, Start(p, counts), completions, counts, {}, 0);
  }

  // ----- The liburing build's loop -----

  function ParamsOf(op: Operation, offset: uint64, length: uint64, queueDepth: uint64, batchSize: uint64,
                    maxBytes: uint64): Params {
    Params(op, offset, length, Depth(queueDepth), Batch(batchSize, Depth(queueDepth)),
           if maxBytes >= 1 then maxBytes else 1)
  }

  /** The source's conversion of the callback's count to `int`. */
  function ToInt32(n: nat): int {
    var w := n % 0x1_0000_0000;
    if w < 0x8000_0000 then w else w - 0x1_0000_0000
  }

  /** The replies as this build takes them. */
  function Narrowed(replies: seq<Reply>): (cs: seq<Completion>)
    ensures |cs| == |replies|
    ensures forall i :: 0 <= i < |cs| ==> cs[i] == Completion(replies[i].status, ToInt32(replies[i].bytes))
  {
    seq(|replies|, i requires 0 <= i < |replies| => Completion(replies[i].status, ToInt32(replies[i].bytes)))
  }

  method FillTable(slots: array<Slot>, p: Params, next0: nat, inFlight0: nat)
    returns (next: nat, inFlight: nat, submitted: nat)
    modifies slots
    ensures Filled(slots[..], next, inFlight, submitted) == Fill(p, Filled(old(slots[..]), next0, inFlight0, 0), 0)
  {
    next, inFlight, submitted := next0, inFlight0, 0;
    var i := 0;
    while i < slots.Length
      invariant 0 <= i <= slots.Length
      invariant Fill(p, Filled(slots[..], next, inFlight, submitted), i)
             == Fill(p, Filled(old(slots[..]), next0, inFlight0, 0), 0)
    {
      if next >= p.length || inFlight >= p.depth || submitted >= p.batch {
        break;
      }
      if slots[i].inFlight || slots[i].remaining != 0 {
        i := i + 1;
        continue;
      }
      var take := if p.size <= p.length - next then p.size else p.length - next;
      ghost var t := slots[..];
      slots[i] := Slot(p.offset + next, next, take, take, true);
      assert slots[..] == t[i := Fresh(p.offset, next, take)];
      next, inFlight, submitted := next + take, inFlight + 1, submitted + 1;
      i := i + 1;
    }
  }

  method FindLast(slots: array<Slot>) returns (k: int)
    ensures k == Last(slots[..])
  {
    k := -1;
    for i := 0 to slots.Length
      invariant k == Last(slots[..i])
    {
      assert slots[..i + 1][..i] == slots[..i];
      if slots[i].inFlight {
        k := i;
      }
    }
    assert slots[..slots.Length] == slots[..];
  }

  lemma StartKeeps(p: Params, c: Counters)
    requires Good(p)
    ensures LoopInv(p, Start(p, c), c, {}, 0)
  {
    EmptyTable(Start(p, c).t);
  }

  /** The completion of slot `k` with result `count`: what the code does is what the run does. */
  method CompleteSlot(slots: array<Slot>, p: Params, k: nat, count: int, inFlight0: nat, stats: FileIoStats,
                      ghost trace: seq<Call>, ghost next: nat)
    returns (status: Status, inFlight: nat)
    requires k < slots.Length && slots[k].inFlight && inFlight0 > 0
    requires slots[k].remaining == slots[k].submittedLength > 0
    modifies slots, stats
    ensures status == Verdict(p.op, count, old(slots[k].submittedLength))
    ensures !status.Success? ==> stats.counts == old(stats.counts)
    ensures status.Success? ==>
      && count <= old(slots[k].remaining)
      && Loop(slots[..], next, inFlight, stats.counts, trace)
         == Complete(Loop(old(slots[..]), next, inFlight0, old(stats.counts), trace), k, count)
  {
    ghost var t := slots[..];
    status := HandleCompletionResult(p.op, count, slots, k, stats);
    inFlight := inFlight0;
    if !status.Success? {
      return;
    }
    inFlight := inFlight - 1;
    if slots[k].remaining > 0 {
      slots[k] := slots[k].(submittedLength := slots[k].remaining, inFlight := true);
      inFlight := inFlight + 1;
      stats.counts := stats.counts.Submit(1);
      assert slots[..] == t[k := Advanced(t[k], Positive(count))];
    } else {
      slots[k] := EMPTY;
      assert slots[..] == t[k := EMPTY];
    }
  }

  method LiburingLoop(op: Operation, offset: uint64, length: uint64, queueDepth: uint64, batchSize: uint64,
                      maxBytes: uint64, replies: seq<Reply>, stats: FileIoStats)
    returns (status: Status, trace: seq<Call>)
    modifies stats
    ensures length == 0 ==> status.Success? && trace == [] && stats.counts == old(stats.counts)
    ensures length > 0 && !OffsetAccepted(offset, length) ==>
      status.InvalidArgument? && trace == [] && stats.counts == old(stats.counts)
    ensures length > 0 && OffsetAccepted(offset, length) ==>
      var p := ParamsOf(op, offset, length, queueDepth, batchSize, maxBytes);
      Outcome(status, stats.counts, trace) == Run(p, Start(p, old(stats.counts)), Narrowed(replies))
  {
    trace := [];
    if length == 0 {
      return Success, trace;
    }
    if !OffsetAccepted(offset, length) {
      return InvalidArgument("file range exceeds off_t range"), trace;
    }
    status, trace := DriveTable(ParamsOf(op, offset, length, queueDepth, batchSize, maxBytes), replies, stats);
  }

  method DriveTable(p: Params, replies: seq<Reply>, stats: FileIoStats) returns (status: Status, trace: seq<Call>)
    requires Good(p)
    modifies stats
    ensures Outcome(status, stats.counts, trace) == Run(p, Start(p, old(stats.counts)), Narrowed(replies))
  {
    hide Run, LoopInv, Fill, Last, Complete, Verdict, Retries, LOST_SLOT;
    trace := [];
    ghost var c0, cs := stats.counts, Narrowed(replies);
    var slots := new Slot[p.depth](_ => EMPTY);
    var next: nat, inFlight: nat, used: nat := 0, 0, 0;
    ghost var done: set<nat>, created: nat := {}, 0;
    StartKeeps(p, c0);
    assert slots[..] == Start(p, c0).t;
    assert cs[0..] == cs;
    while next < p.length || inFlight > 0
      invariant used <= |replies|
      invariant LoopInv(p, Loop(slots[..], next, inFlight, stats.counts, trace), c0, done, created)
      invariant Run(p, Loop(slots[..], next, inFlight, stats.counts, trace), cs[used..]) == Run(p, Start(p, c0), cs)
      decreases |replies| - used
    {
      ghost var s := Loop(slots[..], next, inFlight, stats.counts, trace);
      created := IssueKeeps(p, s, c0, done, created);
      var submitted;
      next, inFlight, submitted := FillTable(slots, p, next, inFlight);
      if submitted > 0 {
        stats.counts := stats.counts.Submit(submitted);
      }
      ghost var filled := Issue(p, s);
      assert Loop(slots[..], next, inFlight, stats.counts, trace) == filled;
      if inFlight == 0 {
        assert false;  // the idle pass
      }
      LastFlying(p, filled, c0, done, created);
      var k := FindLast(slots);
      if k < 0 {
        assert false;  // "io_uring test loop lost an in-flight slot"
      }
      RunStep(p, s, cs[used..]);
      if used == |replies| {
        return Pending, trace;
      }
      assert cs[used..][1..] == cs[used + 1..];
      done := ReactKeeps(p, filled, cs[used], c0, done, created);
      stats.counts := stats.counts.Wait();
      trace := trace + [CallOf(slots[k])];
      var reply := replies[used];
      used := used + 1;
      RetryFacts(reply.status);
      if !reply.status.Success? {
        if Retries(reply.status) {
          stats.counts := stats.counts.Retry();
          stats.counts := stats.counts.Submit(1);
          continue;
        }
        return reply.status, trace;
      }
      status, inFlight := CompleteSlot(slots, p, k, ToInt32(reply.bytes), inFlight, stats, trace, next);
      if !status.Success? {
        return;
      }
    }
    RunOver(p, Loop(slots[..], next, inFlight, stats.counts, trace), cs[used..]);
    return Success, trace;
  }
}
