/** The test loop of the build without liburing, and its agreement with the liburing build's loop. */
module IoUringStub {
  import opened Common
  import opened FileStats
  import opened Kernels
  import opened IoUringSlots
  import opened IoUring
  import opened IoUringTestLoop

  /** This build's slot has no buffer index. */
  datatype StubSlot = StubSlot(offset: nat, remaining: nat, submittedLength: nat, inFlight: bool)

  const STUB_EMPTY := StubSlot(0, 0, 0, false)

  /** A slot of the run as this build holds it; its 64-bit offset wraps. */
  function Erase(s: Slot): StubSlot {
    StubSlot(s.offset % UINT64_LIMIT, s.remaining, s.submittedLength, s.inFlight)
  }

  ghost predicate Simulates(stub: seq<StubSlot>, t: Table) {
    |stub| == |t| && forall i :: 0 <= i < |t| ==> stub[i] == Erase(t[i])
  }

  method FillStub(slots: array<StubSlot>, p: Params, next0: nat, inFlight0: nat, ghost t0: Table)
    returns (next: nat, inFlight: nat, submitted: nat, ghost t: Table)
    requires Simulates(slots[..], t0)
    modifies slots
    ensures Simulates(slots[..], t)
    ensures Filled(t, next, inFlight, submitted) == Fill(p, Filled(t0, next0, inFlight0, 0), 0)
  {
    next, inFlight, submitted, t := next0, inFlight0, 0, t0;
    var i := 0;
    while i < slots.Length
      invariant 0 <= i <= slots.Length && Simulates(slots[..], t)
      invariant Fill(p, Filled(t, next, inFlight, submitted), i) == Fill(p, Filled(t0, next0, inFlight0, 0), 0)
    {
      if next >= p.length || inFlight >= p.depth || submitted >= p.batch {
        break;
      }
      assert slots[..][i] == slots[i];
      if slots[i].inFlight || slots[i].remaining != 0 {
        i := i + 1;
        continue;
      }
      var request := if p.size <= p.length - next then p.size else p.length - next;
      slots[i] := StubSlot((p.offset + next) % UINT64_LIMIT, request, request, true);
      t := t[i := Fresh(p.offset, next, request)];
      next, inFlight, submitted := next + request, inFlight + 1, submitted + 1;
      i := i + 1;
    }
  }

  method FindLastStub(slots: array<StubSlot>, ghost t: Table) returns (k: int)
    requires Simulates(slots[..], t)
    ensures k == Last(t)
  {
    k := -1;
    for i := 0 to slots.Length
      invariant k == Last(t[..i])
    {
      assert t[..i + 1][..i] == t[..i];
      assert slots[..][i] == slots[i];
      if slots[i].inFlight {
        k := i;
      }
    }
    assert t[..slots.Length] == t;
  }

  lemma WrapTwice(a: nat, b: nat)
    ensures (a % UINT64_LIMIT + b) % UINT64_LIMIT == (a + b) % UINT64_LIMIT
  {
  }

  method CompleteStub(slots: array<StubSlot>, p: Params, k: nat, bytes: nat, inFlight0: nat, stats: FileIoStats,
                      ghost t0: Table, ghost trace: seq<Call>, ghost next: nat)
    returns (status: Status, inFlight: nat, ghost t: Table)
    requires Simulates(slots[..], t0)
    requires k < slots.Length && t0[k].inFlight && t0[k].remaining == t0[k].submittedLength > 0 && inFlight0 > 0
    modifies slots, stats
    ensures status == Verdict(p.op, bytes, t0[k].submittedLength)
    ensures !status.Success? ==> stats.counts == old(stats.counts)
    ensures status.Success? ==>
      && bytes <= t0[k].remaining && Simulates(slots[..], t)
      && Loop(t, next, inFlight, stats.counts, trace)
         == Complete(Loop(t0, next, inFlight0, old(stats.counts), trace), k, bytes)
  {
    t, inFlight := t0, inFlight0;
    assert slots[..][k] == slots[k];
    var slot := slots[k];
    if bytes == 0 {
      var message := if p.op.Read? then "unexpected EOF while reading file" else "io_uring write returned zero bytes";
      return RuntimeError(message), inFlight, t;
    }
    if bytes > slot.submittedLength {
      return RuntimeError("io_uring completion exceeded submitted length"), inFlight, t;
    }
    stats.counts := stats.counts.Completion(bytes);
    if bytes < slot.submittedLength {
      stats.counts := stats.counts.PartialCompletion();
    }
    WrapTwice(t0[k].offset, bytes);
    slot := slot.(offset := (slot.offset + bytes) % UINT64_LIMIT, remaining := slot.remaining - bytes);
    inFlight := inFlight - 1;
    if slot.remaining > 0 {
      slots[k] := slot.(submittedLength := slot.remaining, inFlight := true);
      inFlight := inFlight + 1;
      stats.counts := stats.counts.Submit(1);
      t := t0[k := Advanced(t0[k], bytes)];
    } else {
      slots[k] := STUB_EMPTY;
      t := t0[k := EMPTY];
    }
    return Success, inFlight, t;
  }

  /** The replies as this build takes them. */
  function AsGiven(replies: seq<Reply>): (cs: seq<Completion>)
    ensures |cs| == |replies|
    ensures forall i :: 0 <= i < |cs| ==> cs[i] == Completion(replies[i].status, replies[i].bytes)
  {
    seq(|replies|, i requires 0 <= i < |replies| => Completion(replies[i].status, replies[i].bytes))
  }

  /** No offset check and no conversion of the count. */
  method StubLoop(op: Operation, offset: uint64, length: uint64, queueDepth: uint64, batchSize: uint64,
                  maxBytes: uint64, replies: seq<Reply>, stats: FileIoStats)
    returns (status: Status, trace: seq<Call>)
    modifies stats
    ensures length == 0 ==> status.Success? && trace == [] && stats.counts == old(stats.counts)
    ensures length > 0 ==>
      var p := ParamsOf(op, offset, length, queueDepth, batchSize, maxBytes);
      Outcome(status, stats.counts, trace) == Run(p, Start(p, old(stats.counts)), AsGiven(replies))
  {
    trace := [];
    if length == 0 {
      return Success, trace;
    }
    var requested := if queueDepth == 0 then 1 else queueDepth;
    var depth := if requested <= 256 then requested else 256;
    var wanted := if batchSize == 0 then depth else batchSize;
    var batch := if wanted <= depth then wanted else depth;
    var size := if maxBytes >= 1 then maxBytes else 1;
    assert Params(op, offset, length, depth, batch, size)
        == ParamsOf(op, offset, length, queueDepth, batchSize, maxBytes);
    status, trace := DriveStub(Params(op, offset, length, depth, batch, size), replies, stats);
  }

  method DriveStub(p: Params, replies: seq<Reply>, stats: FileIoStats) returns (status: Status, trace: seq<Call>)
    requires Good(p)
    modifies stats
    ensures Outcome(status, stats.counts, trace) == Run(p, Start(p, old(stats.counts)), AsGiven(replies))
  {
    hide Run, LoopInv, Fill, Last, Complete, Verdict, Retries, LOST_SLOT;
    trace := [];
    ghost var c0, cs := stats.counts, AsGiven(replies);
    var slots := new StubSlot[p.depth](_ => STUB_EMPTY);
    var next: nat, inFlight: nat, used: nat := 0, 0, 0;
    ghost var t, done: set<nat>, created: nat := Start(p, c0).t, {}, 0;
    StartKeeps(p, c0);
    assert cs[0..] == cs;
    while next < p.length || inFlight > 0
      invariant used <= |replies| && Simulates(slots[..], t)
      invariant LoopInv(p, Loop(t, next, inFlight, stats.counts, trace), c0, done, created)
      invariant Run(p, Loop(t, next, inFlight, stats.counts, trace), cs[used..]) == Run(p, Start(p, c0), cs)
      decreases |replies| - used
    {
      ghost var s := Loop(t, next, inFlight, stats.counts, trace);
      created := IssueKeeps(p, s, c0, done, created);
      var submitted;
      next, inFlight, submitted, t := FillStub(slots, p, next, inFlight, t);
      if submitted > 0 {
        stats.counts := stats.counts.Submit(submitted);
      }
      ghost var filled := Issue(p, s);
      assert Loop(t, next, inFlight, stats.counts, trace) == filled;
      if inFlight == 0 {
        assert false;  // the idle pass
      }
      LastFlying(p, filled, c0, done, created);
      var k := FindLastStub(slots, t);
      if k < 0 {
        assert false;  // "io_uring test loop lost an in-flight slot"
      }
      RunStep(p, s, cs[used..]);
      if used == |replies| {
        return Pending, trace;
      }
      assert cs[used..][1..] == cs[used + 1..];
      done := ReactKeeps(p, filled, cs[used], c0, done, created);
      assert slots[..][k] == slots[k];
      stats.counts := stats.counts.Wait();
      trace := trace + [Call(slots[k].offset, slots[k].submittedLength)];
      var reply := replies[used];
      used := used + 1;
      RetryFacts(reply.status);
      if !reply.status.Success? {
        if Retries(reply.status) {
          stats.counts := stats.counts.Retry();
          stats.counts := stats.counts.Submit(1);
          continue;
        }
        return reply.status, trace;
      }
      status, inFlight, t := CompleteStub(slots, p, k, reply.bytes, inFlight, stats, t, trace, next);
      if !status.Success? {
        return;
      }
    }
    RunOver(p, Loop(t, next, inFlight, stats.counts, trace), cs[used..]);
    return Success, trace;
  }

  // ----- When the two builds agree -----

  /** Both builds take this reply to a request of `submitted` bytes alike. */
  predicate SameCount(reply: Reply, submitted: nat) {
    reply.status.Success? ==> reply.bytes < 0x8000_0000 || ToInt32(reply.bytes) > submitted
  }

  /** One reply: same verdict and accepted count, exactly below 2^31 or where the converted count is too long too. */
  lemma CountsAgree(op: Operation, bytes: uint64, submitted: nat)
    requires submitted > 0
    ensures var given, narrowed := Verdict(op, bytes, submitted), Verdict(op, ToInt32(bytes), submitted);
      (given == narrowed && (given.Success? ==> ToInt32(bytes) == bytes))
        <==> bytes < 0x8000_0000 || ToInt32(bytes) > submitted
  {
    NarrowedLess(bytes);
    assert |"unexpected EOF while reading file"| == 33 && |"io_uring write returned zero bytes"| == 34;
    assert |"io_uring completion exceeded submitted length"| == 45;
  }

  lemma NarrowedLess(bytes: uint64)
    ensures ToInt32(bytes) < 0x8000_0000
    ensures bytes < 0x8000_0000 ==> ToInt32(bytes) == bytes
    ensures Positive(ToInt32(bytes)) <= bytes
  {
  }

  function Gains(cs: seq<Completion>): nat {
    if cs == [] then 0 else Gain(cs[0]) + Gains(cs[1..])
  }

  /** A converted count is never larger than the given one. */
  lemma {:induction false} GainsLess(replies: seq<Reply>, n: nat)
    requires n <= |replies|
    ensures Gains(Narrowed(replies)[..n]) <= Gains(AsGiven(replies)[..n])
    decreases n
  {
    if n > 0 {
      NarrowedLess(replies[0].bytes);
      Tails(replies);
      GainsLess(replies[1..], n - 1);
      assert Narrowed(replies)[..n][1..] == Narrowed(replies)[1..][..n - 1];
      assert AsGiven(replies)[..n][1..] == AsGiven(replies)[1..][..n - 1];
    }
  }

  lemma Tails(replies: seq<Reply>)
    requires replies != []
    ensures Narrowed(replies)[1..] == Narrowed(replies[1..]) && AsGiven(replies)[1..] == AsGiven(replies[1..])
  {
  }

  /** Replies never carry the model's own marker. */
  ghost predicate NoPending(cs: seq<Completion>) {
    forall i :: 0 <= i < |cs| ==> !cs[i].status.Pending?
  }

  /** What a run has consumed and counted: one reply per call, and the bytes of all replies but a last, refused one. */
  ghost predicate Tally(s: Loop, cs: seq<Completion>, o: Outcome) {
    var n := |o.trace| - |s.trace|;
    && 0 <= n <= |cs| && s.trace <= o.trace
    && (if o.status.Success? || o.status.Pending?
        then o.counts.completionBytes == s.counts.completionBytes + Gains(cs[..n])
        else n > 0 && o.counts.completionBytes == s.counts.completionBytes + Gains(cs[..n - 1]))
  }

  lemma TallyMore(s: Loop, filled: Loop, next: Loop, cs: seq<Completion>, o: Outcome, call: Call)
    requires cs != [] && Tally(next, cs[1..], o) && filled.trace == s.trace && next.trace == s.trace + [call]
    requires filled.counts.completionBytes == s.counts.completionBytes
    requires next.counts.completionBytes == filled.counts.completionBytes + Gain(cs[0])
    ensures Tally(s, cs, o)
  {
    var n := |o.trace| - |s.trace|;
    assert cs[..n][1..] == cs[1..][..n - 1];
    if n > 1 {
      assert cs[..n - 1][1..] == cs[1..][..n - 2];
    }
  }

  lemma IssueBytes(p: Params, s: Loop)
    ensures Issue(p, s).trace == s.trace && Issue(p, s).counts.completionBytes == s.counts.completionBytes
  {
  }

  lemma {:induction false} RunTally(p: Params, s: Loop, cs: seq<Completion>, c0: Counters, done: set<nat>, created: nat)
    requires Good(p) && LoopInv(p, s, c0, done, created) && NoPending(cs)
    ensures Tally(s, cs, Run(p, s, cs))
    decreases |cs|
  {
    hide Run, LoopInv, Issue, Last, React;
    if Over(p, s) {
      RunOver(p, s, cs);
    } else {
      var created' := IssueKeeps(p, s, c0, done, created);
      var filled := Issue(p, s);
      IssueBytes(p, s);
      LastFlying(p, filled, c0, done, created');
      RunStep(p, s, cs);
      if cs != [] {
        var done' := ReactKeeps(p, filled, cs[0], c0, done, created');
        match React(p, filled, cs[0])
        case Stop(outcome) =>
        case Continue(next) =>
          RunTally(p, next, cs[1..], c0, done', created');
          TallyMore(s, filled, next, cs, Run(p, next, cs[1..]), CallOf(filled.t[Last(filled.t)]));
      }
    }
  }

  /** Every reply the run consumed is taken alike by both builds. */
  ghost predicate SameCounts(replies: seq<Reply>, trace: seq<Call>, used: nat) {
    |trace| - used <= |replies| && forall i :: used <= i < |trace| ==> SameCount(replies[i - used], trace[i].length)
  }

  lemma SameReaction(p: Params, s: Loop, reply: Reply)
    requires Last(s.t) >= 0 && s.t[Last(s.t)].submittedLength > 0
    requires SameCount(reply, s.t[Last(s.t)].submittedLength)
    ensures React(p, s, Completion(reply.status, reply.bytes))
         == React(p, s, Completion(reply.status, ToInt32(reply.bytes)))
  {
    hide Last, Verdict, Complete;
    CountsAgree(p.op, reply.bytes, s.t[Last(s.t)].submittedLength);
    SuccessFits(p.op, reply.bytes, s.t[Last(s.t)].submittedLength);
    SuccessFits(p.op, ToInt32(reply.bytes), s.t[Last(s.t)].submittedLength);
  }

  lemma SuccessFits(op: Operation, result: int, submitted: nat)
    ensures Verdict(op, result, submitted).Success? ==> result <= submitted
  {
  }

  /** Once the builds take a reply differently, no later replies bring their outcomes together again. */
  lemma Parted(p: Params, s: Loop, replies: seq<Reply>, c0: Counters, done: set<nat>, created: nat)
    requires Good(p) && LoopInv(p, s, c0, done, created) && s.inFlight > 0 && NoPending(AsGiven(replies))
    requires replies != [] && Last(s.t) >= 0 && !SameCount(replies[0], s.t[Last(s.t)].submittedLength)
    ensures Final(p, React(p, s, AsGiven(replies)[0]), AsGiven(replies)[1..])
         != Final(p, React(p, s, Narrowed(replies)[0]), Narrowed(replies)[1..])
  {
    hide Run, LoopInv, Last, Verdict, Complete, Gains;
    var reply, submitted := replies[0], s.t[Last(s.t)].submittedLength;
    var a, b := AsGiven(replies)[0], Narrowed(replies)[0];
    NarrowedLess(reply.bytes);
    LastFlying(p, s, c0, done, created);
    CountsAgree(p.op, reply.bytes, submitted);
    Tails(replies);
    var doneA := ReactKeeps(p, s, a, c0, done, created);
    var doneB := ReactKeeps(p, s, b, c0, done, created);
    var ra, rb := React(p, s, a), React(p, s, b);
    if ra.Continue? {
      RunTally(p, ra.next, AsGiven(replies[1..]), c0, doneA, created);
    }
    if rb.Continue? {
      RunTally(p, rb.next, Narrowed(replies[1..]), c0, doneB, created);
    }
    if ra.Continue? && rb.Continue? {
      var o := Run(p, ra.next, AsGiven(replies[1..]));
      var n := |o.trace| - |ra.next.trace|;
      GainsLess(replies[1..], n);
      if n > 0 {
        GainsLess(replies[1..], n - 1);
      }
    }
  }

  /** How a run ends from a reaction on. */
  function Final(p: Params, r: Reaction, rest: seq<Completion>): Outcome {
    match r
    case Stop(outcome) => outcome
    case Continue(next) => Run(p, next, rest)
  }

  /**
    The two builds agree on status, counters and calls exactly when every consumed reply is a failure, a
    count below 2^31, or a count that is still too long after the conversion to `int`.
   */
  lemma {:induction false} RunsAgreeExactly(p: Params, s: Loop, replies: seq<Reply>, c0: Counters, done: set<nat>,
                                            created: nat)
    requires Good(p) && LoopInv(p, s, c0, done, created) && NoPending(AsGiven(replies))
    ensures var given := Run(p, s, AsGiven(replies));
      |given.trace| >= |s.trace|
      && (given == Run(p, s, Narrowed(replies)) <==> SameCounts(replies, given.trace, |s.trace|))
    decreases |replies|
  {
    hide Run, LoopInv, Issue, Last, React;
    var given, narrowed := AsGiven(replies), Narrowed(replies);
    if Over(p, s) {
      RunOver(p, s, given);
      RunOver(p, s, narrowed);
    } else {
      var created' := IssueKeeps(p, s, c0, done, created);
      var filled := Issue(p, s);
      LastFlying(p, filled, c0, done, created');
      RunStep(p, s, given);
      RunStep(p, s, narrowed);
      if replies != [] {
        RunTally(p, s, given, c0, done, created);
        var call := CallOf(filled.t[Last(filled.t)]);
        var done' := ReactKeeps(p, filled, given[0], c0, done, created');
        Tails(replies);
        FirstCall(p, s, given, c0, done, created);
        if SameCount(replies[0], call.length) {
          SameReaction(p, filled, replies[0]);
          match React(p, filled, given[0])
          case Stop(outcome) =>
          case Continue(next) =>
            RunsAgreeExactly(p, next, replies[1..], c0, done', created');
            CountsTail(replies, Run(p, s, given).trace, |s.trace|);
        } else {
          Parted(p, filled, replies, c0, done, created');
        }
      }
    }
  }

  lemma CountsTail(replies: seq<Reply>, trace: seq<Call>, used: nat)
    requires replies != [] && used < |trace| && SameCount(replies[0], trace[used].length)
    ensures SameCounts(replies, trace, used) <==> SameCounts(replies[1..], trace, used + 1)
  {
    if SameCounts(replies[1..], trace, used + 1) {
      forall i | used <= i < |trace|
        ensures SameCount(replies[i - used], trace[i].length)
      {
        if i > used {
          assert replies[1..][i - used - 1] == replies[i - used];
        }
      }
    }
    if SameCounts(replies, trace, used) {
      forall i | used + 1 <= i < |trace|
        ensures SameCount(replies[1..][i - used - 1], trace[i].length)
      {
        assert replies[1..][i - used - 1] == replies[i - used];
      }
    }
  }

  lemma FirstCall(p: Params, s: Loop, cs: seq<Completion>, c0: Counters, done: set<nat>, created: nat)
    requires Good(p) && LoopInv(p, s, c0, done, created) && NoPending(cs) && cs != [] && !Over(p, s)
    ensures var filled, o := Issue(p, s), Run(p, s, cs);
      Last(filled.t) >= 0 && |s.trace| < |o.trace| && o.trace[|s.trace|] == CallOf(filled.t[Last(filled.t)])
  {
    hide Run, LoopInv, Issue, Last, React;
    var created' := IssueKeeps(p, s, c0, done, created);
    var filled := Issue(p, s);
    LastFlying(p, filled, c0, done, created');
    RunStep(p, s, cs);
    var done' := ReactKeeps(p, filled, cs[0], c0, done, created');
    match React(p, filled, cs[0])
    case Stop(outcome) =>
    case Continue(next) => RunTally(p, next, cs[1..], c0, done', created');
  }

  /** Same request, same replies: when the loops of the two builds make the same calls and end alike. */
  method LoopsAgree(op: Operation, offset: uint64, length: uint64, queueDepth: uint64, batchSize: uint64,
                    maxBytes: uint64, replies: seq<Reply>, a: FileIoStats, b: FileIoStats)
    returns (statusA: Status, traceA: seq<Call>, statusB: Status, traceB: seq<Call>)
    requires a != b && a.counts == b.counts && NoPending(AsGiven(replies))
    modifies a, b
    ensures statusA == statusB && traceA == traceB && a.counts == b.counts
       <==> length == 0 || (OffsetAccepted(offset, length) && SameCounts(replies, traceB, 0))
  {
    hide Run, LoopInv, SameCounts;
    ghost var counts := a.counts;
    ghost var p := ParamsOf(op, offset, length, queueDepth, batchSize, maxBytes);
    statusA, traceA := LiburingLoop(op, offset, length, queueDepth, batchSize, maxBytes, replies, a);
    statusB, traceB := StubLoop(op, offset, length, queueDepth, batchSize, maxBytes, replies, b);
    if length > 0 {
      StartKeeps(p, counts);
      RunsAgreeExactly(p, Start(p, counts), replies, counts, {}, 0);
      RunTally(p, Start(p, counts), AsGiven(replies), counts, {}, 0);
    }
  }

  /** One slot holding what is left of an eight-byte request. */
  function EightLeft(moved: nat, counts: Counters, trace: seq<Call>): Loop
    requires moved < 8
  {
    Loop([Slot(moved, moved, 8 - moved, 8 - moved, true)], 8, 1, counts, trace)
  }

  lemma EightIssued(p: Params, counts: Counters)
    requires p == Params(p.op, 0, 8, 1, 1, 8)
    ensures Issue(p, Start(p, counts)) == EightLeft(0, counts.Submit(1), [])
  {
    var f := Filled(Start(p, counts).t, 0, 0, 0);
    var g := Filled([Fresh(0, 0, 8)], 8, 1, 1);
    assert f.t[0 := Fresh(0, 0, 8)] == [Fresh(0, 0, 8)];
    assert Fill(p, f, 0) == Fill(p, g, 1) == g;
  }

  lemma EightFilled(p: Params, moved: nat, counts: Counters, trace: seq<Call>)
    requires p == Params(p.op, 0, 8, 1, 1, 8) && moved < 8
    ensures var s := EightLeft(moved, counts, trace);
      Issue(p, s) == s && Last(s.t) == 0 && !Over(p, s)
  {
    assert EightLeft(moved, counts, trace).t[..0] == [];
  }

  lemma EightVerdict(op: Operation, moved: nat, count: nat)
    requires moved < 8 && 0 < count
    ensures Verdict(op, count, 8 - moved)
         == if count > 8 - moved then RuntimeError("io_uring completion exceeded submitted length") else Success
  {
  }

  lemma EightReacts(p: Params, moved: nat, counts: Counters, trace: seq<Call>, count: int)
    requires p == Params(p.op, 0, 8, 1, 1, 8) && moved < 8 && 0 < count
    ensures var s := EightLeft(moved, counts, trace);
      && Issue(p, s) == s && Last(s.t) == 0 && !Over(p, s)
      && var r := React(p, s, Completion(Success, count));
         if count > 8 - moved
         then r.Stop? && r.outcome.status == RuntimeError("io_uring completion exceeded submitted length")
         else if count == 8 - moved then r.Continue? && Over(p, r.next)
         else r.Continue? && r.next == EightLeft(moved + count, r.next.counts, r.next.trace)
  {
    hide Issue, Last, CountCompletion, Verdict;
    EightFilled(p, moved, counts, trace);
    EightVerdict(p.op, moved, count);
    var s := EightLeft(moved, counts, trace);
    if count < 8 - moved {
      assert s.t[0 := Advanced(s.t[0], count)] == EightLeft(moved + count, counts, trace).t;
    }
  }

  lemma FiveThenThree(p: Params, counts: Counters)
    requires p == Params(p.op, 0, 8, 1, 1, 8)
    ensures Run(p, Start(p, counts), [Completion(Success, 5), Completion(Success, 3)]).status.Success?
  {
    hide Run, Issue, React, Last;
    var cs := [Completion(Success, 5), Completion(Success, 3)];
    EightIssued(p, counts);
    EightReacts(p, 0, counts.Submit(1), [], 5);
    RunStep(p, Start(p, counts), cs);
    var second := React(p, EightLeft(0, counts.Submit(1), []), cs[0]).next;
    EightReacts(p, 5, second.counts, second.trace, 3);
    RunStep(p, second, cs[1..]);
    RunOver(p, React(p, second, cs[1]).next, cs[1..][1..]);
  }

  lemma TooLong(p: Params, counts: Counters, cs: seq<Completion>)
    requires p == Params(p.op, 0, 8, 1, 1, 8) && cs != [] && cs[0].status.Success? && cs[0].count > 8
    ensures Run(p, Start(p, counts), cs).status == RuntimeError("io_uring completion exceeded submitted length")
  {
    hide Run, Issue, React, Last;
    EightIssued(p, counts);
    EightReacts(p, 0, counts.Submit(1), [], cs[0].count);
    RunStep(p, Start(p, counts), cs);
  }

  /**
    A run on which the builds part: eight bytes, and a callback that answers 2^32 + 5 and then 3.  One
    build takes the first count as 5 and succeeds; the other refuses it.
   */
  lemma LargeCountsDiffer(op: Operation, counts: Counters)
    ensures var p := ParamsOf(op, 0, 8, 1, 1, 8);
      var replies := [Reply(Success, 0x1_0000_0005), Reply(Success, 3)];
      && Run(p, Start(p, counts), Narrowed(replies)).status.Success?
      && Run(p, Start(p, counts), AsGiven(replies)).status
         == RuntimeError("io_uring completion exceeded submitted length")
  {
    hide Run;
    var p := ParamsOf(op, 0, 8, 1, 1, 8);
    var replies := [Reply(Success, 0x1_0000_0005), Reply(Success, 3)];
    assert Narrowed(replies) == [Completion(Success, 5), Completion(Success, 3)];
    FiveThenThree(p, counts);
    TooLong(p, counts, AsGiven(replies));
  }
}
