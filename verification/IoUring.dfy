/**
  The batched io_uring engine behind `ioUringReadAtAll` and `ioUringWriteAtAll`.

  The kernel is a `Ring`: it completes any request it holds, in any order, with an error, with zero, or
  with any count up to the requested length, and moves exactly that prefix of the bytes.  A run is
  observed for `budget` waits; a call that has not returned by then is `Pending`.
 */
module IoUring {
  import opened Common
  import opened FileModel
  import opened FileStats
  import opened Kernels
  import opened IoUringSlots

  class File {
    var content: Content

    constructor (content: Content)
      ensures this.content == content
    {
      this.content := content;
    }
  }

  // ----- What the completed indices have moved -----

  ghost predicate Wrote(f0: Content, f: Content, data: seq<byte>, base: nat, done: set<nat>) {
    && |f0| <= |f|
    && (|f| > |f0| ==> base < |f| <= base + |data|)
    && (forall x :: 0 <= x < |f| ==>
          f[x] == if base <= x < base + |data| && x - base in done then data[x - base] else ByteAt(f0, x))
    && (forall x: nat :: x in done && x < |data| ==> base + x < |f|)
  }

  ghost predicate Fetched(f: Content, m0: seq<byte>, m: seq<byte>, base: nat, done: set<nat>) {
    && |m| == |m0|
    && (forall x :: 0 <= x < |m| ==> m[x] == if x in done then ByteAt(f, base + x) else m0[x])
    && (forall x: nat :: x in done && x < |m| ==> base + x < |f|)
  }

  ghost predicate Moved(op: Operation, f0: Content, f: Content, m0: seq<byte>, m: seq<byte>, base: nat,
                        done: set<nat>) {
    if op.Write? then m == m0 && Wrote(f0, f, m0, base, done) else f == f0 && Fetched(f0, m0, m, base, done)
  }

  lemma WroteMore(f0: Content, f: Content, data: seq<byte>, base: nat, done: set<nat>, b: nat, k: nat)
    requires Wrote(f0, f, data, base, done) && 0 < k && b + k <= |data|
    ensures Wrote(f0, WriteAt(f, base + b, data[b..b + k]), data, base, done + Interval(b, b + k))
  {
    var g, done' := WriteAt(f, base + b, data[b..b + k]), done + Interval(b, b + k);
    forall x | 0 <= x < |g|
      ensures g[x] == if base <= x < base + |data| && x - base in done' then data[x - base] else ByteAt(f0, x)
    {
      if base + b <= x < base + b + k {
        assert g[x] == data[b..b + k][x - base - b];
      } else {
        assert g[x] == ByteAt(f, x);
      }
    }
  }

  lemma FetchedMore(f: Content, m0: seq<byte>, m: seq<byte>, m': seq<byte>, base: nat, done: set<nat>, b: nat, k: nat)
    requires Fetched(f, m0, m, base, done) && b + k <= |m| && base + b + k <= |f|
    requires m' == m[..b] + f[base + b..base + b + k] + m[b + k..]
    ensures Fetched(f, m0, m', base, done + Interval(b, b + k))
  {
  }

  lemma WroteAll(f0: Content, f: Content, data: seq<byte>, base: nat, done: set<nat>)
    requires Wrote(f0, f, data, base, done) && data != [] && forall x: nat :: x < |data| <==> x in done
    ensures f == WriteAt(f0, base, data)
  {
    assert |data| - 1 in done;
    assert |f| == Max(|f0|, base + |data|);
  }

  lemma WrotePartial(f0: Content, f: Content, data: seq<byte>, base: nat, done: set<nat>)
    requires Wrote(f0, f, data, base, done)
    ensures Partial(f0, f, base, data)
  {
  }

  // ----- The kernel -----

  datatype Request = Request(offset: nat, index: nat, length: nat)

  /** What the kernel may have done to file `f` and memory `m` when it reports `result` for a request. */
  ghost predicate Transferred(op: Operation, r: Request, result: int, f: Content, m: seq<byte>, f': Content,
                              m': seq<byte>) {
    && result <= r.length && r.index + r.length <= |m|
    && (result <= 0 ==> f' == f && m' == m)
    && (result > 0 && op.Write? ==> m' == m && f' == WriteAt(f, r.offset, m[r.index..r.index + result]))
    && (result > 0 && op.Read? ==>
          && f' == f && r.offset + result <= |f|
          && m' == m[..r.index] + f[r.offset..r.offset + result] + m[r.index + result..])
  }

  class Ring {
    const kernel: Kernel
    const entries: nat
    const operation: Operation
    const file: File
    const memory: array<byte>
    var queued: map<nat, Request>    // prepared, not yet submitted
    var inKernel: map<nat, Request>  // submitted, not yet completed
    var queuedCount: nat

    constructor (kernel: Kernel, entries: nat, operation: Operation, file: File, memory: array<byte>)
      ensures this.kernel == kernel
      ensures this.entries == entries && this.operation == operation && this.file == file && this.memory == memory
      ensures queued == map[] && inKernel == map[] && queuedCount == 0
    {
      this.kernel, this.entries, this.operation, this.file, this.memory := kernel, entries, operation, file, memory;
      queued, inKernel, queuedCount := map[], map[], 0;
    }

    /** Fails only when the submission queue is full. */
    method Prepare(userData: nat, request: Request) returns (ok: bool)
      modifies this`queued, this`queuedCount
      ensures ok <==> old(queuedCount) < entries
      ensures ok ==> queued == old(queued)[userData := request] && queuedCount == old(queuedCount) + 1
      ensures !ok ==> queued == old(queued) && queuedCount == old(queuedCount)
    {
      ok := queuedCount < entries;
      if ok {
        queued, queuedCount := queued[userData := request], queuedCount + 1;
      }
    }

    /** Takes everything prepared, or fails and takes nothing. */
    method Submit() returns (result: int)
      modifies this`queued, this`queuedCount, this`inKernel, kernel
      ensures kernel.log == old(kernel.log) + [Submitted(result)]
      ensures result >= 0 ==> inKernel == old(inKernel) + old(queued) && queued == map[] && queuedCount == 0
      ensures result < 0 ==> inKernel == old(inKernel) && queued == old(queued) && queuedCount == old(queuedCount)
    {
      result := *;
      kernel.log := kernel.log + [Submitted(result)];
      if result >= 0 {
        inKernel, queued, queuedCount := inKernel + queued, map[], 0;
      }
    }

    ghost predicate InMemory()
      reads this`inKernel
    {
      forall u :: u in inKernel ==> inKernel[u].index + inKernel[u].length <= memory.Length
    }

    /** Whether the wait itself succeeded. */
    method WaitResult() returns (result: int)
      modifies kernel
      ensures kernel.log == old(kernel.log) + [Waited(result)]
    {
      result := *;
      kernel.log := kernel.log + [Waited(result)];
    }

    /** The completion that a successful wait delivers. */
    method WaitCqe() returns (userData: nat, result: int)
      requires inKernel != map[] && InMemory()
      modifies this`inKernel, file, memory, kernel
      ensures kernel.log == old(kernel.log) + [Completed(operation, result)]
      ensures userData in old(inKernel) && inKernel == old(inKernel) - {userData}
      ensures Transferred(operation, old(inKernel[userData]), result, old(file.content), old(memory[..]), file.content,
                          memory[..])
    {
      userData, result := Complete();
      kernel.log := kernel.log + [Completed(operation, result)];
    }

    /** Completes some request of the kernel's choice, whether anyone waits for it or not. */
    method Complete() returns (userData: nat, result: int)
      requires inKernel != map[] && InMemory()
      modifies this`inKernel, file, memory
      ensures userData in old(inKernel) && inKernel == old(inKernel) - {userData}
      ensures Transferred(operation, old(inKernel[userData]), result, old(file.content), old(memory[..]), file.content,
                          memory[..])
    {
      userData :| userData in inKernel;
      var r := inKernel[userData];
      inKernel := inKernel - {userData};
      result := *;
      if result > r.length {
        result := r.length;
      }
      if operation.Read? && result > 0 && r.offset + result > |file.content| {
        result := if r.offset >= |file.content| then 0 else |file.content| - r.offset;
      }
      if result > 0 {
        if operation.Write? {
          file.content := WriteAt(file.content, r.offset, memory[r.index..r.index + result]);
        } else {
          forall i | 0 <= i < result {
            memory[r.index + i] := file.content[r.offset + i];
          }
        }
      }
    }
  }

  // ----- The table and the kernel see the same requests -----

  function RequestOf(s: Slot, base: nat): Request
    requires s.offset >= base
  {
    Request(s.offset, s.offset - base, s.submittedLength)
  }

  ghost predicate Matches(t: Table, base: nat, next: nat, requests: map<nat, Request>) {
    && TableOk(t, base, next)
    && (forall u :: u in requests <==> 1 <= u <= |t| && t[u - 1].inFlight)
    && (forall u :: u in requests ==> SlotOk(t[u - 1], base, next) && requests[u] == RequestOf(t[u - 1], base))
  }

  /** Every request moves bytes between its own part of the buffer and the same part of the file range. */
  ghost predicate Aimed(requests: map<nat, Request>, base: nat, length: nat) {
    forall u :: u in requests ==>
      requests[u].offset == base + requests[u].index && requests[u].index + requests[u].length <= length
  }

  lemma MatchesIssued(t: Table, base: nat, next: nat, requests: map<nat, Request>, i: nat, size: nat)
    requires Matches(t, base, next, requests) && i < |t| && !t[i].inFlight && size > 0
    ensures var s := Fresh(base, next, size);
      Matches(t[i := s], base, next + size, requests[i + 1 := RequestOf(s, base)])
  {
    IssueKeepsTable(t, i, base, next, size);
  }

  /** Completing slot `i` by `k` bytes and preparing the rest again, if any. */
  lemma MatchesAdvanced(t: Table, base: nat, next: nat, requests: map<nat, Request>, i: nat, k: nat)
    requires Matches(t, base, next, requests) && i < |t| && t[i].inFlight && k <= t[i].remaining
    ensures var s := Advanced(t[i], k);
      && (s == EMPTY ==> Matches(t[i := s], base, next, requests - {i + 1}))
      && (s != EMPTY ==>
            && s.offset >= base
            && Matches(t[i := s], base, next, (requests - {i + 1})[i + 1 := RequestOf(s, base)]))
  {
    AdvanceKeepsTable(t, i, k, base, next);
    assert SlotOk(t[i], base, next);
  }

  // ----- Counters -----

  /** How the counters have moved since `c0`, at the head of the loop. */
  ghost predicate Accounting(c0: Counters, c: Counters, t: Table, next: nat, created: nat, waitRetries: nat) {
    && c.completionBytes - c0.completionBytes + Remaining(t) == next
    && (c.completions - c0.completions) - (c.partials - c0.partials) == created - Count(t)
    && c.sqes - c0.sqes == created + (c.partials - c0.partials) + (c.retries - c0.retries) - waitRetries
    && c.waits - c0.waits == (c.completions - c0.completions) + (c.retries - c0.retries)
    && 0 <= c.completions - c0.completions <= c.completionBytes - c0.completionBytes
    && waitRetries <= c.retries - c0.retries
    && (if created > 0 then 1 else 0) + (c.partials - c0.partials) + (c.retries - c0.retries) - waitRetries
       <= c.submits - c0.submits
    && c.submits - c0.submits <= c.sqes - c0.sqes
    && SameOutside(c0, c)
  }

  /** Submission entries that were neither the rest of a short completion nor a retry. */
  function FreshEntries(c0: Counters, c: Counters, waitRetries: nat): int {
    (c.sqes - c0.sqes) - (c.partials - c0.partials) - (c.retries - c0.retries - waitRetries)
  }

  lemma FreshAtMostDepth(c0: Counters, c: Counters, t: Table, base: nat, next: nat, length: nat, depth: nat,
                         requests: map<nat, Request>, done: set<nat>, created: nat, waitRetries: nat)
    requires depth > 0 && length > 0 && Accounting(c0, c, t, next, created, waitRetries)
    requires TableInv(t, base, next, length, CeilDiv(length, depth), requests, done, created)
    ensures FreshEntries(c0, c, waitRetries) == created <= depth
  {
    AtMostDepth(created, next, length, depth);
  }

  /** Only the io_uring counters moved. */
  ghost predicate SameOutside(c0: Counters, c: Counters) {
    c == c0.(submits := c.submits, sqes := c.sqes, waits := c.waits, completions := c.completions,
             completionBytes := c.completionBytes, partials := c.partials, retries := c.retries)
  }

  // ----- The loop's phases -----

  /** Everything the loop keeps about the table, apart from the counters. */
  ghost predicate TableInv(t: Table, base: nat, next: nat, length: nat, size: nat, requests: map<nat, Request>,
                           done: set<nat>, created: nat) {
    Matches(t, base, next, requests) && Partition(t, next, done) && Created(created, next, length, size)
  }

  lemma IssueKeepsInv(t: Table, base: nat, next: nat, length: nat, size: nat, requests: map<nat, Request>,
                      done: set<nat>, created: nat, i: nat, take: nat)
    requires TableInv(t, base, next, length, size, requests, done, created)
    requires i < |t| && !t[i].inFlight && size > 0 && next < length
    requires take == if size <= length - next then size else length - next
    ensures var s := Fresh(base, next, take);
      && TableInv(t[i := s], base, next + take, length, size, requests[i + 1 := RequestOf(s, base)], done, created + 1)
      && Count(t[i := s]) == Count(t) + 1 && Remaining(t[i := s]) == Remaining(t) + take
  {
    hide Partition, Created, Count, Remaining;
    assert SlotOk(t[i], base, next);
    MatchesIssued(t, base, next, requests, i, take);
    IssueKeepsPartition(t, i, base, next, take, done);
    Updated(t, i, Fresh(base, next, take));
    CreatedOneMore(created, next, length, size, take);
  }

  lemma SlotFree(t: Table, base: nat, next: nat, length: nat, size: nat, requests: map<nat, Request>,
                 done: set<nat>, created: nat, i: nat)
    requires TableInv(t, base, next, length, size, requests, done, created) && i < |t|
    ensures t[i].inFlight <==> t[i].remaining != 0
    ensures t[i].inFlight ==> Count(t) > 0
    ensures next <= length
  {
    assert SlotOk(t[i], base, next);
    if Count(t) == 0 {
      CountZero(t);
    }
  }

  /** Fresh requests go to free slots until the data, the slots or the batch run out. */
  method FillSlots(slots: array<Slot>, ring: Ring, base: nat, length: nat, size: nat, batch: nat, next0: nat,
                   inFlight0: nat, ghost done: set<nat>, ghost created0: nat)
    returns (prepared: bool, next: nat, inFlight: nat, submitted: nat, ghost created: nat)
    requires size > 0 && 1 <= batch <= slots.Length <= ring.entries
    requires ring.queued == map[] && ring.queuedCount == 0
    requires TableInv(slots[..], base, next0, length, size, ring.inKernel, done, created0)
    requires inFlight0 == Count(slots[..])
    modifies slots, ring`queued, ring`queuedCount
    ensures prepared  // the submission queue never overflows
    ensures submitted <= batch && inFlight <= slots.Length
    ensures TableInv(slots[..], base, next, length, size, ring.inKernel + ring.queued, done, created)
    ensures inFlight == Count(slots[..])
    ensures Remaining(slots[..]) - old(Remaining(slots[..])) == next - next0
    ensures created - created0 == submitted == inFlight - inFlight0
    ensures next0 < length ==> inFlight > 0
    ensures next == length || inFlight == slots.Length || submitted == batch  // as many as possible
    ensures submitted == 0 ==> ring.queued == map[] && next == next0 && ring.queuedCount == 0
  {
    hide TableInv, Count, Remaining, Fresh;
    next, inFlight, submitted, created, prepared := next0, inFlight0, 0, created0, true;
    assert ring.inKernel + ring.queued == ring.inKernel;
    var slotIndex := 0;
    while slotIndex < slots.Length
      invariant 0 <= slotIndex <= slots.Length
      invariant TableInv(slots[..], base, next, length, size, ring.inKernel + ring.queued, done, created)
      invariant inFlight == Count(slots[..])
      invariant Remaining(slots[..]) - old(Remaining(slots[..])) == next - next0
      invariant created - created0 == submitted == inFlight - inFlight0 == ring.queuedCount
      invariant 0 <= submitted <= batch
      invariant slotIndex > 0 && next0 < length ==> inFlight > 0
      invariant forall j :: 0 <= j < slotIndex ==> slots[j].inFlight
      invariant submitted == 0 ==> ring.queued == map[] && next == next0
    {
      if next >= length || inFlight >= slots.Length || submitted >= batch {
        break;
      }
      SlotFree(slots[..], base, next, length, size, ring.inKernel + ring.queued, done, created, slotIndex);
      if slots[slotIndex].inFlight || slots[slotIndex].remaining != 0 {
        slotIndex := slotIndex + 1;
        continue;
      }
      next, inFlight, created := IssueSlot(slots, ring, base, length, size, next, inFlight, slotIndex, done, created);
      submitted := submitted + 1;
      slotIndex := slotIndex + 1;
    }
    NextAtMost(slots[..], base, next, length, size, ring.inKernel + ring.queued, done, created);
    if slotIndex == slots.Length {
      AllCounted(slots[..]);
    }
  }

  lemma {:induction false} AllCounted(t: Table)
    requires forall i :: 0 <= i < |t| ==> t[i].inFlight
    ensures Count(t) == |t|
    decreases |t|
  {
    if t != [] {
      AllCounted(t[1..]);
    }
  }

  method IssueSlot(slots: array<Slot>, ring: Ring, base: nat, length: nat, size: nat, next0: nat, inFlight0: nat,
                   i: nat, ghost done: set<nat>, ghost created0: nat)
    returns (next: nat, inFlight: nat, ghost created: nat)
    requires TableInv(slots[..], base, next0, length, size, ring.inKernel + ring.queued, done, created0)
    requires inFlight0 == Count(slots[..]) && size > 0 && next0 < length && ring.queuedCount < ring.entries
    requires i < slots.Length && !slots[i].inFlight
    modifies slots, ring`queued, ring`queuedCount
    ensures TableInv(slots[..], base, next, length, size, ring.inKernel + ring.queued, done, created)
    ensures inFlight == Count(slots[..]) == inFlight0 + 1 && created == created0 + 1
    ensures ring.queuedCount == old(ring.queuedCount) + 1
    ensures Remaining(slots[..]) - old(Remaining(slots[..])) == next - next0
    ensures slots[i].inFlight && forall j :: 0 <= j < slots.Length && j != i ==> slots[j] == old(slots[j])
  {
    hide TableInv, Count, Remaining;
    var take := if size <= length - next0 then size else length - next0;
    ghost var t, q := slots[..], ring.queued;
    IssueKeepsInv(t, base, next0, length, size, ring.inKernel + q, done, created0, i, take);
    var s := Fresh(base, next0, take);
    slots[i] := s;
    assert slots[..] == t[i := s];
    var ok := ring.Prepare(i + 1, Request(s.offset, s.offset - base, s.submittedLength));
    assert ring.inKernel + ring.queued == (ring.inKernel + q)[i + 1 := RequestOf(s, base)];
    next, inFlight, created := next0 + take, inFlight0 + 1, created0 + 1;
  }

  lemma KernelFits(t: Table, base: nat, next: nat, length: nat, size: nat, requests: map<nat, Request>, done: set<nat>,
                   created: nat)
    requires TableInv(t, base, next, length, size, requests, done, created)
    ensures forall u :: u in requests ==> requests[u].index + requests[u].length <= length
    ensures requests == map[] ==> Count(t) == 0
    ensures forall u :: u in requests ==>
      1 <= u <= |t| && t[u - 1].inFlight && t[u - 1].remaining == t[u - 1].submittedLength
    ensures forall u :: u in requests ==>
      requests[u] == Request(t[u - 1].offset, t[u - 1].baseIndex, t[u - 1].remaining)
    ensures forall u :: u in requests ==> t[u - 1].offset == base + t[u - 1].baseIndex
  {
    if requests == map[] {
      forall i | 0 <= i < |t|
        ensures !t[i].inFlight
      {
        assert i + 1 !in requests;
      }
      NoneCounted(t);
    }
  }

  lemma KernelAimed(t: Table, base: nat, next: nat, length: nat, size: nat, requests: map<nat, Request>, done: set<nat>,
                    created: nat)
    requires TableInv(t, base, next, length, size, requests, done, created)
    ensures Aimed(requests, base, length) && forall u :: Aimed(requests - {u}, base, length)
    ensures Count(t) == 0 ==> requests == map[]
  {
    KernelFits(t, base, next, length, size, requests, done, created);
    if Count(t) == 0 {
      CountZero(t);
      assert forall u :: u !in requests;
    }
  }

  lemma {:induction false} NoneCounted(t: Table)
    requires forall i :: 0 <= i < |t| ==> !t[i].inFlight
    ensures Count(t) == 0
    decreases |t|
  {
    if t != [] {
      NoneCounted(t[1..]);
    }
  }

  lemma AdvanceKeepsInv(t: Table, base: nat, next: nat, length: nat, size: nat, requests: map<nat, Request>,
                        done: set<nat>, created: nat, i: nat, k: nat)
    requires TableInv(t, base, next, length, size, requests, done, created)
    requires i < |t| && t[i].inFlight && k <= t[i].remaining
    ensures var s := Advanced(t[i], k);
      var more := done + Interval(t[i].baseIndex, t[i].baseIndex + k);
      && done !! Interval(t[i].baseIndex, t[i].baseIndex + k)
      && (s == EMPTY ==> TableInv(t[i := s], base, next, length, size, requests - {i + 1}, more, created))
      && (s.offset >= base || s == EMPTY)
      && (s != EMPTY ==>
            TableInv(t[i := s], base, next, length, size, (requests - {i + 1})[i + 1 := RequestOf(s, base)], more,
                     created))
      && Count(t[i := s]) == Count(t) - (if k == t[i].remaining then 1 else 0)
      && Remaining(t[i := s]) == Remaining(t) - k
  {
    hide Partition, Created, Count, Remaining;
    assert SlotOk(t[i], base, next);
    MatchesAdvanced(t, base, next, requests, i, k);
    AdvanceKeepsPartition(t, i, k, base, next, done);
    Updated(t, i, Advanced(t[i], k));
  }

  /** How the counters move when slot `s` reports `result` and the rest of it, if any, is submitted again. */
  function CountCompletion(c: Counters, s: Slot, result: int): Counters {
    if result < 0 then c.Retry()
    else if result < s.submittedLength then c.Completion(result).PartialCompletion()
    else c.Completion(result)
  }

  lemma CountedSameOutside(c: Counters, s: Slot, result: int)
    ensures SameOutside(c, CountCompletion(c, s, result)) && SameOutside(c, CountCompletion(c, s, result).Submit(1))
    ensures FreshEntries(c, CountCompletion(c, s, result), 0) <= 0
    ensures result < s.submittedLength ==> FreshEntries(c, CountCompletion(c, s, result).Submit(1), 0) <= 0
  {
  }

  /** The verdict on a completion count. */
  function Judge(op: Operation, bytes: nat, submitted: nat): Status {
    if bytes == 0 then
      RuntimeError(if op.Read? then "unexpected EOF while reading file" else "io_uring write returned zero bytes")
    else if bytes > submitted then RuntimeError("io_uring completion exceeded submitted length")
    else Success
  }

  /** The same for a raw result: a negative one is an error number, and some of those ask for a retry. */
  function Verdict(op: Operation, result: int, submitted: nat): Status {
    if result >= 0 then Judge(op, result, submitted)
    else if IsRetryError(-result) then Success
    else SystemError(if op.Read? then "io_uring read" else "io_uring write", -result)
  }

  method HandleCompletionResult(operation: Operation, result: int, slots: array<Slot>, i: nat, stats: FileIoStats)
    returns (status: Status)
    requires i < slots.Length && slots[i].remaining == slots[i].submittedLength > 0
    modifies slots, stats
    ensures forall j :: 0 <= j < slots.Length && j != i ==> slots[j] == old(slots[j])
    ensures status.Success? <==> (result < 0 && IsRetryError(-result)) || 0 < result <= old(slots[i].submittedLength)
    ensures !status.Pending? && status == Verdict(operation, result, old(slots[i].submittedLength))
    ensures status.Success? ==> stats.counts == CountCompletion(old(stats.counts), old(slots[i]), result)
    ensures !status.Success? ==> stats.counts == old(stats.counts)
    ensures status.Success? ==> var k := if result > 0 then result else 0;
      slots[i] == old(slots[i]).(offset := old(slots[i].offset) + k, baseIndex := old(slots[i].baseIndex) + k,
                                 remaining := old(slots[i].remaining) - k, inFlight := false)
  {
    var slot := slots[i].(inFlight := false);
    slots[i] := slot;
    if result < 0 {
      if IsRetryError(-result) {
        stats.counts := stats.counts.Retry();
        return Success;
      }
      return SystemError(if operation.Read? then "io_uring read" else "io_uring write", -result);
    }
    if result == 0 {
      return RuntimeError(if operation.Read? then "unexpected EOF while reading file"
                          else "io_uring write returned zero bytes");
    }
    if result > slot.submittedLength {
      return RuntimeError("io_uring completion exceeded submitted length");
    }
    stats.counts := stats.counts.Completion(result);
    if result < slot.submittedLength {
      stats.counts := stats.counts.PartialCompletion();
    }
    slots[i] := slot.(offset := slot.offset + result, baseIndex := slot.baseIndex + result,
                      remaining := slot.remaining - result);
    return Success;
  }

  /** The verdict on a completion and its counters are those of its answer. */
  lemma VerdictTold(op: Operation, result: int, s: Slot, c: Counters, log: seq<Answer>)
    requires result <= s.submittedLength
    ensures var verdict := Verdict(op, result, s.submittedLength);
      var counted := if verdict.Success? then CountCompletion(c, s, result) else c;
      Told(verdict, c, counted, log, log + [Completed(op, result)])
  {
    var verdict := Verdict(op, result, s.submittedLength);
    hide Told;
    ToldOne(verdict, c, if verdict.Success? then CountCompletion(c, s, result) else c, log, Completed(op, result));
  }

  lemma SubmitTold(status: Status, c0: Counters, c: Counters, log: seq<Answer>, result: int, entries: nat)
    requires status == if result < 0 then SystemError("io_uring_submit", -result) else Success
    requires c == if result < 0 then c0 else c0.Submit(entries)
    ensures Told(status, c0, c, log, log + [Submitted(result)])
  {
    hide Told;
    ToldOne(status, c0, c, log, Submitted(result));
  }

  lemma WaitTold(status: Status, c0: Counters, c: Counters, log: seq<Answer>, result: int)
    requires result >= 0 ==> status.Success? && c == c0.Wait()
    requires result < 0 && IsRetryError(-result) ==> status.Success? && c == c0.Wait().Retry()
    requires result < 0 && !IsRetryError(-result) ==>
      status == SystemError("io_uring_wait_cqe", -result) && c == c0.Wait()
    ensures Told(status, c0, c, log, log + [Waited(result)])
  {
    hide Told;
    ToldOne(status, c0, c, log, Waited(result));
  }

  /** The tail of an iteration: record the completion of slot `i`, then free the slot or submit its rest. */
  method Accept(slots: array<Slot>, ring: Ring, base: nat, next: nat, length: nat, size: nat, i: nat, result: int,
                inFlight0: nat, stats: FileIoStats, ghost requests: map<nat, Request>, ghost done: set<nat>,
                ghost created: nat, ghost before: seq<Answer>, ghost c0: Counters)
    returns (status: Status, inFlight: nat)
    requires ring.kernel.log == before + [Completed(ring.operation, result)] && stats.counts == c0
    requires i < slots.Length && slots[i].inFlight && result <= slots[i].remaining == slots[i].submittedLength
    requires TableInv(slots[..], base, next, length, size, requests, done, created)
    requires inFlight0 == Count(slots[..]) > 0
    requires ring.inKernel == requests - {i + 1} && ring.queued == map[] && ring.queuedCount == 0 && ring.entries > 0
    requires slots[i].remaining > 0
    modifies slots, ring, stats, ring.kernel
    ensures Told(status, c0, stats.counts, before, ring.kernel.log)
    ensures !status.Pending? && SameOutside(old(stats.counts), stats.counts)
    ensures status.Success? ==> ring.queued == map[] && ring.queuedCount == 0
    ensures !status.Success? ==> ring.inKernel == requests - {i + 1}
    ensures FreshEntries(old(stats.counts), stats.counts, 0) <= 0
    ensures var k := if result > 0 then result else 0;
      status.Success? ==>
        && inFlight == Count(slots[..]) == inFlight0 - (if k == old(slots[i].remaining) then 1 else 0)
        && Remaining(slots[..]) == old(Remaining(slots[..])) - k
        && TableInv(slots[..], base, next, length, size, ring.inKernel,
                    done + Interval(old(slots[i].baseIndex), old(slots[i].baseIndex) + k), created)
        && stats.counts == (var c := CountCompletion(old(stats.counts), old(slots[i]), result);
                            if k == old(slots[i].remaining) then c else c.Submit(1))
    ensures status.Success? ==> result > 0 || (result < 0 && IsRetryError(-result))
  {
    hide TableInv, Count, Remaining, CountCompletion, Told, Verdict;
    ghost var t := slots[..];
    ghost var k := if result > 0 then result else 0;
    CountedSameOutside(stats.counts, slots[i], result);
    AdvanceKeepsInv(t, base, next, length, size, requests, done, created, i, k);
    assert t[i] == slots[i];
    inFlight := inFlight0;
    VerdictTold(ring.operation, result, slots[i], c0, before);
    status := HandleCompletionResult(ring.operation, result, slots, i, stats);
    if !status.Success? {
      return;
    }
    ghost var c1, log1 := stats.counts, ring.kernel.log;
    inFlight := inFlight - 1;
    if slots[i].remaining > 0 {
      slots[i] := slots[i].(submittedLength := slots[i].remaining, inFlight := true);
      var s := slots[i];
      assert s == Advanced(t[i], k);
      assert slots[..] == t[i := s];
      var ok := ring.Prepare(i + 1, Request(s.offset, s.offset - base, s.submittedLength));
      assert ok;
      var submitResult := ring.Submit();
      if submitResult < 0 {
        status := SystemError("io_uring_submit", -submitResult);
        SubmitTold(status, c1, c1, log1, submitResult, 1);
        ToldThen(status, c0, c1, c1, before, log1, ring.kernel.log);
        return;
      }
      stats.counts := stats.counts.Submit(1);
      SubmitTold(Success, c1, stats.counts, log1, submitResult, 1);
      ToldThen(Success, c0, c1, stats.counts, before, log1, ring.kernel.log);
      inFlight := inFlight + 1;
      assert ring.inKernel == (requests - {i + 1})[i + 1 := RequestOf(s, base)];
    } else {
      slots[i] := EMPTY;
      assert slots[..] == t[i := EMPTY];
    }
  }

  // ----- The whole call -----

  lemma AccountingFilled(c0: Counters, c: Counters, t: Table, next: nat, created: nat, waitRetries: nat,
                         t': Table, next': nat, created': nat, submitted: nat)
    requires Accounting(c0, c, t, next, created, waitRetries)
    requires Remaining(t') - Remaining(t) == next' - next && created' - created == submitted == Count(t') - Count(t)
    ensures Accounting(c0, if submitted > 0 then c.Submit(submitted) else c, t', next', created', waitRetries)
  {
  }

  lemma AccountingCompleted(c0: Counters, c: Counters, t: Table, next: nat, created: nat, waitRetries: nat, s: Slot,
                            result: int, t': Table)
    requires Accounting(c0, c, t, next, created, waitRetries) && result <= s.remaining == s.submittedLength
    requires result != 0 && s.remaining > 0
    requires var k := if result > 0 then result else 0;
      Remaining(t') == Remaining(t) - k && Count(t') == Count(t) - (if k == s.remaining then 1 else 0)
    ensures var counted := CountCompletion(c.Wait(), s, result);
      Accounting(c0, if result == s.remaining then counted else counted.Submit(1), t', next, created, waitRetries)
  {
  }

  lemma AccountingInterrupted(c0: Counters, c: Counters, t: Table, next: nat, created: nat, waitRetries: nat)
    requires Accounting(c0, c, t, next, created, waitRetries)
    ensures Accounting(c0, c.Wait().Retry(), t, next, created, waitRetries + 1)
  {
  }

  /** Enough waits: every wait was a completion of at least one byte or a retry. */
  lemma WaitsBounded(c0: Counters, c: Counters, t: Table, next: nat, length: nat, created: nat, waitRetries: nat)
    requires Accounting(c0, c, t, next, created, waitRetries) && next <= length && (next < length || Remaining(t) > 0)
    ensures c.waits - c0.waits < length + (c.retries - c0.retries)
  {
  }

  lemma {:induction false} RemainingPositive(t: Table, base: nat, next: nat)
    requires TableOk(t, base, next) && Count(t) > 0
    ensures Remaining(t) > 0
    decreases |t|
  {
    assert SlotOk(t[0], base, next);
    if !t[0].inFlight {
      assert forall i :: 0 <= i < |t[1..]| ==> t[1..][i] == t[i + 1];
      RemainingPositive(t[1..], base, next);
    }
  }

  /** What a returned or still running call has done to the file and to memory. */
  ghost predicate Effect(op: Operation, status: Status, f0: Content, f: Content, m0: seq<byte>, m: seq<byte>,
                         offset: nat) {
    match op
    case Write => m == m0 && Partial(f0, f, offset, m0) && (status.Success? ==> f == WriteAt(f0, offset, m0))
    case Read =>
      && f == f0 && |m| == |m0|
      && (forall x :: 0 <= x < |m| ==> m[x] == m0[x] || (offset + x < |f| && m[x] == f[offset + x]))
      && (status.Success? && m0 != [] ==> offset + |m0| <= |f| && m == f[offset..offset + |m0|])
  }

  lemma EffectSoFar(op: Operation, status: Status, f0: Content, f: Content, m0: seq<byte>, m: seq<byte>, offset: nat,
                    done: set<nat>)
    requires Moved(op, f0, f, m0, m, offset, done) && m0 != []
    requires status.Success? ==> forall x: nat :: x < |m0| <==> x in done
    ensures Effect(op, status, f0, f, m0, m, offset)
  {
    if op.Write? {
      WrotePartial(f0, f, m0, offset, done);
      if status.Success? {
        WroteAll(f0, f, m0, offset, done);
      }
    } else if status.Success? {
      assert |m0| - 1 in done;
    }
  }

  /** A completion of request `r` adds the bytes it reports, and no others. */
  lemma MovedMore(op: Operation, f0: Content, f: Content, m0: seq<byte>, m: seq<byte>, base: nat, done: set<nat>,
                  f': Content, m': seq<byte>, r: Request, result: int)
    requires Moved(op, f0, f, m0, m, base, done)
    requires Transferred(op, r, result, f, m, f', m') && r.offset == base + r.index
    ensures Moved(op, f0, f', m0, m', base, done + Interval(r.index, r.index + (if result > 0 then result else 0)))
  {
    if result <= 0 {
      assert done + Interval(r.index, r.index) == done;
    } else if op.Write? {
      WroteMore(f0, f, m0, base, done, r.index, result);
    } else {
      FetchedMore(f0, m0, m, m', base, done, r.index, result);
    }
  }

  lemma StartMoved(op: Operation, f: Content, m: seq<byte>, base: nat)
    ensures Moved(op, f, f, m, m, base, {})
  {
  }

  lemma StartInv(t: Table, base: nat, length: nat, size: nat, c: Counters)
    requires forall i :: 0 <= i < |t| ==> t[i] == EMPTY
    ensures TableInv(t, base, 0, length, size, map[], {}, 0) && Count(t) == 0 && Accounting(c, c, t, 0, 0, 0)
  {
    EmptyTable(t);
  }

  lemma Finished(t: Table, base: nat, length: nat, size: nat, requests: map<nat, Request>, done: set<nat>, created: nat)
    requires TableInv(t, base, length, length, size, requests, done, created) && Count(t) == 0 && size > 0 && length > 0
    ensures (forall x: nat :: x < length <==> x in done) && created == CeilDiv(length, size) > 0 && Remaining(t) == 0
  {
    AllDone(t, length, done);
    CreatedAll(created, length, size);
    CountZero(t);
    NoRemaining(t, base, length);
  }

  lemma {:induction false} NoRemaining(t: Table, base: nat, next: nat)
    requires TableOk(t, base, next) && forall i :: 0 <= i < |t| ==> !t[i].inFlight
    ensures Remaining(t) == 0
    decreases |t|
  {
    if t != [] {
      assert SlotOk(t[0], base, next);
      assert forall i :: 0 <= i < |t[1..]| ==> t[1..][i] == t[i + 1];
      NoRemaining(t[1..], base, next);
    }
  }

  /** The counters of a call that returned success. */
  ghost predicate Balanced(c0: Counters, c: Counters, length: nat, size: nat, waitRetries: nat)
    requires size > 0
  {
    && c.completionBytes - c0.completionBytes == length
    && (c.completions - c0.completions) - (c.partials - c0.partials) == CeilDiv(length, size)
    && c.sqes - c0.sqes == (c.completions - c0.completions) + (c.retries - c0.retries) - waitRetries
    && c.waits - c0.waits == (c.completions - c0.completions) + (c.retries - c0.retries)
    && c.waits - c0.waits <= length + (c.retries - c0.retries)
    && (c.partials - c0.partials) + (c.retries - c0.retries) - waitRetries < c.submits - c0.submits <= c.sqes - c0.sqes
  }

  lemma AccountingSame(c0: Counters, c: Counters, t: Table, next: nat, created: nat, waitRetries: nat)
    requires Accounting(c0, c, t, next, created, waitRetries)
    ensures SameOutside(c0, c) && SameOutside(c0, c.Wait())
  {
  }

  lemma StillWaiting(c0: Counters, c: Counters, t: Table, base: nat, next: nat, length: nat, size: nat,
                     requests: map<nat, Request>, done: set<nat>, created: nat, waitRetries: nat)
    requires TableInv(t, base, next, length, size, requests, done, created) && Count(t) > 0
    requires Accounting(c0, c, t, next, created, waitRetries)
    ensures c.waits - c0.waits < length + (c.retries - c0.retries) && SameOutside(c0, c)
  {
    RemainingPositive(t, base, next);
    WaitsBounded(c0, c, t, next, length, created, waitRetries);
  }

  lemma TransferredFits(op: Operation, r: Request, result: int, f: Content, m: seq<byte>, f': Content, m': seq<byte>)
    requires Transferred(op, r, result, f, m, f', m')
    ensures result <= r.length
  {
  }

  lemma NextAtMost(t: Table, base: nat, next: nat, length: nat, size: nat, requests: map<nat, Request>, done: set<nat>,
                   created: nat)
    requires TableInv(t, base, next, length, size, requests, done, created)
    ensures next <= length
  {
  }

  lemma Settled(c0: Counters, c: Counters, t: Table, length: nat, size: nat, created: nat, waitRetries: nat)
    requires Accounting(c0, c, t, length, created, waitRetries) && Count(t) == 0 && Remaining(t) == 0
    requires size > 0 && created == CeilDiv(length, size) && created > 0
    ensures Balanced(c0, c, length, size, waitRetries) && SameOutside(c0, c)
  {
  }

  lemma SameOutsideRefl(c: Counters)
    ensures SameOutside(c, c)
  {
  }

  lemma SameOutsideTransitive(a: Counters, b: Counters, c: Counters)
    requires SameOutside(a, b) && SameOutside(b, c)
    ensures SameOutside(a, c)
  {
  }

  /** The first half of an iteration: fill free slots and submit. */
  method IssueBatch(slots: array<Slot>, ring: Ring, base: nat, length: nat, size: nat, batch: nat, next0: nat,
                    inFlight0: nat, stats: FileIoStats, ghost c0: Counters, ghost done: set<nat>,
                    ghost created0: nat, ghost waitRetries: nat)
    returns (status: Status, next: nat, inFlight: nat, ghost created: nat)
    requires size > 0 && 1 <= batch <= slots.Length <= ring.entries
    requires ring.queued == map[] && ring.queuedCount == 0
    requires TableInv(slots[..], base, next0, length, size, ring.inKernel, done, created0)
    requires inFlight0 == Count(slots[..]) && (next0 < length || inFlight0 > 0)
    requires Accounting(c0, stats.counts, slots[..], next0, created0, waitRetries)
    modifies slots, ring`queued, ring`queuedCount, ring`inKernel, stats, ring.kernel
    ensures Told(status, old(stats.counts), stats.counts, old(ring.kernel.log), ring.kernel.log)
    ensures !status.Pending? && SameOutside(c0, stats.counts) && stats.counts.waits == old(stats.counts.waits)
    ensures !status.Success? ==> stats.counts == old(stats.counts) && Aimed(ring.inKernel, base, length)
    ensures status.Success? ==>
      && ring.queued == map[] && ring.queuedCount == 0
      && TableInv(slots[..], base, next, length, size, ring.inKernel, done, created)
      && inFlight == Count(slots[..]) > 0
      && Accounting(c0, stats.counts, slots[..], next, created, waitRetries)
  {
    hide TableInv, Accounting, Count, Remaining, SameOutside, Aimed, Told;
    ghost var t, c := slots[..], stats.counts;
    ToldNothing(c, ring.kernel.log);
    KernelAimed(t, base, next0, length, size, ring.inKernel, done, created0);
    var prepared, submitted;
    prepared, next, inFlight, submitted, created := FillSlots(slots, ring, base, length, size, batch, next0, inFlight0,
                                                              done, created0);
    if !prepared {
      assert false;  // "io_uring_get_sqe returned null"
    }
    AccountingSame(c0, c, t, next0, created0, waitRetries);
    AccountingFilled(c0, c, t, next0, created0, waitRetries, slots[..], next, created, submitted);
    assert ring.inKernel + map[] == ring.inKernel;
    if submitted > 0 {
      var submitResult := ring.Submit();
      if submitResult < 0 {
        status := SystemError("io_uring_submit", -submitResult);
        SubmitTold(status, c, c, old(ring.kernel.log), submitResult, submitted);
        return;
      }
      stats.counts := stats.counts.Submit(submitted);
      SubmitTold(Success, c, stats.counts, old(ring.kernel.log), submitResult, submitted);
      AccountingSame(c0, stats.counts, slots[..], next, created, waitRetries);
    }
    status := Success;
  }

  /** The wait itself: which slot completed, and what that moved. */
  method WaitMoved(ring: Ring, ghost t: Table, ghost base: nat, ghost next: nat, ghost length: nat, ghost size: nat,
                   ghost f0: Content, ghost m0: seq<byte>, ghost done0: set<nat>, ghost created: nat)
    returns (encodedSlot: nat, result: int, ghost done: set<nat>)
    requires TableInv(t, base, next, length, size, ring.inKernel, done0, created) && Count(t) > 0
    requires length == |m0| && ring.memory.Length == length
    requires Moved(ring.operation, f0, ring.file.content, m0, ring.memory[..], base, done0)
    modifies ring`inKernel, ring.file, ring.memory, ring.kernel
    ensures ring.kernel.log == old(ring.kernel.log) + [Completed(ring.operation, result)]
    ensures 1 <= encodedSlot <= |t| && t[encodedSlot - 1].inFlight
    ensures ring.inKernel == old(ring.inKernel) - {encodedSlot}
    ensures result <= t[encodedSlot - 1].remaining == t[encodedSlot - 1].submittedLength
    ensures done == done0 + Interval(t[encodedSlot - 1].baseIndex,
                                     t[encodedSlot - 1].baseIndex + (if result > 0 then result else 0))
    ensures Moved(ring.operation, f0, ring.file.content, m0, ring.memory[..], base, done)
  {
    hide TableInv, Moved, Count, Transferred;
    ghost var f, m, requests := ring.file.content, ring.memory[..], ring.inKernel;
    KernelFits(t, base, next, length, size, requests, done0, created);
    encodedSlot, result := ring.WaitCqe();
    ghost var slot := t[encodedSlot - 1];
    assert requests[encodedSlot] == Request(slot.offset, slot.baseIndex, slot.remaining);
    TransferredFits(ring.operation, requests[encodedSlot], result, f, m, ring.file.content, ring.memory[..]);
    MovedMore(ring.operation, f0, f, m0, m, base, done0, ring.file.content, ring.memory[..], requests[encodedSlot],
              result);
    done := done0 + Interval(slot.baseIndex, slot.baseIndex + (if result > 0 then result else 0));
  }

  /** The second half of an iteration: wait for one completion and process it. */
  method CompleteOne(slots: array<Slot>, ring: Ring, base: nat, next: nat, length: nat, size: nat, inFlight0: nat,
                     stats: FileIoStats, ghost c0: Counters, ghost f0: Content, ghost m0: seq<byte>,
                     ghost done0: set<nat>, ghost created: nat, ghost waitRetries0: nat)
    returns (status: Status, inFlight: nat, ghost done: set<nat>, ghost waitRetries: nat)
    requires TableInv(slots[..], base, next, length, size, ring.inKernel, done0, created)
    requires inFlight0 == Count(slots[..]) > 0 && length == |m0| && ring.memory.Length == length && ring.entries > 0
    requires ring.queued == map[] && ring.queuedCount == 0
    requires Moved(ring.operation, f0, ring.file.content, m0, ring.memory[..], base, done0)
    requires Accounting(c0, stats.counts, slots[..], next, created, waitRetries0)
    modifies slots, ring, stats, ring.file, ring.memory, ring.kernel
    ensures Told(status, old(stats.counts), stats.counts, old(ring.kernel.log), ring.kernel.log)
    ensures !status.Pending? && SameOutside(c0, stats.counts)
    ensures Moved(ring.operation, f0, ring.file.content, m0, ring.memory[..], base, done)
    ensures waitRetries >= waitRetries0
    ensures FreshEntries(old(stats.counts), stats.counts, waitRetries - waitRetries0) <= 0
    ensures !status.Success? ==> Aimed(ring.inKernel, base, length)
    ensures status.Success? ==>
      && TableInv(slots[..], base, next, length, size, ring.inKernel, done, created)
      && inFlight == Count(slots[..]) && ring.queued == map[] && ring.queuedCount == 0
      && Accounting(c0, stats.counts, slots[..], next, created, waitRetries)
      && stats.counts.waits == old(stats.counts.waits) + 1
  {
    hide TableInv, Accounting, Moved, CountCompletion, Count, Remaining, SameOutside, Aimed, Told;
    ghost var log := ring.kernel.log;
    KernelAimed(slots[..], base, next, length, size, ring.inKernel, done0, created);
    ghost var c, requests, t := stats.counts, ring.inKernel, slots[..];
    done, waitRetries, inFlight := done0, waitRetries0, inFlight0;
    stats.counts := stats.counts.Wait();
    AccountingSame(c0, c, t, next, created, waitRetries);
    var waitResult := ring.WaitResult();
    if waitResult < 0 {
      if IsRetryError(-waitResult) {
        stats.counts := stats.counts.Retry();
        WaitTold(Success, c, stats.counts, log, waitResult);
        AccountingInterrupted(c0, c, t, next, created, waitRetries);
        waitRetries := waitRetries + 1;
        AccountingSame(c0, stats.counts, t, next, created, waitRetries);
        return Success, inFlight, done, waitRetries;
      }
      WaitTold(SystemError("io_uring_wait_cqe", -waitResult), c, stats.counts, log, waitResult);
      return SystemError("io_uring_wait_cqe", -waitResult), inFlight, done, waitRetries;
    }
    WaitTold(Success, c, stats.counts, log, waitResult);
    ghost var waited := ring.kernel.log;
    var encodedSlot, result;
    encodedSlot, result, done := WaitMoved(ring, t, base, next, length, size, f0, m0, done0, created);
    if encodedSlot == 0 || encodedSlot > slots.Length || !slots[encodedSlot - 1].inFlight {
      assert false;  // "io_uring completion missing slot"
    }
    var i := encodedSlot - 1;
    ghost var slot := t[i];
    assert slots[i] == slot;
    SlotFree(t, base, next, length, size, requests, done0, created, i);
    ghost var c1 := stats.counts;
    status, inFlight := Accept(slots, ring, base, next, length, size, i, result, inFlight, stats, requests, done0,
                               created, waited, c1);
    ToldThen(status, c, c1, stats.counts, log, waited, ring.kernel.log);
    SameOutsideTransitive(c0, c1, stats.counts);
    if status.Success? {
      AccountingCompleted(c0, c, t, next, created, waitRetries, slot, result, slots[..]);
      CountedWaits(c1, slot, result);
    }
  }

  lemma CountedWaits(c: Counters, s: Slot, result: int)
    ensures CountCompletion(c, s, result).waits == c.waits
  {
  }

  /** One more request moves any part of its bytes, inside the range of the call. */
  method LateCompletion(ring: Ring, ghost base: nat, ghost f0: Content, ghost m0: seq<byte>, ghost done0: set<nat>)
    returns (ghost done: set<nat>)
    requires Aimed(ring.inKernel, base, |m0|) && ring.memory.Length == |m0| && ring.inKernel != map[]
    requires Moved(ring.operation, f0, ring.file.content, m0, ring.memory[..], base, done0)
    modifies ring`inKernel, ring.file, ring.memory
    ensures Moved(ring.operation, f0, ring.file.content, m0, ring.memory[..], base, done)
    ensures Aimed(ring.inKernel, base, |m0|) && |ring.inKernel| < old(|ring.inKernel|)
  {
    hide Moved, Transferred;
    ghost var requests, f, m := ring.inKernel, ring.file.content, ring.memory[..];
    var userData, result := ring.Complete();
    ghost var r, moved := requests[userData], if result > 0 then result else 0;
    MovedMore(ring.operation, f0, f, m0, m, base, done0, ring.file.content, ring.memory[..], r, result);
    done := done0 + Interval(r.index, r.index + moved);
    assert requests.Keys == ring.inKernel.Keys + {userData};
  }

  /**
    A failed call leaves its requests in the kernel.  Any of them may still move any part of its bytes
    before the call returns, and the rest outlive it.
   */
  method LeaveBehind(ring: Ring, ghost base: nat, ghost f0: Content, ghost m0: seq<byte>, ghost done0: set<nat>)
    returns (ghost done: set<nat>)
    requires Aimed(ring.inKernel, base, |m0|) && ring.memory.Length == |m0|
    requires Moved(ring.operation, f0, ring.file.content, m0, ring.memory[..], base, done0)
    modifies ring`inKernel, ring.file, ring.memory
    ensures Moved(ring.operation, f0, ring.file.content, m0, ring.memory[..], base, done)
    ensures Aimed(ring.inKernel, base, |m0|)
  {
    hide Moved, Aimed;
    done := done0;
    var more: bool := *;
    while more && ring.inKernel != map[]
      invariant Aimed(ring.inKernel, base, |m0|)
      invariant Moved(ring.operation, f0, ring.file.content, m0, ring.memory[..], base, done)
      decreases |ring.inKernel|
    {
      done := LateCompletion(ring, base, f0, m0, done);
      more := *;
    }
  }

  /** The initialised ring and the completion loop; `left` is what outlives the call in the kernel. */
  method RunLoop(kernel: Kernel, op: Operation, file: File, offset: nat, memory: array<byte>, queueDepth: uint64,
                 batchSize: uint64, stats: FileIoStats, budget: nat)
    returns (status: Status, ghost waitRetries: nat, ghost left: map<nat, Request>)
    requires memory.Length > 0
    modifies kernel, file, memory, stats
    ensures Told(status, old(stats.counts), stats.counts, old(kernel.log), kernel.log)
    ensures Effect(op, status, old(file.content), file.content, old(memory[..]), memory[..], offset)
    ensures SameOutside(old(stats.counts), stats.counts)
    ensures FreshEntries(old(stats.counts), stats.counts, waitRetries) <= Depth(queueDepth)
    ensures Aimed(left, offset, memory.Length) && (status.Success? ==> left == map[])
    ensures status.Success? ==>
      Balanced(old(stats.counts), stats.counts, memory.Length, CeilDiv(memory.Length, Depth(queueDepth)), waitRetries)
    ensures status.Pending? ==> budget < memory.Length + (stats.counts.retries - old(stats.counts.retries))
  {
    hide TableInv, Accounting, Moved, Effect, Balanced, Count, Remaining, SameOutside, Aimed, Told;
    waitRetries, left := 0, map[];
    assert Aimed(left, offset, memory.Length) by {
      NothingAimed(offset, memory.Length);
    }
    var length := memory.Length;
    ghost var c0, f0, m0 := stats.counts, file.content, memory[..];
    StartMoved(op, f0, m0, offset);
    ghost var log0 := kernel.log;
    var initResult := kernel.QueueInit();
    InitTold(c0, log0, initResult);
    if initResult < 0 {
      EffectSoFar(op, SystemError("io_uring_queue_init", -initResult), f0, f0, m0, m0, offset, {});
      SameOutsideRefl(c0);
      return SystemError("io_uring_queue_init", -initResult), 0, left;
    }
    var depth := Depth(queueDepth);
    var batch := Batch(batchSize, depth);
    var size := CeilDiv(length, depth);
    var ring := new Ring(kernel, depth, op, file, memory);
    var slots := new Slot[depth](_ => EMPTY);
    var next: nat, inFlight: nat, waited: nat := 0, 0, 0;
    ghost var done: set<nat>, created: nat := {}, 0;
    StartInv(slots[..], offset, length, size, c0);
    while next < length || inFlight > 0
      invariant ring.queued == map[] && ring.queuedCount == 0
      invariant Told(Success, c0, stats.counts, log0, kernel.log)
      invariant TableInv(slots[..], offset, next, length, size, ring.inKernel, done, created)
      invariant inFlight == Count(slots[..])
      invariant Moved(op, f0, file.content, m0, memory[..], offset, done)
      invariant Accounting(c0, stats.counts, slots[..], next, created, waitRetries)
      invariant waited == stats.counts.waits - c0.waits <= budget
      decreases budget - waited
    {
      FreshAtMostDepth(c0, stats.counts, slots[..], offset, next, length, depth, ring.inKernel, done, created,
                       waitRetries);
      ghost var c1, log1 := stats.counts, kernel.log;
      status, next, inFlight, created :=
        IssueBatch(slots, ring, offset, length, size, batch, next, inFlight, stats, c0, done, created, waitRetries);
      ToldThen(status, c0, c1, stats.counts, log0, log1, kernel.log);
      if !status.Success? {
        done := LeaveBehind(ring, offset, f0, m0, done);
        EffectSoFar(op, status, f0, file.content, m0, memory[..], offset, done);
        left := ring.inKernel;
        return;
      }
      if inFlight == 0 {
        assert false;  // the idle pass: something is always in flight here
      }
      FreshAtMostDepth(c0, stats.counts, slots[..], offset, next, length, depth, ring.inKernel, done, created,
                       waitRetries);
      if waited == budget {
        StillWaiting(c0, stats.counts, slots[..], offset, next, length, size, ring.inKernel, done, created,
                     waitRetries);
        EffectSoFar(op, Pending, f0, file.content, m0, memory[..], offset, done);
        KernelAimed(slots[..], offset, next, length, size, ring.inKernel, done, created);
        ToldWaiting(c0, stats.counts, log0, kernel.log);
        return Pending, waitRetries, ring.inKernel;
      }
      waited := waited + 1;
      c1, log1 := stats.counts, kernel.log;
      status, inFlight, done, waitRetries :=
        CompleteOne(slots, ring, offset, next, length, size, inFlight, stats, c0, f0, m0, done, created, waitRetries);
      ToldThen(status, c0, c1, stats.counts, log0, log1, kernel.log);
      if !status.Success? {
        done := LeaveBehind(ring, offset, f0, m0, done);
        EffectSoFar(op, status, f0, file.content, m0, memory[..], offset, done);
        left := ring.inKernel;
        return;
      }
    }
    assert next == length by {
      NextAtMost(slots[..], offset, next, length, size, ring.inKernel, done, created);
    }
    KernelAimed(slots[..], offset, length, length, size, ring.inKernel, done, created);
    FreshAtMostDepth(c0, stats.counts, slots[..], offset, length, length, depth, ring.inKernel, done, created,
                     waitRetries);
    Finished(slots[..], offset, length, size, ring.inKernel, done, created);
    EffectSoFar(op, Success, f0, file.content, m0, memory[..], offset, done);
    Settled(c0, stats.counts, slots[..], length, size, created, waitRetries);
    return Success, waitRetries, ring.inKernel;
  }

  lemma InitTold(c: Counters, log: seq<Answer>, result: int)
    ensures var status := if result < 0 then SystemError("io_uring_queue_init", -result) else Success;
      Told(status, c, c, log, log + [Init(result)])
  {
    hide Told;
    ToldOne(if result < 0 then SystemError("io_uring_queue_init", -result) else Success, c, c, log, Init(result));
  }

  lemma ToldWaiting(c0: Counters, c: Counters, log0: seq<Answer>, log: seq<Answer>)
    requires Told(Success, c0, c, log0, log)
    ensures Told(Pending, c0, c, log0, log)
  {
  }

  lemma NothingAimed(base: nat, length: nat)
    ensures Aimed(map[], base, length)
  {
  }

  /**
    Both public calls: `memory` is the buffer to fill or the data to write.  The submission errors and the
    completion order are the kernel's choice; `waitRetries` counts waits that were interrupted.
   */
  method TransferAtAll(kernel: Kernel, op: Operation, file: File, offset: uint64, memory: array<byte>,
                       queueDepth: uint64, batchSize: uint64, stats: FileIoStats, budget: nat)
    returns (status: Status, ghost waitRetries: nat, ghost left: map<nat, Request>)
    requires memory.Length <= OFF_T_MAX + 1
    modifies kernel, file, memory, stats
    ensures status.InvalidArgument? <==> memory.Length > 0 && !RangeAddressable(offset, memory.Length)
    ensures var heard := if status.InvalidArgument? then Success else status;
      Told(heard, old(stats.counts), stats.counts, old(kernel.log), kernel.log)
    ensures status.InvalidArgument? || memory.Length == 0 ==>
      kernel.log == old(kernel.log) && stats.counts == old(stats.counts)
    ensures !status.InvalidArgument? && First(true, kernel.log[|old(kernel.log)|..]).Success? ==>
      status.Success? || budget < memory.Length + (stats.counts.retries - old(stats.counts.retries))
    ensures Effect(op, status, old(file.content), file.content, old(memory[..]), memory[..], offset)
    ensures SameOutside(old(stats.counts), stats.counts)
    ensures FreshEntries(old(stats.counts), stats.counts, waitRetries) <= Depth(queueDepth)
    ensures Aimed(left, offset, memory.Length) && (status.Success? ==> left == map[])
    ensures status.Success? && memory.Length > 0 ==> RangeAddressable(offset, memory.Length)
    ensures status.Success? && memory.Length > 0 ==>
      Balanced(old(stats.counts), stats.counts, memory.Length, CeilDiv(memory.Length, Depth(queueDepth)), waitRetries)
    ensures status.Pending? ==> budget < memory.Length + (stats.counts.retries - old(stats.counts.retries))
  {
    hide Told;
    waitRetries, left := 0, map[];
    var length := memory.Length;
    ToldNothing(stats.counts, kernel.log);
    if length == 0 {
      return Success, 0, left;
    }
    OffsetCheckExact(offset, length);
    if !OffsetAccepted(offset, length) {
      StartMoved(op, file.content, memory[..], offset);
      EffectSoFar(op, InvalidArgument("range"), file.content, file.content, memory[..], memory[..], offset, {});
      var message := if op.Read? then "read range exceeds off_t range" else "write range exceeds off_t range";
      return InvalidArgument(message), 0, left;
    }
    status, waitRetries, left := RunLoop(kernel, op, file, offset, memory, queueDepth, batchSize, stats, budget);
    ToldStatus(status, old(stats.counts), stats.counts, old(kernel.log), kernel.log);
  }
}
