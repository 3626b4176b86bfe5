/**
  The slot table of the io_uring engine: the configuration arithmetic, the invariant the table keeps,
  and what issuing a request or accepting a completion does to it.
 */
module IoUringSlots {
  import opened Common

  const MAX_QUEUE_DEPTH := 256

  function ClampRange(value: uint64, fallback: uint64, maximum: uint64): (r: uint64)
    ensures fallback > 0 && maximum > 0 ==> 1 <= r <= maximum
  {
    var normalized := if value == 0 then fallback else value;
    if normalized <= maximum then normalized else maximum
  }

  function Depth(queueDepth: uint64): (d: uint64)
    ensures 1 <= d <= 256
    ensures d == if queueDepth == 0 then 1 else if queueDepth <= 256 then queueDepth else 256
  {
    ClampRange(queueDepth, 1, MAX_QUEUE_DEPTH)
  }

  function Batch(batchSize: uint64, depth: uint64): (b: uint64)
    requires 1 <= depth <= 256
    ensures 1 <= b <= depth
    ensures batchSize == 0 || batchSize >= depth ==> b == depth
    ensures 0 < batchSize <= depth ==> b == batchSize
  {
    var c := ClampRange(batchSize, depth, MAX_QUEUE_DEPTH);
    if c <= depth then c else depth
  }

  function CeilDiv(a: nat, b: nat): (c: nat)
    requires b > 0
    ensures c * b >= a && (c == 0 || (c - 1) * b < a)
  {
    var c := (a + b - 1) / b;
    DivMod(a + b - 1, b);
    c
  }

  lemma DivMod(n: nat, d: nat)
    requires d > 0
    ensures n == (n / d) * d + n % d && 0 <= n % d < d
    ensures (n / d - 1) * d == (n / d) * d - d
  {
  }

  // ----- The offset check -----

  /** The source's test, with its 64-bit unsigned subtraction. */
  predicate OffsetAccepted(offset: uint64, length: uint64) {
    && offset <= OFF_T_MAX
    && !(length > 0 && offset > (OFF_T_MAX - (length - 1)) % UINT64_LIMIT)
  }

  /** What the test is for: the last byte is addressable. */
  predicate RangeAddressable(offset: uint64, length: uint64) {
    offset <= OFF_T_MAX && (length > 0 ==> offset + length - 1 <= OFF_T_MAX)
  }

  /** The test is right exactly when the subtraction does not wrap or the offset alone is refused. */
  lemma OffsetCheckExact(offset: uint64, length: uint64)
    ensures (OffsetAccepted(offset, length) <==> RangeAddressable(offset, length))
       <==> (length <= OFF_T_MAX + 1 || offset > OFF_T_MAX)
  {
    if length > OFF_T_MAX + 1 {
      assert (OFF_T_MAX - (length - 1)) % UINT64_LIMIT == OFF_T_MAX - (length - 1) + UINT64_LIMIT;
    } else if length > 0 {
      assert (OFF_T_MAX - (length - 1)) % UINT64_LIMIT == OFF_T_MAX - (length - 1);
    }
  }

  /** A request for 2^63 + 1 bytes at offset 1 passes the test although it runs past the largest offset. */
  lemma OffsetCheckWraps()
    ensures OffsetAccepted(1, 0x8000_0000_0000_0001) && !RangeAddressable(1, 0x8000_0000_0000_0001)
  {
    OffsetCheckExact(1, 0x8000_0000_0000_0001);
  }

  // ----- The table -----

  datatype Slot = Slot(offset: nat, baseIndex: nat, remaining: nat, submittedLength: nat, inFlight: bool)

  const EMPTY := Slot(0, 0, 0, 0, false)

  type Table = seq<Slot>

  predicate Holds(s: Slot, x: nat) {
    s.inFlight && s.baseIndex <= x < s.baseIndex + s.remaining
  }

  ghost predicate Flying(t: Table, x: nat) {
    exists i :: 0 <= i < |t| && Holds(t[i], x)
  }

  ghost predicate SlotOk(s: Slot, base: nat, next: nat) {
    && (s.inFlight <==> s.remaining > 0)
    && (s.inFlight ==>
          s.submittedLength == s.remaining && s.offset == base + s.baseIndex && s.baseIndex + s.remaining <= next)
  }

  predicate Apart(s: Slot, r: Slot) {
    s.inFlight && r.inFlight ==> s.baseIndex + s.remaining <= r.baseIndex || r.baseIndex + r.remaining <= s.baseIndex
  }

  ghost predicate TableOk(t: Table, base: nat, next: nat) {
    && (forall i :: 0 <= i < |t| ==> SlotOk(t[i], base, next))
    && (forall i, j :: 0 <= i < j < |t| ==> Apart(t[i], t[j]))
  }

  /** Completed and in-flight bytes partition the issued prefix. */
  ghost predicate Partition(t: Table, next: nat, done: set<nat>) {
    && (forall x: nat :: x in done ==> x < next && !Flying(t, x))
    && (forall x: nat :: x < next && x !in done ==> Flying(t, x))
    && (forall x: nat :: Flying(t, x) ==> x < next)
  }

  function Count(t: Table): (n: nat)
    ensures n <= |t|
  {
    if t == [] then 0 else (if t[0].inFlight then 1 else 0) + Count(t[1..])
  }

  function Remaining(t: Table): nat {
    if t == [] then 0 else t[0].remaining + Remaining(t[1..])
  }

  lemma {:induction false} Updated(t: Table, i: nat, s: Slot)
    requires i < |t|
    ensures Count(t[i := s]) == Count(t) - (if t[i].inFlight then 1 else 0) + (if s.inFlight then 1 else 0)
    ensures Remaining(t[i := s]) == Remaining(t) - t[i].remaining + s.remaining
    decreases |t|
  {
    if i == 0 {
      assert t[0 := s][1..] == t[1..];
    } else {
      Updated(t[1..], i - 1, s);
      assert t[i := s][1..] == t[1..][i - 1 := s];
    }
  }

  lemma {:induction false} CountZero(t: Table)
    requires Count(t) == 0
    ensures forall i :: 0 <= i < |t| ==> !t[i].inFlight
    decreases |t|
  {
    if t != [] {
      CountZero(t[1..]);
      assert forall i :: 0 < i < |t| ==> t[i] == t[1..][i - 1];
    }
  }

  lemma {:induction false} EmptyTable(t: Table)
    requires forall i :: 0 <= i < |t| ==> t[i] == EMPTY
    ensures Count(t) == 0 && Remaining(t) == 0
    decreases |t|
  {
    if t != [] {
      EmptyTable(t[1..]);
    }
  }

  // ----- Issuing a request -----

  function Fresh(base: nat, next: nat, size: nat): Slot {
    Slot(base + next, next, size, size, true)
  }

  lemma IssueKeepsTable(t: Table, i: nat, base: nat, next: nat, size: nat)
    requires TableOk(t, base, next) && i < |t| && !t[i].inFlight && size > 0
    ensures TableOk(t[i := Fresh(base, next, size)], base, next + size)
  {
    var u := t[i := Fresh(base, next, size)];
    forall a, b | 0 <= a < b < |u|
      ensures Apart(u[a], u[b])
    {
      assert SlotOk(t[a], base, next) && SlotOk(t[b], base, next) && Apart(t[a], t[b]);
    }
    forall a | 0 <= a < |u|
      ensures SlotOk(u[a], base, next + size)
    {
      assert SlotOk(t[a], base, next);
    }
  }

  lemma FlyingUpdated(t: Table, i: nat, s: Slot, x: nat)
    requires i < |t|
    ensures Flying(t[i := s], x) <==> Holds(s, x) || exists j :: 0 <= j < |t| && j != i && Holds(t[j], x)
  {
    var u := t[i := s];
    if Flying(u, x) {
      var j :| 0 <= j < |u| && Holds(u[j], x);
      assert j != i ==> Holds(t[j], x);
    }
    if Holds(s, x) {
      assert Holds(u[i], x);
    }
    if exists j :: 0 <= j < |t| && j != i && Holds(t[j], x) {
      var j :| 0 <= j < |t| && j != i && Holds(t[j], x);
      assert Holds(u[j], x);
    }
  }

  lemma IssueKeepsPartition(t: Table, i: nat, base: nat, next: nat, size: nat, done: set<nat>)
    requires TableOk(t, base, next) && Partition(t, next, done) && i < |t| && !t[i].inFlight && size > 0
    ensures Partition(t[i := Fresh(base, next, size)], next + size, done)
  {
    var u := t[i := Fresh(base, next, size)];
    forall x: nat
      ensures Flying(u, x) <==> Flying(t, x) || next <= x < next + size
    {
      FlyingUpdated(t, i, Fresh(base, next, size), x);
      if Flying(t, x) {
        var j :| 0 <= j < |t| && Holds(t[j], x);
        assert j != i;
      }
    }
  }

  // ----- Accepting a completion of `k` bytes -----

  /** The slot after the completion and the resubmission of what is left. */
  function Advanced(s: Slot, k: nat): Slot
    requires k <= s.remaining
  {
    if k == s.remaining then EMPTY
    else Slot(s.offset + k, s.baseIndex + k, s.remaining - k, s.remaining - k, true)
  }

  ghost function Interval(lo: nat, hi: nat): (r: set<nat>)
    ensures forall x: nat :: x in r <==> lo <= x < hi
    decreases hi - lo
  {
    if lo >= hi then {} else {lo} + Interval(lo + 1, hi)
  }

  lemma OnlyHolder(t: Table, i: nat, j: nat, base: nat, next: nat, x: nat)
    requires TableOk(t, base, next) && i < |t| && j < |t| && Holds(t[i], x) && Holds(t[j], x)
    ensures i == j
  {
  }

  lemma AdvanceKeepsTable(t: Table, i: nat, k: nat, base: nat, next: nat)
    requires TableOk(t, base, next) && i < |t| && t[i].inFlight && k <= t[i].remaining
    ensures TableOk(t[i := Advanced(t[i], k)], base, next)
  {
    var u := t[i := Advanced(t[i], k)];
    assert SlotOk(t[i], base, next);
    forall a, b | 0 <= a < b < |u|
      ensures Apart(u[a], u[b])
    {
      assert Apart(t[a], t[b]);
    }
  }

  lemma AdvanceKeepsPartition(t: Table, i: nat, k: nat, base: nat, next: nat, done: set<nat>)
    requires TableOk(t, base, next) && Partition(t, next, done) && i < |t| && t[i].inFlight && k <= t[i].remaining
    ensures done !! Interval(t[i].baseIndex, t[i].baseIndex + k)
    ensures Partition(t[i := Advanced(t[i], k)], next, done + Interval(t[i].baseIndex, t[i].baseIndex + k))
  {
    var s := t[i];
    var u, extra := t[i := Advanced(s, k)], Interval(s.baseIndex, s.baseIndex + k);
    assert SlotOk(s, base, next);
    forall x: nat
      ensures x in extra ==> Flying(t, x)
      ensures Flying(u, x) <==> Flying(t, x) && x !in extra
    {
      FlyingUpdated(t, i, Advanced(s, k), x);
      assert Holds(s, x) ==> Flying(t, x);
      if Holds(s, x) {
        forall j | 0 <= j < |t| && Holds(t[j], x)
          ensures j == i
        {
          OnlyHolder(t, i, j, base, next, x);
        }
      }
    }
  }

  /** With nothing in flight everything issued is complete. */
  lemma AllDone(t: Table, next: nat, done: set<nat>)
    requires Partition(t, next, done) && Count(t) == 0
    ensures forall x: nat :: x < next <==> x in done
  {
    CountZero(t);
  }

  // ----- How many requests were created -----

  /** `created` requests of `size` bytes, the last possibly shorter, make up the issued prefix. */
  ghost predicate Created(created: nat, next: nat, length: nat, size: nat) {
    && next <= length && created * size >= next
    && (next < length ==> created * size == next)
    && (created > 0 ==> (created - 1) * size < next)
  }

  lemma CreatedOneMore(created: nat, next: nat, length: nat, size: nat, take: nat)
    requires Created(created, next, length, size) && next < length && size > 0
    requires take == if size <= length - next then size else length - next
    ensures Created(created + 1, next + take, length, size)
  {
    assert (created + 1) * size == created * size + size;
    assert (created + 1 - 1) * size == created * size;
  }

  lemma CreatedAll(created: nat, length: nat, size: nat)
    requires Created(created, length, length, size) && size > 0 && length > 0
    ensures created == CeilDiv(length, size)
  {
    var c := CeilDiv(length, size);
    if created < c {
      assert created * size <= (c - 1) * size by {
        MulMonotone(created, c - 1, size);
      }
    }
    if c < created {
      assert c * size <= (created - 1) * size by {
        MulMonotone(c, created - 1, size);
      }
    }
  }

  lemma MulMonotone(a: nat, b: nat, c: nat)
    requires a <= b
    ensures a * c <= b * c
  {
    assert (b - a) * c >= 0;
    assert (b - a) * c == b * c - a * c;
  }

  /** With requests of ceil(length / depth) bytes, no more than `depth` are ever created. */
  lemma AtMostDepth(created: nat, next: nat, length: nat, depth: nat)
    requires depth > 0 && length > 0 && Created(created, next, length, CeilDiv(length, depth))
    ensures created <= depth
  {
    var size := CeilDiv(length, depth);
    if created > depth {
      MulMonotone(depth, created - 1, size);
    }
  }
}
