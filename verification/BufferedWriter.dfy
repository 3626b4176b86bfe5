/**
  The coalescing writer.  Its meaning is its overlay: the file with the pending buffer written into it.
  Every call is proved to act on the overlay exactly as a plain positional write acts on a file.
 */
module BufferedWriter {
  import opened Common
  import opened FileModel
  import opened FileStats
  import opened Kernels
  import opened IoUring
  import opened FileIo

  /** How many underlying writes one accepted piece causes, and how many bytes stay buffered. */
  function Step(capacity: nat, buffered: nat, append: bool, length: nat): (nat, nat) {
    var flushed := if buffered > 0 then 1 else 0;
    if length == 0 then (0, buffered)
    else if length > capacity then (flushed + 1, 0)
    else
      var fits := append && buffered > 0 && buffered + length <= capacity;
      var (calls, held) := if fits then (0, buffered) else (flushed, 0);
      if held + length == capacity then (calls + 1, 0) else (calls, held + length)
  }

  /** The counters of a run of successful calls on the POSIX backend. */
  ghost predicate RunCounted(c0: Counters, c: Counters) {
    && c.writeCalls - c0.writeCalls == (c.syscalls - c0.syscalls) - (c.shorts - c0.shorts)
    && c.writeBytes - c0.writeBytes == c.syscallBytes - c0.syscallBytes
  }

  /** Bytes moved by system calls never exceed the bytes of recorded writes. */
  ghost predicate SyscallsRecorded(c0: Counters, c: Counters) {
    c.syscallBytes - c0.syscallBytes <= c.writeBytes - c0.writeBytes
  }

  class BufferedFileWriter {
    const kernel: Kernel
    const file: File
    const config: Config
    const uringBuilt: bool
    const stats: FileIoStats
    const buffer: array<byte>
    var buffered: nat
    var bufferOffset: uint64

    ghost predicate Valid()
      reads this
    {
      buffered <= buffer.Length <= OFF_T_MAX
    }

    ghost function Overlay(): Content
      requires Valid()
      reads this, file, buffer
    {
      WriteAt(file.content, bufferOffset, buffer[..buffered])
    }

    constructor (kernel: Kernel, file: File, config: Config, uringBuilt: bool, stats: FileIoStats)
      requires config.bufferSize <= OFF_T_MAX
      ensures Valid() && fresh(buffer) && buffered == 0 && Overlay() == file.content
      ensures this.kernel == kernel && this.file == file && this.stats == stats
      ensures this.config == config && this.uringBuilt == uringBuilt
      ensures buffer.Length == if config.strategy.Direct? then 0 else config.bufferSize
    {
      this.kernel, this.file, this.config, this.uringBuilt, this.stats := kernel, file, config, uringBuilt, stats;
      buffer := new byte[if EffectiveStrategy(config).Coalesced? then config.bufferSize else 0](_ => 0);
      buffered, bufferOffset := 0, 0;
    }

    /** The source's test, with its 64-bit unsigned addition. */
    predicate CanAppend(offset: uint64, length: nat)
      reads this
    {
      && buffer.Length != 0 && buffered > 0
      && offset == (bufferOffset + buffered) % UINT64_LIMIT && buffered + length <= buffer.Length
    }

    /** Where an accepted piece takes effect: its own offset, unless the addition wrapped. */
    ghost function Target(offset: uint64, length: nat): (at: nat)
      reads this
      requires Valid()
      ensures at == offset <==> !(CanAppend(offset, length) && bufferOffset + buffered >= UINT64_LIMIT)
    {
      if CanAppend(offset, length) then bufferOffset + buffered else offset
    }

    /** The buffer starts past the largest file offset, so no flush can empty it. */
    ghost predicate Stuck()
      reads this
    {
      buffered > 0 && bufferOffset > OFF_T_MAX
    }

    /** Success empties the buffer into the file; failure loses nothing that was accepted before. */
    method Flush(budget: nat) returns (status: Status)
      requires Valid()
      modifies this, file, stats, kernel
      ensures Valid() && Overlay() == old(Overlay())
      ensures Available(config, uringBuilt) ==>
        Answered(true, status, old(kernel.log), kernel.log, bufferOffset, old(buffered))
      ensures !Available(config, uringBuilt) && old(buffered) > 0 ==> status == ValidateAvailable(config, uringBuilt)
      ensures status.Success? ==> buffered == 0 && file.content == old(Overlay())
      ensures bufferOffset == old(bufferOffset) && (!status.Success? ==> buffered == old(buffered))
      ensures status.Success? ==> !old(Stuck())
      ensures old(buffered) == 0 ==>
        status.Success? && stats.counts == old(stats.counts) && kernel.log == old(kernel.log)
      ensures status.Success? ==>
        && stats.counts.writeCalls == old(stats.counts.writeCalls) + (if old(buffered) > 0 then 1 else 0)
        && stats.counts.writeBytes == old(stats.counts.writeBytes) + old(buffered)
        && (config.backend.Posix? ==> RunCounted(old(stats.counts), stats.counts))
      ensures !status.Pending? ==> SyscallsRecorded(old(stats.counts), stats.counts)
    {
      hide Answered;
      AnsweredNothing(true, kernel.log, bufferOffset, buffered);
      if buffered == 0 {
        return Success;
      }
      status := WriteAtAll(kernel, file, bufferOffset, buffer[..buffered], config, uringBuilt, stats, budget);
      PartialAbsorbed(old(file.content), file.content, bufferOffset, buffer[..buffered]);
      if !status.Success? {
        return;
      }
      buffered := 0;
      return Success;
    }

    method CopyIn(data: seq<byte>)
      requires buffered + |data| <= buffer.Length
      modifies buffer
      ensures buffer[..buffered + |data|] == old(buffer[..buffered]) + data
    {
      forall i | 0 <= i < |data| {
        buffer[buffered + i] := data[i];
      }
    }

    /**
      Success acts on the overlay as the plain write at the target offset.  Failure may have applied the
      write in part and touches nothing else.  A piece that needs no underlying write always succeeds.
     */
    method Write(offset: uint64, data: seq<byte>, budget: nat) returns (status: Status)
      requires Valid() && |data| <= OFF_T_MAX + 1
      modifies this, file, stats, buffer, kernel
      ensures Valid()
      ensures old(Reaches(offset, |data|)) ==> Heard(true, status, old(kernel.log), kernel.log)
      ensures !Available(config, uringBuilt) && !status.Success? ==> status == ValidateAvailable(config, uringBuilt)
      ensures status.Success? ==> Overlay() == WriteAt(old(Overlay()), old(Target(offset, |data|)), data)
      ensures Partial(old(Overlay()), Overlay(), old(Target(offset, |data|)), data)
      ensures status.Success? && old(Stuck()) ==> Stuck()
      ensures
        || buffered == 0 || (buffered == old(buffered) && bufferOffset == old(bufferOffset))
        || bufferOffset + buffered == old(Target(offset, |data|)) + |data|
      ensures |data| == 0 ==> buffered == old(buffered) && bufferOffset == old(bufferOffset)
      ensures status.Success? && buffered > 0 && |data| > 0 ==>
        bufferOffset + buffered == old(Target(offset, |data|)) + |data|
      ensures status.Success? ==>
        && stats.counts.writeBytes - old(stats.counts.writeBytes) + buffered == old(buffered) + |data|
        && (stats.counts.writeCalls - old(stats.counts.writeCalls), buffered) == old(StepOf(offset, |data|))
        && (config.backend.Posix? ==> RunCounted(old(stats.counts), stats.counts))
      ensures old(StepOf(offset, |data|)).0 == 0 ==> status.Success?
      ensures !status.Pending? ==> SyscallsRecorded(old(stats.counts), stats.counts)
    {
      hide WriteAt, Partial, Heard;
      HeardNothing(true, kernel.log);
      PartialRefl(Overlay(), Target(offset, |data|), data);
      if |data| == 0 {
        assert data == [];
        return Success;
      }
      if buffer.Length == 0 || |data| > buffer.Length {
        status := WriteThrough(offset, data, budget);
        return;
      }
      WholePartial(Overlay(), Target(offset, |data|), data);
      status := MakeRoom(offset, |data|, budget);
      if !status.Success? {
        return;
      }
      ghost var log := kernel.log;
      status := Hold(data, budget);
      if old(Reaches(offset, |data|)) {
        HeardThen(true, status, old(kernel.log), log, kernel.log);
      }
    }

    /** The configuration can write, and both the buffer and the piece lie where `off_t` reaches. */
    ghost predicate Reaches(offset: uint64, length: nat)
      reads this
      requires Valid()
    {
      && Available(config, uringBuilt)
      && Addressable(bufferOffset, buffered) && Addressable(Target(offset, length), length)
    }

    ghost function StepOf(offset: uint64, length: nat): (nat, nat)
      reads this
    {
      Step(buffer.Length, buffered, offset == (bufferOffset + buffered) % UINT64_LIMIT, length)
    }

    /** Unless the piece continues the buffer and fits, flush and start the buffer at its offset. */
    method MakeRoom(offset: uint64, length: nat, budget: nat) returns (status: Status)
      requires Valid() && 0 < length <= buffer.Length
      modifies this, file, stats, kernel
      ensures Valid() && Overlay() == old(Overlay())
      ensures old(Reaches(offset, length)) ==> Heard(true, status, old(kernel.log), kernel.log)
      ensures !Available(config, uringBuilt) && !status.Success? ==> status == ValidateAvailable(config, uringBuilt)
      ensures !status.Success? ==> buffered == old(buffered) && bufferOffset == old(bufferOffset)
      ensures old(CanAppend(offset, length)) || old(buffered) == 0 ==> status.Success?
      ensures status.Success? ==>
        && buffered + length <= buffer.Length && bufferOffset + buffered == old(Target(offset, length))
        && (if old(CanAppend(offset, length))
            then buffered == old(buffered) && bufferOffset == old(bufferOffset) && stats.counts == old(stats.counts)
            else
              && buffered == 0 && !old(Stuck())
              && stats.counts.writeCalls == old(stats.counts.writeCalls) + (if old(buffered) > 0 then 1 else 0)
              && stats.counts.writeBytes == old(stats.counts.writeBytes) + old(buffered)
              && (config.backend.Posix? ==> RunCounted(old(stats.counts), stats.counts)))
      ensures !status.Pending? ==> SyscallsRecorded(old(stats.counts), stats.counts)
    {
      hide Heard;
      HeardNothing(true, kernel.log);
      if CanAppend(offset, length) {
        return Success;
      }
      status := Flush(budget);
      if status.Success? {
        bufferOffset := offset;
        buffered := 0;
      }
    }

    /** A piece that does not fit: flush, then write it directly. */
    method WriteThrough(offset: uint64, data: seq<byte>, budget: nat) returns (status: Status)
      requires Valid() && 0 < |data| <= OFF_T_MAX + 1
      modifies this, file, stats, kernel
      ensures
        Available(config, uringBuilt) && Addressable(bufferOffset, old(buffered)) && Addressable(offset, |data|) ==>
          Heard(true, status, old(kernel.log), kernel.log)
      ensures !Available(config, uringBuilt) && !status.Success? ==> status == ValidateAvailable(config, uringBuilt)
      ensures bufferOffset == old(bufferOffset)
      ensures Valid() && Partial(old(Overlay()), Overlay(), offset, data)
      ensures buffered == 0 || (buffered == old(buffered) && bufferOffset == old(bufferOffset))
      ensures status.Success? ==>
        && buffered == 0 && !old(Stuck()) && Overlay() == WriteAt(old(Overlay()), offset, data)
        && stats.counts.writeCalls - old(stats.counts.writeCalls) == (if old(buffered) > 0 then 2 else 1)
        && stats.counts.writeBytes - old(stats.counts.writeBytes) == old(buffered) + |data|
        && (config.backend.Posix? ==> RunCounted(old(stats.counts), stats.counts))
      ensures !status.Pending? ==> SyscallsRecorded(old(stats.counts), stats.counts)
    {
      hide Heard;
      PartialRefl(Overlay(), offset, data);
      status := Flush(budget);
      if !status.Success? {
        return;
      }
      ghost var log := kernel.log;
      status := WriteAtAll(kernel, file, offset, data, config, uringBuilt, stats, budget);
      if Available(config, uringBuilt) && Addressable(bufferOffset, old(buffered)) && Addressable(offset, |data|) {
        HeardThen(true, status, old(kernel.log), log, kernel.log);
      }
    }

    method Append(data: seq<byte>)
      requires Valid() && buffered + |data| <= buffer.Length
      modifies this`buffered, buffer
      ensures Valid() && buffered == old(buffered) + |data|
      ensures Overlay() == WriteAt(old(Overlay()), bufferOffset + old(buffered), data)
    {
      hide WriteAt;
      ghost var held := buffer[..buffered];
      WriteAppend(file.content, bufferOffset, held, data);
      CopyIn(data);
      buffered := buffered + |data|;
      assert buffer[..buffered] == held + data;
      assert Overlay() == WriteAt(file.content, bufferOffset, held + data);
    }

    /** Copy the piece into the buffer, and flush if that fills it. */
    method Hold(data: seq<byte>, budget: nat) returns (status: Status)
      requires Valid() && 0 < |data| && buffered + |data| <= buffer.Length
      modifies this, file, stats, buffer, kernel
      ensures Available(config, uringBuilt) && Addressable(bufferOffset, old(buffered) + |data|) ==>
        Heard(true, status, old(kernel.log), kernel.log)
      ensures !Available(config, uringBuilt) && !status.Success? ==> status == ValidateAvailable(config, uringBuilt)
      ensures Valid() && Overlay() == WriteAt(old(Overlay()), old(bufferOffset) + old(buffered), data)
      ensures bufferOffset == old(bufferOffset) && (buffered == 0 || buffered == old(buffered) + |data|)
      ensures old(buffered) + |data| < buffer.Length ==> status.Success?
      ensures status.Success? ==>
        && buffered == (if old(buffered) + |data| == buffer.Length then 0 else old(buffered) + |data|)
        && (old(Stuck()) ==> Stuck())
        && stats.counts.writeCalls - old(stats.counts.writeCalls)
           == (if old(buffered) + |data| == buffer.Length then 1 else 0)
        && stats.counts.writeBytes - old(stats.counts.writeBytes) + buffered == old(buffered) + |data|
        && (config.backend.Posix? ==> RunCounted(old(stats.counts), stats.counts))
      ensures !status.Pending? ==> SyscallsRecorded(old(stats.counts), stats.counts)
    {
      hide Heard;
      HeardNothing(true, kernel.log);
      Append(data);
      if buffered == buffer.Length {
        status := Flush(budget);
        return;
      }
      return Success;
    }
  }

  lemma WriteAppend(f: Content, offset: nat, held: seq<byte>, data: seq<byte>)
    ensures WriteAt(f, offset, held + data) == WriteAt(WriteAt(f, offset, held), offset + |held|, data)
  {
    WriteSplit(f, offset, held + data, |held|);
    assert (held + data)[..|held|] == held && (held + data)[|held|..] == data;
  }

  lemma WholePartial(f: Content, offset: nat, data: seq<byte>)
    ensures Partial(f, WriteAt(f, offset, data), offset, data)
  {
    WritePartial(f, offset, data, |data|);
    assert data[..|data|] == data;
  }

  // ----- Runs -----

  datatype Op = WriteOp(offset: uint64, data: seq<byte>) | FlushOp

  /** The data of a call is an object in memory. */
  ghost predicate InMemory(op: Op) {
    op.WriteOp? ==> |op.data| <= OFF_T_MAX + 1
  }

  /** The reference: the same writes, directly and in order. */
  function Direct(f: Content, ops: seq<Op>): Content
    decreases |ops|
  {
    if ops == [] then f else Applied(ops[|ops| - 1], Direct(f, ops[..|ops| - 1]))
  }

  function Accepted(ops: seq<Op>): nat
    decreases |ops|
  {
    if ops == [] then 0 else Accepted(ops[..|ops| - 1]) + Bytes(ops[|ops| - 1])
  }

  ghost predicate Reachable(op: Op) {
    op.WriteOp? ==> Addressable(op.offset, |op.data|)
  }

  function Applied(op: Op, f: Content): Content {
    match op
    case WriteOp(offset, data) => WriteAt(f, offset, data)
    case FlushOp => f
  }

  function Bytes(op: Op): nat {
    if op.WriteOp? then |op.data| else 0
  }

  /** One successful call of a run that can still end in a successful flush. */
  method Call(w: BufferedFileWriter, op: Op, budget: nat) returns (status: Status)
    requires w.Valid() && InMemory(op)
    modifies w, w.file, w.stats, w.buffer, w.kernel
    ensures w.Valid()
    ensures status.Success? && !w.Stuck() ==>
      && !old(w.Stuck()) && w.Overlay() == Applied(op, old(w.Overlay()))
      && w.stats.counts.writeBytes - old(w.stats.counts.writeBytes) + w.buffered == old(w.buffered) + Bytes(op)
      && (w.config.backend.Posix? ==> RunCounted(old(w.stats.counts), w.stats.counts))
    ensures Available(w.config, w.uringBuilt) && old(Addressable(w.bufferOffset, w.buffered)) && Reachable(op) ==>
      && Heard(true, status, old(w.kernel.log), w.kernel.log)
      && (status.Success? ==> Addressable(w.bufferOffset, w.buffered))
  {
    hide Heard, WriteAt;
    match op {
      case WriteOp(offset, data) => status := w.Write(offset, data, budget);
      case FlushOp => status := w.Flush(budget);
    }
  }

  /**
    Any run of calls, in any order, with any offsets and overlaps, and then a flush, up to the first call that
    does not succeed.  Where `off_t` reaches, that is the first refusal of the kernel.
   */
  method Replay(w: BufferedFileWriter, ops: seq<Op>, budget: nat) returns (status: Status)
    requires w.Valid() && forall i :: 0 <= i < |ops| ==> InMemory(ops[i])
    modifies w, w.file, w.stats, w.buffer, w.kernel
    ensures w.Valid()
    ensures status.Success? ==> w.buffered == 0 && w.file.content == Direct(old(w.Overlay()), ops)
    ensures status.Success? ==>
      w.stats.counts.writeBytes - old(w.stats.counts.writeBytes) == old(w.buffered) + Accepted(ops)
    ensures status.Success? && w.config.backend.Posix? ==> RunCounted(old(w.stats.counts), w.stats.counts)
    ensures old(RunReaches(w, ops)) ==> Heard(true, status, old(w.kernel.log), w.kernel.log)
  {
    hide Heard, Direct, Accepted, Applied, Addressable, Reachable, InMemory;
    ghost var reached := RunReaches(w, ops);
    HeardNothing(true, w.kernel.log);
    NoOps(w.Overlay(), ops);
    for i := 0 to |ops|
      invariant w.Valid()
      invariant reached ==> Heard(true, Success, old(w.kernel.log), w.kernel.log)
      invariant reached ==> Addressable(w.bufferOffset, w.buffered)
      invariant !w.Stuck() ==>
        && w.Overlay() == Direct(old(w.Overlay()), ops[..i])
        && w.stats.counts.writeBytes - old(w.stats.counts.writeBytes) + w.buffered
           == old(w.buffered) + Accepted(ops[..i])
        && (w.config.backend.Posix? ==> RunCounted(old(w.stats.counts), w.stats.counts))
    {
      OneMoreOp(old(w.Overlay()), ops, i);
      ghost var log := w.kernel.log;
      status := Call(w, ops[i], budget);
      if reached {
        HeardThen(true, status, old(w.kernel.log), log, w.kernel.log);
      }
      if !status.Success? {
        return;
      }
    }
    assert ops[..|ops|] == ops;
    ghost var log := w.kernel.log;
    status := w.Flush(budget);
    if reached {
      HeardThen(true, status, old(w.kernel.log), log, w.kernel.log);
    }
  }

  /** The configuration can write, and everything the run writes lies where `off_t` reaches. */
  ghost predicate RunReaches(w: BufferedFileWriter, ops: seq<Op>)
    reads w
  {
    && Available(w.config, w.uringBuilt) && Addressable(w.bufferOffset, w.buffered)
    && forall i :: 0 <= i < |ops| ==> Reachable(ops[i])
  }

  lemma NoOps(f: Content, ops: seq<Op>)
    ensures Direct(f, ops[..0]) == f && Accepted(ops[..0]) == 0
  {
  }

  lemma OneMoreOp(f: Content, ops: seq<Op>, i: nat)
    requires i < |ops|
    ensures Direct(f, ops[..i + 1]) == Applied(ops[i], Direct(f, ops[..i]))
    ensures Accepted(ops[..i + 1]) == Accepted(ops[..i]) + Bytes(ops[i])
  {
    assert ops[..i + 1][..i] == ops[..i];
  }

  /** What one call may do to the overlay, whether it succeeds or not. */
  ghost predicate Follows(op: Op, status: Status, target: nat, a: Content, b: Content) {
    match op
    case WriteOp(_, data) => Partial(a, b, target, data) && (status.Success? ==> b == WriteAt(a, target, data))
    case FlushOp => b == a
  }

  /** The call ends below 2^64. */
  ghost predicate Below(op: Op) {
    op.WriteOp? ==> op.offset + |op.data| < UINT64_LIMIT
  }

  ghost predicate AtOwnOffset(op: Op, target: nat) {
    op.WriteOp? ==> target == op.offset
  }

  /** Any run, with failures anywhere: no call disturbs what earlier calls put into the overlay beyond its own write. */
  method ReplayAny(w: BufferedFileWriter, ops: seq<Op>, budget: nat)
    returns (statuses: seq<Status>, ghost overlays: seq<Content>, ghost targets: seq<nat>)
    requires w.Valid() && forall i :: 0 <= i < |ops| ==> InMemory(ops[i])
    modifies w, w.file, w.stats, w.buffer, w.kernel
    ensures w.Valid() && |statuses| == |ops| == |targets| == |overlays| - 1
    ensures overlays[0] == old(w.Overlay()) && overlays[|ops|] == w.Overlay()
    ensures forall i :: 0 <= i < |ops| ==> Follows(ops[i], statuses[i], targets[i], overlays[i], overlays[i + 1])
    ensures old(w.bufferOffset) + old(w.buffered) < UINT64_LIMIT && (forall i :: 0 <= i < |ops| ==> Below(ops[i])) ==>
      forall i :: 0 <= i < |ops| ==> AtOwnOffset(ops[i], targets[i])
    ensures (forall i :: 0 <= i < |ops| ==> !statuses[i].Pending?) ==>
      SyscallsRecorded(old(w.stats.counts), w.stats.counts)
  {
    hide Follows, Below, AtOwnOffset;
    statuses, overlays, targets := [], [w.Overlay()], [];
    for i := 0 to |ops|
      invariant w.Valid() && |statuses| == i == |targets| == |overlays| - 1
      invariant overlays[0] == old(w.Overlay()) && overlays[i] == w.Overlay()
      invariant forall j :: 0 <= j < i ==> Follows(ops[j], statuses[j], targets[j], overlays[j], overlays[j + 1])
      invariant
        old(w.bufferOffset) + old(w.buffered) < UINT64_LIMIT && (forall j :: 0 <= j < |ops| ==> Below(ops[j])) ==>
        && (w.buffered > 0 ==> w.bufferOffset + w.buffered < UINT64_LIMIT)
        && forall j :: 0 <= j < i ==> AtOwnOffset(ops[j], targets[j])
      invariant (forall j :: 0 <= j < i ==> !statuses[j].Pending?) ==>
        SyscallsRecorded(old(w.stats.counts), w.stats.counts)
    {
      var status;
      ghost var target, before := 0, statuses;
      status, target := Perform(w, ops[i], budget);
      assert forall j :: 0 <= j < i ==> before[j] == (before + [status])[j];
      statuses, overlays, targets := statuses + [status], overlays + [w.Overlay()], targets + [target];
      assert statuses[i] == status;
    }
  }

  method Perform(w: BufferedFileWriter, op: Op, budget: nat) returns (status: Status, ghost target: nat)
    requires w.Valid() && InMemory(op)
    modifies w, w.file, w.stats, w.buffer, w.kernel
    ensures w.Valid() && Follows(op, status, target, old(w.Overlay()), w.Overlay())
    ensures (old(w.buffered) > 0 ==> old(w.bufferOffset) + old(w.buffered) < UINT64_LIMIT) && Below(op) ==>
      AtOwnOffset(op, target) && (w.buffered > 0 ==> w.bufferOffset + w.buffered < UINT64_LIMIT)
    ensures !status.Pending? ==> SyscallsRecorded(old(w.stats.counts), w.stats.counts)
  {
    match op {
      case WriteOp(offset, data) =>
        target := w.Target(offset, |data|);
        status := w.Write(offset, data, budget);
      case FlushOp =>
        target := 0;
        status := w.Flush(budget);
    }
  }

  /**
    Where the addition wraps the writer misplaces data: a byte at the last 64-bit offset is held, and the
    next one, for offset 0, is appended to it.  Both calls report success, and offset 0 never gets its byte.
   */
  method WrapMisplaces(kernel: Kernel, file: File, stats: FileIoStats, budget: nat)
    returns (first: Status, second: Status, w: BufferedFileWriter)
    modifies kernel, file, stats
    ensures w.Valid() && first.Success? && second.Success? && w.Stuck()
    ensures w.Overlay() == WriteAt(WriteAt(old(file.content), UINT64_LIMIT - 1, [1]), UINT64_LIMIT, [2])
    ensures |old(file.content)| <= OFF_T_MAX + 1 ==>
      w.Overlay() != WriteAt(WriteAt(old(file.content), UINT64_LIMIT - 1, [1]), 0, [2])
  {
    w := new BufferedFileWriter(kernel, file, Config(Posix, 8, 1, 1, Coalesced), false, stats);
    first := w.Write(UINT64_LIMIT - 1, [1], budget);
    second := w.Write(0, [2], budget);
  }

  // ----- How many underlying writes -----

  function Sum(lengths: seq<nat>): nat
    decreases |lengths|
  {
    if lengths == [] then 0 else Sum(lengths[..|lengths| - 1]) + lengths[|lengths| - 1]
  }

  /** Calls made and bytes held after contiguous pieces of the given lengths, starting empty. */
  function Run(capacity: nat, lengths: seq<nat>): (nat, nat)
    decreases |lengths|
  {
    if lengths == [] then (0, 0) else
      var (calls, held) := Run(capacity, lengths[..|lengths| - 1]);
      var (more, left) := Step(capacity, held, true, lengths[|lengths| - 1]);
      (calls + more, left)
  }

  /**
    Two underlying writes always carry more than a buffer's worth: with `q` such pairs behind us, at most
    one more write has been made, and then enough bytes for another pair have come in.
   */
  ghost predicate Paid(capacity: nat, calls: nat, held: nat, total: nat, q: nat) {
    || (calls <= 2 * q && q * (capacity + 1) + held <= total)
    || (calls <= 2 * q + 1 && held > 0 && q * (capacity + 1) + (capacity + 1) <= total)
    || (calls <= 2 * q + 1 && held == 0 && q * (capacity + 1) + capacity <= total)
  }

  lemma PaidStep(capacity: nat, calls: nat, held: nat, total: nat, q: nat, length: nat) returns (q': nat)
    requires Paid(capacity, calls, held, total, q) && held < capacity && 0 < length <= capacity
    ensures var (more, left) := Step(capacity, held, true, length);
      Paid(capacity, calls + more, left, total + length, q') && left < capacity
  {
    var (more, left) := Step(capacity, held, true, length);
    assert (q + 1) * (capacity + 1) == q * (capacity + 1) + (capacity + 1);
    if Paid(capacity, calls + more, left, total + length, q) {
      q' := q;
    } else {
      q' := q + 1;
    }
  }

  lemma {:induction false} RunPaid(capacity: nat, lengths: seq<nat>) returns (q: nat)
    requires capacity > 0 && forall i :: 0 <= i < |lengths| ==> 0 < lengths[i] <= capacity
    ensures var (calls, held) := Run(capacity, lengths);
      Paid(capacity, calls, held, Sum(lengths), q) && held < capacity
    decreases |lengths|
  {
    if lengths == [] {
      q := 0;
    } else {
      hide Paid, Step;
      var n := |lengths| - 1;
      var q0 := RunPaid(capacity, lengths[..n]);
      var (calls, held) := Run(capacity, lengths[..n]);
      q := PaidStep(capacity, calls, held, Sum(lengths[..n]), q0, lengths[n]);
    }
  }

  lemma QuotientAtLeast(q: nat, d: nat, n: nat)
    requires d > 0 && q * d <= n
    ensures q <= n / d
  {
    MulMonotoneIf(n / d + 1, q, d);
    assert n == (n / d) * d + n % d;
    assert (n / d + 1) * d == (n / d) * d + d;
  }

  lemma MulMonotoneIf(a: nat, b: nat, c: nat)
    ensures a <= b ==> a * c <= b * c
  {
    if a <= b {
      assert (b - a) * c >= 0;
      assert (b - a) * c == b * c - a * c;
    }
  }

  /** Contiguous pieces of at most a buffer each, N bytes in all, then a flush: at most 2 * (N / (B + 1)) + 1 writes. */
  lemma CallsBounded(capacity: nat, lengths: seq<nat>)
    requires capacity > 0 && forall i :: 0 <= i < |lengths| ==> 0 < lengths[i] <= capacity
    ensures var (calls, held) := Run(capacity, lengths);
      calls + (if held > 0 then 1 else 0) <= 2 * (Sum(lengths) / (capacity + 1)) + 1
  {
    hide Run;
    var q := RunPaid(capacity, lengths);
    var (calls, held) := Run(capacity, lengths);
    var n := Sum(lengths);
    assert (q + 1) * (capacity + 1) == q * (capacity + 1) + (capacity + 1);
    QuotientAtLeast(q, capacity + 1, n);
    if (q + 1) * (capacity + 1) <= n {
      QuotientAtLeast(q + 1, capacity + 1, n);
    }
  }

  function Lengths(pieces: seq<seq<byte>>): (ls: seq<nat>)
    ensures |ls| == |pieces| && forall i :: 0 <= i < |ls| ==> ls[i] == |pieces[i]|
  {
    seq(|pieces|, i requires 0 <= i < |pieces| => |pieces[i]|)
  }

  /** The bound on the real writer, read off its own call counter. */
  method WriteContiguous(w: BufferedFileWriter, offset: uint64, pieces: seq<seq<byte>>, budget: nat)
    returns (status: Status)
    requires w.Valid() && w.buffered == 0 && w.buffer.Length > 0
    requires forall i :: 0 <= i < |pieces| ==> 0 < |pieces[i]| <= w.buffer.Length
    requires offset + Sum(Lengths(pieces)) < UINT64_LIMIT
    modifies w, w.file, w.stats, w.buffer, w.kernel
    ensures Available(w.config, w.uringBuilt) && offset + Sum(Lengths(pieces)) <= OFF_T_MAX + 1 ==>
      Heard(true, status, old(w.kernel.log), w.kernel.log)
    ensures status.Success? ==>
      && w.buffered == 0
      && w.stats.counts.writeCalls - old(w.stats.counts.writeCalls)
         <= 2 * (Sum(Lengths(pieces)) / (w.buffer.Length + 1)) + 1
  {
    hide Run, Sum, Step, Heard;
    ghost var reached := Available(w.config, w.uringBuilt) && offset + Sum(Lengths(pieces)) <= OFF_T_MAX + 1;
    HeardNothing(true, w.kernel.log);
    var at := offset;
    var lengths := Lengths(pieces);
    RunEmpty(w.buffer.Length, lengths);
    for i := 0 to |pieces|
      invariant w.Valid() && at == offset + Sum(lengths[..i])
      invariant (w.stats.counts.writeCalls - old(w.stats.counts.writeCalls), w.buffered)
             == Run(w.buffer.Length, lengths[..i])
      invariant w.buffered > 0 ==> w.bufferOffset + w.buffered == at
      invariant reached ==> Heard(true, Success, old(w.kernel.log), w.kernel.log)
    {
      RunMore(w.buffer.Length, lengths, i);
      SumPrefix(lengths, i + 1);
      ghost var log := w.kernel.log;
      status := w.Write(at, pieces[i], budget);
      if reached {
        HeardThen(true, status, old(w.kernel.log), log, w.kernel.log);
      }
      if !status.Success? {
        return;
      }
      at := at + |pieces[i]|;
    }
    assert lengths[..|pieces|] == lengths;
    CallsBounded(w.buffer.Length, lengths);
    ghost var log := w.kernel.log;
    status := w.Flush(budget);
    if reached {
      HeardThen(true, status, old(w.kernel.log), log, w.kernel.log);
    }
  }

  lemma RunEmpty(capacity: nat, lengths: seq<nat>)
    ensures Run(capacity, lengths[..0]) == (0, 0) && Sum(lengths[..0]) == 0
  {
  }

  lemma RunMore(capacity: nat, lengths: seq<nat>, i: nat)
    requires i < |lengths|
    ensures Sum(lengths[..i + 1]) == Sum(lengths[..i]) + lengths[i]
    ensures var (calls, held) := Run(capacity, lengths[..i]);
      && Run(capacity, lengths[..i + 1])
         == (calls + Step(capacity, held, true, lengths[i]).0, Step(capacity, held, true, lengths[i]).1)
      && Step(capacity, 0, false, lengths[i]) == Step(capacity, 0, true, lengths[i])
  {
    assert lengths[..i + 1][..i] == lengths[..i];
  }

  lemma {:induction false} SumPrefix(lengths: seq<nat>, i: nat)
    requires i <= |lengths|
    ensures Sum(lengths[..i]) <= Sum(lengths)
    decreases |lengths|
  {
    if i == |lengths| {
      assert lengths[..i] == lengths;
    } else {
      SumPrefix(lengths[..|lengths| - 1], i);
      assert lengths[..|lengths| - 1][..i] == lengths[..i];
    }
  }
}
