/**
  The POSIX read and write loops and the backend dispatch of the storage layer.  As for the ring, the
  kernel answers each system call as it likes and a run is observed for `budget` calls.
 */
module FileIo {
  import opened Common
  import opened FileModel
  import opened FileStats
  import opened Kernels
  import opened IoUringSlots
  import opened IoUring

  // ----- System calls -----

  /** A positional write moves some prefix of the data, or fails and moves nothing. */
  method Pwrite(kernel: Kernel, file: File, offset: nat, data: seq<byte>) returns (bytes: int, errno: int)
    modifies kernel, file
    ensures kernel.log == old(kernel.log) + [Wrote(bytes, errno)]
    ensures bytes <= |data|
    ensures file.content == WriteAt(old(file.content), offset, if bytes > 0 then data[..bytes] else [])
  {
    bytes := *;
    errno := *;
    if bytes > |data| {
      bytes := |data|;
    }
    if bytes > 0 {
      file.content := WriteAt(file.content, offset, data[..bytes]);
    }
    kernel.log := kernel.log + [Wrote(bytes, errno)];
  }

  /** A positional read fills a prefix of `memory[at..]`; zero means end of file. */
  method Pread(kernel: Kernel, file: File, offset: nat, memory: array<byte>, at: nat) returns (bytes: int, errno: int)
    requires at <= memory.Length
    modifies kernel, memory
    ensures kernel.log == old(kernel.log) + [Got(bytes, errno)]
    ensures bytes <= memory.Length - at
    ensures bytes <= 0 ==> memory[..] == old(memory[..])
    ensures bytes > 0 ==> offset + bytes <= |file.content|
    ensures bytes > 0 ==>
      memory[..] == old(memory[..at]) + file.content[offset..offset + bytes] + old(memory[at + bytes..])
  {
    bytes := *;
    errno := *;
    if bytes > memory.Length - at {
      bytes := memory.Length - at;
    }
    if bytes > 0 && offset + bytes > |file.content| {
      bytes := if offset >= |file.content| then 0 else |file.content| - offset;
    }
    if bytes > 0 {
      forall i | 0 <= i < bytes {
        memory[at + i] := file.content[offset + i];
      }
    }
    kernel.log := kernel.log + [Got(bytes, errno)];
  }

  // ----- The loops -----

  /**
    What a call on `length` bytes may return: the first refusal it met, or a complaint about the offset, which
    only a range past `off_t` can bring about.
   */
  ghost predicate Answered(again: bool, status: Status, log0: seq<Answer>, log: seq<Answer>, offset: nat, length: nat) {
    && (status.InvalidArgument? ==> !Addressable(offset, length))
    && Heard(again, if status.InvalidArgument? then Success else status, log0, log)
  }

  lemma AnsweredMore(again: bool, log0: seq<Answer>, log: seq<Answer>, a: Answer, offset: nat, length: nat)
    requires Answered(again, Success, log0, log, offset, length)
    ensures Answered(again, Refusal(again, a), log0, log + [a], offset, length)
  {
    HeardOne(again, log, a);
    HeardThen(again, Refusal(again, a), log0, log, log + [a]);
  }

  /** A call that has met no refusal may still be running, or may stop at an offset past `off_t`. */
  lemma AnsweredSoFar(again: bool, log0: seq<Answer>, log: seq<Answer>, offset: nat, length: nat)
    requires Answered(again, Success, log0, log, offset, length)
    ensures Answered(again, Pending, log0, log, offset, length)
    ensures !Addressable(offset, length) ==>
      && Answered(again, InvalidArgument("write offset exceeds off_t range"), log0, log, offset, length)
      && Answered(again, InvalidArgument("read offset exceeds off_t range"), log0, log, offset, length)
  {
  }

  lemma AnsweredNothing(again: bool, log: seq<Answer>, offset: nat, length: nat)
    ensures Answered(again, Success, log, log, offset, length)
  {
    HeardNothing(again, log);
  }

  lemma WritePrefixMore(f0: Content, offset: nat, data: seq<byte>, done: nat, k: nat)
    requires done + k <= |data|
    ensures WriteAt(WriteAt(f0, offset, data[..done]), offset + done, data[done..][..k])
         == WriteAt(f0, offset, data[..done + k])
  {
    var d := data[..done + k];
    WriteSplit(f0, offset, d, done);
    assert d[..done] == data[..done] && d[done..] == data[done..][..k];
  }

  lemma WriteNothing(f: Content, offset: nat)
    ensures WriteAt(f, offset, []) == f
  {
  }

  lemma WroteRecorded(c0: Counters, c: Counters, c': Counters, log0: seq<Answer>, log: seq<Answer>, bytes: int,
                      errno: int)
    requires Recorded(c0, c, log0, log) && Grown(c, c', CountOne(Wrote(bytes, errno)))
    ensures Recorded(c0, c', log0, log + [Wrote(bytes, errno)])
  {
    RecordedOne(c, c', log, Wrote(bytes, errno));
    RecordedThen(c0, c, c', log0, log, log + [Wrote(bytes, errno)]);
  }

  /** How the counters of the counting write loop move. */
  ghost predicate PosixCounted(c0: Counters, c: Counters, written: nat, finished: bool) {
    && c == c0.(syscalls := c.syscalls, syscallBytes := c.syscallBytes, syscallRetries := c.syscallRetries,
                shorts := c.shorts, zeros := c.zeros)
    && c.syscallBytes - c0.syscallBytes == written
    && (c.syscalls - c0.syscalls) - (c.shorts - c0.shorts) == (if finished && written > 0 then 1 else 0)
    && c.syscallRetries >= c0.syscallRetries
  }

  /** The short-write loop: resumes after short writes and interruptions, and stops at an error or a zero write. */
  method PosixWriteAtAll(kernel: Kernel, file: File, offset: nat, data: seq<byte>, stats: FileIoStats, budget: nat)
    returns (status: Status, ghost written: nat)
    modifies kernel, file, stats
    ensures Answered(true, status, old(kernel.log), kernel.log, offset, |data|)
    ensures Recorded(old(stats.counts), stats.counts, old(kernel.log), kernel.log)
    ensures written <= |data| && file.content == WriteAt(old(file.content), offset, data[..written])
    ensures status.Success? ==> written == |data|
    ensures status.Success? && data != [] ==> offset <= OFF_T_MAX
    ensures PosixCounted(old(stats.counts), stats.counts, written, status.Success?)
    ensures status.Pending? ==> budget < |data| + (stats.counts.syscallRetries - old(stats.counts.syscallRetries))
  {
    hide Answered, Recorded, WriteAt;
    written := 0;
    AnsweredNothing(true, kernel.log, offset, |data|);
    RecordedNothing(stats.counts, kernel.log);
    WriteNothing(file.content, offset);
    assert data[..0] == [];
    if |data| == 0 {
      return Success, 0;
    }
    if offset > OFF_T_MAX {
      AnsweredSoFar(true, kernel.log, kernel.log, offset, |data|);
      return InvalidArgument("write offset exceeds off_t range"), 0;
    }
    var completed, calls := 0, 0;
    while completed < |data|
      invariant 0 <= completed == written <= |data|
      invariant Answered(true, Success, old(kernel.log), kernel.log, offset, |data|)
      invariant Recorded(old(stats.counts), stats.counts, old(kernel.log), kernel.log)
      invariant file.content == WriteAt(old(file.content), offset, data[..completed])
      invariant PosixCounted(old(stats.counts), stats.counts, completed, completed == |data|)
      invariant 0 <= calls <= budget
      invariant calls <= completed + (stats.counts.syscallRetries - old(stats.counts.syscallRetries))
      decreases budget - calls
    {
      AnsweredSoFar(true, old(kernel.log), kernel.log, offset, |data|);
      if calls == budget {
        return Pending, written;
      }
      var currentOffset := offset + completed;
      if currentOffset > OFF_T_MAX {
        return InvalidArgument("write offset exceeds off_t range"), written;
      }
      var requested := |data| - completed;
      ghost var c, log := stats.counts, kernel.log;
      var bytes, errno := Pwrite(kernel, file, currentOffset, data[completed..]);
      AnsweredMore(true, old(kernel.log), log, Wrote(bytes, errno), offset, |data|);
      calls := calls + 1;
      if bytes > 0 {
        WritePrefixMore(old(file.content), offset, data, completed, bytes);
        stats.counts := stats.counts.Syscall(bytes);
        if bytes < requested {
          stats.counts := stats.counts.Short();
        }
        WroteRecorded(old(stats.counts), c, stats.counts, old(kernel.log), log, bytes, errno);
        completed := completed + bytes;
        written := completed;
        continue;
      }
      if bytes < 0 && IsRetryError(errno) {
        stats.counts := stats.counts.SyscallRetry();
        WroteRecorded(old(stats.counts), c, stats.counts, old(kernel.log), log, bytes, errno);
        continue;
      }
      if bytes < 0 {
        WroteRecorded(old(stats.counts), c, stats.counts, old(kernel.log), log, bytes, errno);
        return SystemError("pwrite", errno), written;
      }
      stats.counts := stats.counts.Zero();
      WroteRecorded(old(stats.counts), c, stats.counts, old(kernel.log), log, bytes, errno);
      return RuntimeError("pwrite returned zero bytes"), written;
    }
    assert data[..completed] == data;
    return Success, written;
  }

  /** The plain file's own write loop: no counters, and only EINTR is retried. */
  method FileWriteAtAll(kernel: Kernel, file: File, offset: nat, data: seq<byte>, budget: nat)
    returns (status: Status, ghost written: nat)
    modifies kernel, file
    ensures Answered(false, status, old(kernel.log), kernel.log, offset, |data|)
    ensures written <= |data| && file.content == WriteAt(old(file.content), offset, data[..written])
    ensures status.Success? ==> written == |data|
    ensures status.Success? && data != [] ==> offset <= OFF_T_MAX
  {
    hide Answered, WriteAt;
    written := 0;
    AnsweredNothing(false, kernel.log, offset, |data|);
    WriteNothing(file.content, offset);
    assert data[..0] == [];
    if |data| == 0 {
      return Success, 0;
    }
    if offset > OFF_T_MAX {
      AnsweredSoFar(false, kernel.log, kernel.log, offset, |data|);
      return InvalidArgument("write offset exceeds off_t range"), 0;
    }
    var completed, calls := 0, 0;
    while completed < |data|
      invariant 0 <= completed == written <= |data| && 0 <= calls <= budget
      invariant Answered(false, Success, old(kernel.log), kernel.log, offset, |data|)
      invariant file.content == WriteAt(old(file.content), offset, data[..completed])
      decreases budget - calls
    {
      AnsweredSoFar(false, old(kernel.log), kernel.log, offset, |data|);
      if calls == budget {
        return Pending, written;
      }
      if offset + completed > OFF_T_MAX {
        return InvalidArgument("write offset exceeds off_t range"), written;
      }
      ghost var log := kernel.log;
      var bytes, errno := Pwrite(kernel, file, offset + completed, data[completed..]);
      AnsweredMore(false, old(kernel.log), log, Wrote(bytes, errno), offset, |data|);
      calls := calls + 1;
      if bytes > 0 {
        WritePrefixMore(old(file.content), offset, data, completed, bytes);
        completed := completed + bytes;
        written := completed;
        continue;
      }
      if bytes < 0 && errno == EINTR {
        continue;
      }
      if bytes < 0 {
        return SystemError("pwrite", errno), written;
      }
      return RuntimeError("pwrite returned zero bytes"), written;
    }
    assert data[..completed] == data;
    return Success, written;
  }

  /** The first `completed` bytes of the buffer are the file's, the rest as before. */
  ghost predicate ReadSoFar(f: Content, m0: seq<byte>, m: seq<byte>, offset: nat, completed: nat) {
    && completed <= |m| == |m0|
    && (completed > 0 ==> offset + completed <= |f| && m[..completed] == f[offset..offset + completed])
    && m[completed..] == m0[completed..]
  }

  lemma ReadMore(f: Content, m0: seq<byte>, m: seq<byte>, m': seq<byte>, offset: nat, completed: nat, bytes: nat)
    requires ReadSoFar(f, m0, m, offset, completed)
    requires 0 < bytes <= |m| - completed && offset + completed + bytes <= |f|
    requires m' == m[..completed] + f[offset + completed..offset + completed + bytes] + m[completed + bytes..]
    ensures ReadSoFar(f, m0, m', offset, completed + bytes)
  {
    assert m'[..completed] == m[..completed];
    assert m'[..completed + bytes] == m[..completed] + f[offset + completed..offset + completed + bytes];
    assert m[completed + bytes..] == m[completed..][bytes..] && m0[completed + bytes..] == m0[completed..][bytes..];
  }

  lemma ReadEffect(status: Status, f: Content, m0: seq<byte>, m: seq<byte>, offset: nat, completed: nat)
    requires ReadSoFar(f, m0, m, offset, completed) && (status.Success? ==> completed == |m|)
    ensures Effect(Operation.Read, status, f, f, m0, m, offset)
  {
    forall x | 0 <= x < |m|
      ensures m[x] == m0[x] || (offset + x < |f| && m[x] == f[offset + x])
    {
      if x < completed {
        assert m[x] == m[..completed][x];
      } else {
        assert m[x] == m[completed..][x - completed];
      }
    }
    if status.Success? {
      assert m[..completed] == m;
    }
  }

  /** The read loop of the plain file: success means the buffer holds exactly the file's bytes. */
  method PosixReadAtAll(kernel: Kernel, file: File, offset: nat, memory: array<byte>, budget: nat)
    returns (status: Status)
    modifies kernel, memory
    ensures Answered(false, status, old(kernel.log), kernel.log, offset, memory.Length)
    ensures old(kernel.log) <= kernel.log
    ensures forall i :: |old(kernel.log)| <= i < |kernel.log| ==> kernel.log[i].Got?
    ensures Effect(Operation.Read, status, file.content, file.content, old(memory[..]), memory[..], offset)
  {
    hide Answered, ReadSoFar, Effect, Refusal;
    AnsweredNothing(false, kernel.log, offset, memory.Length);
    ghost var f, m0 := file.content, memory[..];
    var completed, calls := 0, 0;
    ReadNothing(f, m0, offset);
    while completed < memory.Length
      invariant 0 <= completed <= memory.Length && 0 <= calls <= budget
      invariant Answered(false, Success, old(kernel.log), kernel.log, offset, memory.Length)
      invariant old(kernel.log) <= kernel.log
      invariant forall i :: |old(kernel.log)| <= i < |kernel.log| ==> kernel.log[i].Got?
      invariant ReadSoFar(f, m0, memory[..], offset, completed)
      decreases budget - calls
    {
      AnsweredSoFar(false, old(kernel.log), kernel.log, offset, memory.Length);
      if calls == budget {
        ReadEffect(Pending, f, m0, memory[..], offset, completed);
        return Pending;
      }
      if offset + completed > OFF_T_MAX {
        status := InvalidArgument("read offset exceeds off_t range");
        ReadEffect(status, f, m0, memory[..], offset, completed);
        return;
      }
      ghost var before, log := memory[..], kernel.log;
      var bytes, errno := Pread(kernel, file, offset + completed, memory, completed);
      calls := calls + 1;
      GotAnswered(old(kernel.log), log, bytes, errno, offset, memory.Length);
      if bytes < 0 {
        if errno == EINTR {
          continue;
        }
        status := SystemError("pread", errno);
        ReadEffect(status, f, m0, memory[..], offset, completed);
        return;
      }
      if bytes == 0 {
        status := RuntimeError("unexpected EOF while reading file");
        ReadEffect(status, f, m0, memory[..], offset, completed);
        return;
      }
      ReadMore(f, m0, before, memory[..], offset, completed, bytes);
      completed := completed + bytes;
    }
    ReadEffect(Success, f, m0, memory[..], offset, completed);
    return Success;
  }

  lemma ReadNothing(f: Content, m: seq<byte>, offset: nat)
    ensures ReadSoFar(f, m, m, offset, 0)
  {
  }

  lemma GotAnswered(log0: seq<Answer>, log: seq<Answer>, bytes: int, errno: int, offset: nat, length: nat)
    requires Answered(false, Success, log0, log, offset, length)
    ensures var status := if bytes > 0 || (bytes < 0 && errno == EINTR) then Success
                          else if bytes < 0 then SystemError("pread", errno)
                          else RuntimeError("unexpected EOF while reading file");
      Answered(false, status, log0, log + [Got(bytes, errno)], offset, length)
  {
    hide Answered;
    AnsweredMore(false, log0, log, Got(bytes, errno), offset, length);
  }

  // ----- Dispatch -----

  datatype Backend = Posix | Uring

  datatype WriteStrategy = Auto | Direct | Coalesced

  datatype Config = Config(backend: Backend, bufferSize: uint64, queueDepth: uint64, batchSize: uint64,
                           strategy: WriteStrategy)

  function EffectiveStrategy(c: Config): (s: WriteStrategy)
    ensures !s.Auto?
  {
    if c.strategy.Direct? then Direct
    else if c.strategy.Coalesced? then Coalesced
    else if c.bufferSize > 0 then Coalesced else Direct
  }

  /** `uringBuilt` tells whether the program was built with liburing. */
  predicate Available(c: Config, uringBuilt: bool) {
    && 1 <= c.queueDepth <= 256 && 1 <= c.batchSize <= 256
    && !(c.strategy.Coalesced? && c.bufferSize == 0)
    && (c.backend.Uring? ==> uringBuilt)
  }

  function ValidateAvailable(c: Config, uringBuilt: bool): (s: Status)
    ensures s.Success? <==> Available(c, uringBuilt)
    ensures !s.Success? ==> s.InvalidArgument? || (s.RuntimeError? && c.backend.Uring? && !uringBuilt)
  {
    if c.queueDepth == 0 || c.queueDepth > 256 then InvalidArgument("file IO queue depth must be in range 1..256")
    else if c.batchSize == 0 || c.batchSize > 256 then InvalidArgument("file IO batch size must be in range 1..256")
    else if c.strategy.Coalesced? && c.bufferSize == 0
    then InvalidArgument("posix write strategy coalesced requires --file-io-buffer-size > 0")
    else if c.backend.Posix? || uringBuilt then Success
    else RuntimeError("file IO backend unavailable: io_uring")
  }

  /** Nothing was counted on the ring side, or nothing on the system call side, whichever is not the backend. */
  ghost predicate OnBackend(b: Backend, c0: Counters, c: Counters) {
    match b
    case Posix =>
      && c.submits == c0.submits && c.sqes == c0.sqes && c.waits == c0.waits && c.completions == c0.completions
      && c.completionBytes == c0.completionBytes && c.partials == c0.partials && c.retries == c0.retries
    case Uring =>
      && c.syscalls == c0.syscalls && c.syscallBytes == c0.syscallBytes && c.syscallRetries == c0.syscallRetries
      && c.shorts == c0.shorts && c.zeros == c0.zeros
  }

  /** How the counters of one dispatched write move; a failed write is recorded like a successful one. */
  ghost predicate WriteCounted(c: Config, c0: Counters, c1: Counters, length: nat, status: Status) {
    && OnBackend(c.backend, c0, c1) && c1.readCalls == c0.readCalls && c1.readBytes == c0.readBytes
    && (!status.Pending? && length > 0 ==>
          c1.writeCalls == c0.writeCalls + 1 && c1.writeBytes == c0.writeBytes + length)
    && (length == 0 ==> c1.writeCalls == c0.writeCalls && c1.writeBytes == c0.writeBytes)
    && (c.backend.Posix? && status.Success? ==>
          && (c1.syscalls - c0.syscalls) - (c1.shorts - c0.shorts) == c1.writeCalls - c0.writeCalls
          && c1.syscallBytes - c0.syscallBytes == length)
    && (c.backend.Uring? && status.Success? ==> c1.completionBytes - c0.completionBytes == length)
    && (!status.Pending? ==> c1.syscallBytes - c0.syscallBytes <= c1.writeBytes - c0.writeBytes)
  }

  method WriteAtAll(kernel: Kernel, file: File, offset: uint64, data: seq<byte>, config: Config, uringBuilt: bool,
                    stats: FileIoStats, budget: nat)
    returns (status: Status)
    requires |data| <= OFF_T_MAX + 1
    modifies kernel, file, stats
    ensures Partial(old(file.content), file.content, offset, data)
    ensures status.Success? ==>
      file.content == WriteAt(old(file.content), offset, data) && Available(config, uringBuilt)
    ensures status.Success? && data != [] ==> offset <= OFF_T_MAX
    ensures Available(config, uringBuilt) ==>
      && WriteCounted(config, old(stats.counts), stats.counts, |data|, status)
      && Answered(true, status, old(kernel.log), kernel.log, offset, |data|)
      && Recorded(old(stats.counts), stats.counts, old(kernel.log), kernel.log)
    ensures !Available(config, uringBuilt) ==>
      && status == ValidateAvailable(config, uringBuilt) && kernel.log == old(kernel.log)
      && stats.counts == old(stats.counts) && file.content == old(file.content)
  {
    hide Answered, Recorded;
    PartialRefl(file.content, offset, data);
    status := ValidateAvailable(config, uringBuilt);
    if !status.Success? {
      return;
    }
    match config.backend {
      case Posix =>
        ghost var written;
        status, written := PosixWriteAtAll(kernel, file, offset, data, stats, budget);
        WritePartial(old(file.content), offset, data, written);
        assert data[..|data|] == data;
      case Uring =>
        var memory := new byte[|data|](i requires 0 <= i < |data| => data[i]);
        assert memory[..] == data;
        ghost var waitRetries, left;
        status, waitRetries, left := TransferAtAll(kernel, Operation.Write, file, offset, memory, config.queueDepth,
                                                   config.batchSize, stats, budget);
        ToldAnswered(status, old(stats.counts), stats.counts, old(kernel.log), kernel.log, offset, |data|);
    }
    if |data| > 0 && !status.Pending? {
      ghost var c := stats.counts;
      stats.counts := stats.counts.Write(|data|);
      CallsUncounted(old(stats.counts), c, stats.counts, old(kernel.log), kernel.log);
    }
  }

  lemma ToldAnswered(status: Status, c0: Counters, c: Counters, log0: seq<Answer>, log: seq<Answer>, offset: uint64,
                     length: nat)
    requires length <= OFF_T_MAX + 1
    requires status.InvalidArgument? <==> length > 0 && !RangeAddressable(offset, length)
    requires Told(if status.InvalidArgument? then Success else status, c0, c, log0, log)
    ensures Answered(true, status, log0, log, offset, length) && Recorded(c0, c, log0, log)
  {
  }

  /** The counters of calls are not those of answers. */
  lemma CallsUncounted(c0: Counters, c: Counters, c': Counters, log0: seq<Answer>, log: seq<Answer>)
    requires c' == c.(writeCalls := c'.writeCalls, writeBytes := c'.writeBytes,
                      readCalls := c'.readCalls, readBytes := c'.readBytes)
    ensures Recorded(c0, c, log0, log) ==> Recorded(c0, c', log0, log)
  {
  }

  method ReadAtAll(kernel: Kernel, file: File, offset: uint64, memory: array<byte>, config: Config, uringBuilt: bool,
                   stats: FileIoStats, budget: nat)
    returns (status: Status)
    requires memory.Length <= OFF_T_MAX + 1
    modifies kernel, file, memory, stats
    ensures Effect(Operation.Read, status, old(file.content), file.content, old(memory[..]), memory[..], offset)
    ensures Available(config, uringBuilt) ==>
      && Answered(config.backend.Uring?, status, old(kernel.log), kernel.log, offset, memory.Length)
      && Recorded(old(stats.counts), stats.counts, old(kernel.log), kernel.log)
      && OnBackend(config.backend, old(stats.counts), stats.counts)
      && stats.counts.writeCalls == old(stats.counts.writeCalls)
      && stats.counts.writeBytes == old(stats.counts.writeBytes)
    ensures Available(config, uringBuilt) && !status.Pending? && memory.Length > 0 ==>
      && stats.counts.readCalls == old(stats.counts.readCalls) + 1
      && stats.counts.readBytes == old(stats.counts.readBytes) + memory.Length
    ensures !Available(config, uringBuilt) ==>
      && status == ValidateAvailable(config, uringBuilt) && kernel.log == old(kernel.log)
      && stats.counts == old(stats.counts) && memory[..] == old(memory[..])
  {
    hide Answered, Recorded, Effect;
    status := ValidateAvailable(config, uringBuilt);
    if !status.Success? {
      EffectNone(status, file.content, memory[..], offset);
      return;
    }
    match config.backend {
      case Posix =>
        status := PosixReadAtAll(kernel, file, offset, memory, budget);
        ReadsRecorded(stats.counts, old(kernel.log), kernel.log);
      case Uring =>
        ghost var waitRetries, left;
        status, waitRetries, left := TransferAtAll(kernel, Operation.Read, file, offset, memory, config.queueDepth,
                                                   config.batchSize, stats, budget);
        ToldAnswered(status, old(stats.counts), stats.counts, old(kernel.log), kernel.log, offset, memory.Length);
    }
    if memory.Length > 0 && !status.Pending? {
      ghost var c := stats.counts;
      stats.counts := stats.counts.Read(memory.Length);
      CallsUncounted(old(stats.counts), c, stats.counts, old(kernel.log), kernel.log);
    }
  }

  lemma EffectNone(status: Status, f: Content, m: seq<byte>, offset: nat)
    requires !status.Success?
    ensures Effect(Operation.Read, status, f, f, m, m, offset)
  {
  }

  lemma {:induction false} ReadsUncounted(answers: seq<Answer>)
    requires forall i :: 0 <= i < |answers| ==> answers[i].Got?
    ensures CountAll(answers) == NONE
    decreases |answers|
  {
    hide CountAll;
    CountFront(Got(0, 0), []);
    if answers != [] {
      assert answers == [answers[0]] + answers[1..];
      CountFront(answers[0], answers[1..]);
      ReadsUncounted(answers[1..]);
      PlusAssociates(NONE, NONE, NONE);
    }
  }

  lemma ReadsRecorded(c: Counters, log0: seq<Answer>, log: seq<Answer>)
    requires log0 <= log && forall i :: |log0| <= i < |log| ==> log[i].Got?
    ensures Recorded(c, c, log0, log)
  {
    ReadsUncounted(log[|log0|..]);
  }

  // ----- The backends agree -----

  /** On equal files, a successful io_uring write and a successful POSIX write leave equal files. */
  method WritesAgree(kernel: Kernel, a: File, b: File, offset: uint64, data: seq<byte>, queueDepth: uint64,
                     batchSize: uint64, stats: FileIoStats, budget: nat)
    returns (posix: Status, uring: Status)
    requires a != b && a.content == b.content && |data| <= OFF_T_MAX + 1
    modifies kernel, a, b, stats
    ensures posix.Success? && uring.Success? ==> a.content == b.content == WriteAt(old(a.content), offset, data)
  {
    ghost var written, waitRetries, left;
    posix, written := PosixWriteAtAll(kernel, a, offset, data, stats, budget);
    assert data[..|data|] == data;
    var memory := new byte[|data|](i requires 0 <= i < |data| => data[i]);
    assert memory[..] == data;
    uring, waitRetries, left := TransferAtAll(kernel, Operation.Write, b, offset, memory, queueDepth, batchSize, stats,
                                              budget);
  }

  /** A successful io_uring read and a successful POSIX read of the same range deliver the same bytes. */
  method ReadsAgree(kernel: Kernel, file: File, offset: uint64, x: array<byte>, y: array<byte>, queueDepth: uint64,
                    batchSize: uint64, stats: FileIoStats, budget: nat)
    returns (posix: Status, uring: Status)
    requires x != y && 0 < x.Length == y.Length <= OFF_T_MAX + 1
    modifies kernel, file, x, y, stats
    ensures file.content == old(file.content)
    ensures posix.Success? && uring.Success? ==> x[..] == y[..]
  {
    ghost var waitRetries, left;
    posix := PosixReadAtAll(kernel, file, offset, x, budget);
    uring, waitRetries, left := TransferAtAll(kernel, Operation.Read, file, offset, y, queueDepth, batchSize, stats,
                                              budget);
  }
}
