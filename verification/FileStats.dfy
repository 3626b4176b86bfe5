/** Status values of the storage layer and its counters. */
module FileStats {
  import opened Common

  /** `Pending` is not a value of the source: it marks a call that has not returned yet. */
  datatype Status =
    | Success
    | InvalidArgument(message: string)
    | RuntimeError(message: string)
    | SystemError(message: string, errno: int)
    | Pending

  const EINTR := 4
  const EAGAIN := 11

  predicate IsRetryError(error: int) {
    error == EINTR || error == EAGAIN
  }

  datatype Counters = Counters(
    readCalls: int, readBytes: int, writeCalls: int, writeBytes: int,
    submits: int, sqes: int, waits: int, completions: int, completionBytes: int, partials: int, retries: int,
    syscalls: int, syscallBytes: int, syscallRetries: int, shorts: int, zeros: int)
  {
    function Read(bytes: int): Counters { this.(readCalls := readCalls + 1, readBytes := readBytes + bytes) }
    function Write(bytes: int): Counters { this.(writeCalls := writeCalls + 1, writeBytes := writeBytes + bytes) }
    function Submit(n: int): Counters { this.(submits := submits + 1, sqes := sqes + n) }
    function Wait(): Counters { this.(waits := waits + 1) }
    function Completion(bytes: int): Counters {
      this.(completions := completions + 1, completionBytes := completionBytes + bytes)
    }
    function PartialCompletion(): Counters { this.(partials := partials + 1) }
    function Retry(): Counters { this.(retries := retries + 1) }
    function Syscall(bytes: int): Counters { this.(syscalls := syscalls + 1, syscallBytes := syscallBytes + bytes) }
    function SyscallRetry(): Counters { this.(syscallRetries := syscallRetries + 1) }
    function Short(): Counters { this.(shorts := shorts + 1) }
    function Zero(): Counters { this.(zeros := zeros + 1) }
  }

  class FileIoStats {
    var counts: Counters

    constructor ()
      ensures counts == Counters(0, 0, 0, 0, 0, 0, 0, 0, 0, 0, 0, 0, 0, 0, 0, 0)
    {
      counts := Counters(0, 0, 0, 0, 0, 0, 0, 0, 0, 0, 0, 0, 0, 0, 0, 0);
    }
  }
}
