/** The incremental checksum object used while chunks stream in. */
module Checksum {
  import opened Common
  import opened Crc32c

  datatype ChecksumAlgorithm = NoChecksum | Castagnoli

  datatype ChecksumBackend = Auto | Software | Hardware

  function AlgorithmName(a: ChecksumAlgorithm): string {
    match a
    case NoChecksum => "none"
    case Castagnoli => "crc32c"
  }

  function ParseAlgorithm(text: string): Result<ChecksumAlgorithm> {
    if text == "none" then Ok(NoChecksum)
    else if text == "crc32c" then Ok(Castagnoli)
    else Err("unsupported checksum algorithm")
  }

  function ResolveBackend(a: ChecksumAlgorithm, requested: ChecksumBackend, available: bool): Result<ChecksumBackend> {
    if a.NoChecksum? then Ok(Software)
    else match requested
      case Software => Ok(Software)
      case Hardware => if available then Ok(Hardware) else Err("CRC32C hardware backend is not available")
      case Auto => Ok(if available then Hardware else Software)
  }

  /** `available` and `wide` describe the machine: the CPU feature test and the 64-bit build. */
  class ChecksumComputer {
    const algorithm: ChecksumAlgorithm
    const backend: ChecksumBackend
    const table: array<Register>
    const available: bool
    const wide: bool
    var state: Register
    ghost var Fed: seq<byte>  // everything fed since the last reset

    ghost predicate Valid()
      reads this, table
    {
      && IsTable(table[..])
      && |state| == 32
      && (algorithm.Castagnoli? ==> state == Update(INITIAL_STATE, Fed))
    }

    constructor (algorithm: ChecksumAlgorithm, requested: ChecksumBackend, table: array<Register>, available: bool,
                 wide: bool)
      requires IsTable(table[..])
      ensures Valid() && Fed == [] && this.algorithm == algorithm && this.table == table
    {
      var resolved := ResolveBackend(algorithm, requested, available);
      this.algorithm := algorithm;
      this.backend := if resolved.Ok? then resolved.value else Software;
      this.table, this.available, this.wide := table, available, wide;
      this.state := if algorithm.NoChecksum? then Zeros(32) else INITIAL_STATE;
      this.Fed := [];
    }

    method Reset()
      requires Valid()
      modifies this
      ensures Valid() && Fed == []
    {
      state := if algorithm.NoChecksum? then Zeros(32) else INITIAL_STATE;
      Fed := [];
    }

    method Feed(data: seq<byte>)
      requires Valid()
      modifies this
      ensures Valid() && Fed == old(Fed) + data
    {
      UpdateConcat(INITIAL_STATE, Fed, data);
      Fed := Fed + data;
      if algorithm.NoChecksum? {
        return;
      }
      match backend
      case Hardware =>
        state := UpdateHardware(table, available, wide, state, data);
      case Software =>
        state := UpdateSoftware(table, state, data);
      case Auto =>
        if available {
          state := UpdateHardware(table, available, wide, state, data);
        } else {
          state := UpdateSoftware(table, state, data);
        }
    }

    /** However the data was split, the value is the one-shot checksum of all of it. */
    method Value() returns (value: Bits)
      requires Valid()
      ensures algorithm.Castagnoli? ==> value == Crc32c.Checksum(Fed)
      ensures algorithm.NoChecksum? ==> value == Zeros(32)
    {
      value := if algorithm.NoChecksum? then Zeros(32) else Finalize(state);
    }
  }
}
