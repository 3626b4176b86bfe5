/** The upload manifest: printer, fast printer, parser, and how they relate. */
module TransferManifests {
  import opened Common
  import opened TextCodec
  import opened RangeLists
  import opened Checksum
  import opened Progress
  import opened ProgressText
  import opened ManifestText
  import opened ManifestKeys
  import Crc32c
  import CrcDetection

  const VERSION_1: uint32 := 1
  const VERSION_2: uint32 := 2

  datatype Manifest = Manifest(
    version: uint32,
    transferId: string,
    outputPath: string,
    tempPath: string,
    totalSize: uint64,
    chunkSize: uint64,
    algorithm: ChecksumAlgorithm,
    createdAt: uint64,
    updatedAt: uint64,
    state: ManifestState,
    completedRanges: seq<Range>,
    verifiedChunks: seq<Record>)

  // ----- Printing -----

  const KEYS: seq<string> := [
    "manifest_version", "transfer_id", "output_path_hex", "temp_path_hex", "total_size", "chunk_size",
    "checksum_algorithm", "created_at_unix_ns", "updated_at_unix_ns", "state", "completed_ranges", "verified_chunks"]

  function Values(m: Manifest): (vs: seq<string>)
    ensures |vs| == 12
  {
    [Decimal(m.version), m.transferId, ToHex(m.outputPath), ToHex(m.tempPath),
     Decimal(m.totalSize), Decimal(m.chunkSize), AlgorithmName(m.algorithm),
     Decimal(m.createdAt), Decimal(m.updatedAt), StateName(m.state),
     RangesText(m.completedRanges), ChunksText(m.verifiedChunks)]
  }

  function Entries(m: Manifest): (es: seq<Entry>)
    ensures |es| == 12 && forall i :: 0 <= i < 12 ==> es[i] == Entry(KEYS[i], Values(m)[i])
  {
    seq(12, i requires 0 <= i < 12 => Entry(KEYS[i], Values(m)[i]))
  }

  function CheckHeader(m: Manifest): Result<()> {
    if m.version != VERSION_2 then Err("serializer only writes manifest version 2")
    else if !IsValidTransferId(m.transferId) then Err("invalid transfer_id")
    else if m.outputPath == "" || m.tempPath == "" then Err("manifest paths must not be empty")
    else if m.chunkSize == 0 then Err("manifest chunk_size must be greater than zero")
    else Ok(())
  }

  /** The fast printer: trusts the lists it is given. */
  function SerializePrepared(m: Manifest): Result<string> {
    var _ :- CheckHeader(m);
    Ok(Sealed(Body(Entries(m))))
  }

  /** The full printer: sorts the chunks and derives the ranges from them. */
  function Serialize(m: Manifest): Result<string> {
    var _ :- CheckHeader(m);
    var chunks := Sorted(m.verifiedChunks);
    var derived :- InsertAll([], Sorted(chunks), m.totalSize);
    Ok(Sealed(Body(Entries(m.(verifiedChunks := chunks, completedRanges := derived)))))
  }

  // ----- Parsing -----

  const REQUIRED: seq<string> := [
    "transfer_id", "output_path_hex", "temp_path_hex", "total_size", "chunk_size",
    "created_at_unix_ns", "updated_at_unix_ns", "state", "completed_ranges"]

  const REQUIRED_V2: seq<string> := ["checksum_algorithm", "verified_chunks", CRC_KEY]

  /** Everything but progress and algorithm, checked in the parser's order. */
  function DecodeHeader(values: map<string, string>, version: uint32): Result<Manifest> {
    var transferId := Get(values, "transfer_id");
    if !IsValidTransferId(transferId) then Err("invalid transfer_id") else
      var outputPath :- FromHexString(Get(values, "output_path_hex"));
      var tempPath :- FromHexString(Get(values, "temp_path_hex"));
      if outputPath == "" || tempPath == "" then Err("manifest paths must not be empty") else
        var totalSize :- ParseU64(Get(values, "total_size"));
        var chunkSize :- ParseU64(Get(values, "chunk_size"));
        var createdAt :- ParseU64(Get(values, "created_at_unix_ns"));
        var updatedAt :- ParseU64(Get(values, "updated_at_unix_ns"));
        var state :- ParseState(Get(values, "state"));
        if chunkSize == 0 then Err("manifest chunk_size must be greater than zero") else
          Ok(Manifest(version, transferId, outputPath, tempPath, totalSize, chunkSize, NoChecksum,
                      createdAt, updatedAt, state, [], []))
  }

  function DecodeV1(values: map<string, string>): Result<Manifest> {
    var m :- DecodeHeader(values, VERSION_1);
    var ranges :- ParseRanges(Get(values, "completed_ranges"), [], m.totalSize);
    Ok(m.(completedRanges := ranges))
  }

  function DecodeV2(values: map<string, string>): Result<Manifest> {
    var m :- DecodeHeader(values, VERSION_2);
    var algorithm :- ParseAlgorithm(Get(values, "checksum_algorithm"));
    var progress :- ParseProgress(Get(values, "completed_ranges"), Get(values, "verified_chunks"), m.totalSize,
                                  algorithm);
    Ok(m.(algorithm := algorithm, completedRanges := progress.0, verifiedChunks := progress.1))
  }

  function Decode(f: Fields): Result<Manifest> {
    if "manifest_version" !in f.values then Err("manifest missing key: manifest_version") else
      var version :- ParseU64(Get(f.values, "manifest_version"));
      if version != VERSION_1 && version != VERSION_2 then Err("unsupported manifest version")
      else if !HasKeys(f.values, REQUIRED) then Err("manifest missing key")
      else if version == VERSION_1 then DecodeV1(f.values)
      else if !HasKeys(f.values, REQUIRED_V2) then Err("manifest missing key")
      else
        var _ :- CheckCrc(f);
        DecodeV2(f.values)
  }

  function Parse(text: string): Result<Manifest> {
    var f :- ParseFields(text, NO_FIELDS);
    Decode(f)
  }

  // ----- The keys and values are fit for the line format -----

  lemma KeyFacts(i: nat)
    requires i < 12
    ensures KeyChars(KEYS[i]) && Rank(KEYS[i]) == i
  {
    hide Rank, KeyChars;
    IdentityKeys();
    SizeKeys();
    TimeKeys();
    ProgressKeys();
    PathKeys();
    HeaderRanks();
    ProgressRanks();
    if i < 6 {
      assert i == 0 || i == 1 || i == 2 || i == 3 || i == 4 || i == 5;
    } else {
      assert i == 6 || i == 7 || i == 8 || i == 9 || i == 10 || i == 11;
    }
  }

  ghost predicate HeaderOk(m: Manifest) {
    CheckHeader(m).Ok? && IsBytes(m.outputPath) && IsBytes(m.tempPath)
  }

  lemma ValuesPrintable(m: Manifest, i: nat)
    requires HeaderOk(m) && i < 12
    ensures Printable(Values(m)[i])
  {
    hide Decimal, ToHex, AlgorithmName, StateName, RangesText, ChunksText, Printable;
    DecimalPrintable(m.version);
    DecimalPrintable(m.totalSize);
    DecimalPrintable(m.chunkSize);
    DecimalPrintable(m.createdAt);
    DecimalPrintable(m.updatedAt);
    IdPrintable(m.transferId);
    HexRoundTrip(m.outputPath);
    HexRoundTrip(m.tempPath);
    AlgorithmRoundTrip(m.algorithm);
    StateRoundTrip(m.state);
    PlainPrintable(ToHex(m.outputPath));
    PlainPrintable(ToHex(m.tempPath));
    PlainPrintable(AlgorithmName(m.algorithm));
    PlainPrintable(StateName(m.state));
    RangesTextPrintable(m.completedRanges);
    ChunksTextPrintable(m.verifiedChunks);
    var vs := Values(m);
    if i < 6 {
      assert i == 0 || i == 1 || i == 2 || i == 3 || i == 4 || i == 5;
    } else {
      assert i == 6 || i == 7 || i == 8 || i == 9 || i == 10 || i == 11;
    }
  }

  /** Entries with this manifest kind's keys and any one-line values. */
  ghost predicate Keyed(es: seq<Entry>) {
    |es| == 12 && forall i :: 0 <= i < 12 ==> es[i].key == KEYS[i] && '\n' !in es[i].value
  }

  lemma KeyedGood(es: seq<Entry>)
    requires Keyed(es)
    ensures GoodEntries(es)
  {
    hide Rank, KEYS;
    forall i | 0 <= i < 12
      ensures GoodEntry(es[i]) && Rank(es[i].key) == i
    {
      KeyFacts(i);
      DownloadRanks();
    }
  }

  lemma EntriesKeyed(m: Manifest)
    requires HeaderOk(m)
    ensures Keyed(Entries(m))
  {
    hide Values;
    forall i | 0 <= i < 12
      ensures Entries(m)[i].key == KEYS[i] && '\n' !in Entries(m)[i].value
    {
      ValuesPrintable(m, i);
    }
  }

  lemma KeyedAt(es: seq<Entry>, crc: string, i: nat)
    requires Keyed(es) && i < 12
    ensures KEYS[i] in FieldsOf(es, crc).values && Get(FieldsOf(es, crc).values, KEYS[i]) == es[i].value
  {
    hide KEYS, FieldsOf, Get;
    KeyedGood(es);
    FieldsOfAt(es, crc, i);
  }

  /** All required keys are present, each with its own value. */
  lemma KeyedLookup(es: seq<Entry>, crc: string)
    requires Keyed(es)
    ensures var v := FieldsOf(es, crc).values;
      && "manifest_version" in v && HasKeys(v, REQUIRED) && HasKeys(v, REQUIRED_V2)
      && Get(v, "manifest_version") == es[0].value && Get(v, "transfer_id") == es[1].value
      && Get(v, "output_path_hex") == es[2].value && Get(v, "temp_path_hex") == es[3].value
      && Get(v, "total_size") == es[4].value && Get(v, "chunk_size") == es[5].value
      && Get(v, "checksum_algorithm") == es[6].value && Get(v, "created_at_unix_ns") == es[7].value
      && Get(v, "updated_at_unix_ns") == es[8].value && Get(v, "state") == es[9].value
      && Get(v, "completed_ranges") == es[10].value && Get(v, "verified_chunks") == es[11].value
  {
    var v := FieldsOf(es, crc).values;
    assert CRC_KEY in v;
    hide FieldsOf, Get, Keyed;
    KeyedAt(es, crc, 0);
    KeyedAt(es, crc, 1);
    KeyedAt(es, crc, 2);
    KeyedAt(es, crc, 3);
    KeyedAt(es, crc, 4);
    KeyedAt(es, crc, 5);
    KeyedAt(es, crc, 6);
    KeyedAt(es, crc, 7);
    KeyedAt(es, crc, 8);
    KeyedAt(es, crc, 9);
    KeyedAt(es, crc, 10);
    KeyedAt(es, crc, 11);
  }

  /** A text of keyed entries and a checksum line reaches `Decode` with those fields. */
  lemma ParseKeyed(es: seq<Entry>, crc: string)
    requires Keyed(es) && '\n' !in crc
    ensures Parse(Body(es) + Line(Entry(CRC_KEY, crc))) == Decode(FieldsOf(es, crc))
  {
    hide Decode, FieldsOf, Body, Line, ParseFields;
    KeyedGood(es);
    ParseEntries(es, crc);
  }

  // ----- Round trip -----

  function HeaderOf(m: Manifest): Manifest {
    m.(algorithm := NoChecksum, completedRanges := [], verifiedChunks := [])
  }

  /** Entries that agree with the manifest's on the header lines. */
  ghost predicate HeaderEntries(m: Manifest, es: seq<Entry>) {
    && Keyed(es) && es[1].value == m.transferId && es[2].value == ToHex(m.outputPath)
    && es[3].value == ToHex(m.tempPath) && es[4].value == Decimal(m.totalSize) && es[5].value == Decimal(m.chunkSize)
    && es[7].value == Decimal(m.createdAt) && es[8].value == Decimal(m.updatedAt) && es[9].value == StateName(m.state)
  }

  lemma HeaderReads(m: Manifest, es: seq<Entry>, crc: string, version: uint32)
    requires HeaderOk(m) && HeaderEntries(m, es)
    ensures DecodeHeader(FieldsOf(es, crc).values, version) == Ok(HeaderOf(m).(version := version))
  {
    hide FieldsOf, Get, ParseU64, FromHexString, ToHex, Decimal, StateName, ParseState, HasKeys;
    KeyedLookup(es, crc);
    HexRoundTrip(m.outputPath);
    HexRoundTrip(m.tempPath);
    ParseDecimal(m.totalSize);
    ParseDecimal(m.chunkSize);
    ParseDecimal(m.createdAt);
    ParseDecimal(m.updatedAt);
    StateRoundTrip(m.state);
  }

  lemma OwnHeaderEntries(m: Manifest)
    requires HeaderOk(m)
    ensures HeaderEntries(m, Entries(m)) && Keyed(Entries(m))
    ensures Entries(m)[0].value == Decimal(m.version) && Entries(m)[6].value == AlgorithmName(m.algorithm)
    ensures Entries(m)[10].value == RangesText(m.completedRanges)
    ensures Entries(m)[11].value == ChunksText(m.verifiedChunks)
  {
    hide Decimal, ToHex, AlgorithmName, StateName, RangesText, ChunksText, Keyed;
    EntriesKeyed(m);
  }

  ghost predicate ProgressOk(m: Manifest) {
    Consistent(m.completedRanges, m.verifiedChunks, m.totalSize, m.algorithm)
  }

  /** The manifest with its chunks sorted and its ranges derived from them. */
  function Normalized(m: Manifest): Manifest
    requires InsertAll([], m.verifiedChunks, m.totalSize).Ok?
  {
    m.(verifiedChunks := Sorted(m.verifiedChunks), completedRanges := Derived(m.verifiedChunks, m.totalSize))
  }

  lemma DecodeOwn(m: Manifest, crc: string)
    requires HeaderOk(m)
    ensures var d := DecodeV2(FieldsOf(Entries(m), crc).values);
      && (d.Ok? <==> ProgressOk(m))
      && (d.Ok? ==> InsertAll([], m.verifiedChunks, m.totalSize).Ok? && d == Ok(Normalized(m)))
  {
    hide FieldsOf, DecodeHeader, Entries, Keyed, HeaderEntries, ParseProgress, ParseAlgorithm, AlgorithmName,
      RangesText, ChunksText, InsertAll, Sorted, Get, HasKeys;
    OwnHeaderEntries(m);
    HeaderReads(m, Entries(m), crc, VERSION_2);
    KeyedLookup(Entries(m), crc);
    AlgorithmRoundTrip(m.algorithm);
    ProgressReads(m.completedRanges, m.verifiedChunks, m.totalSize, m.algorithm);
  }

  /**
    The fast printer's output is accepted exactly when its progress is consistent (both lists cover the
    same bytes, the chunks are disjoint, in range and of the manifest's algorithm); it then comes back
    with the chunks sorted and the ranges derived.
   */
  lemma PreparedReads(m: Manifest)
    requires HeaderOk(m)
    ensures SerializePrepared(m).Ok?
    ensures var text := SerializePrepared(m).value;
      && (Parse(text).Ok? <==> ProgressOk(m))
      && (Parse(text).Ok? ==> InsertAll([], m.verifiedChunks, m.totalSize).Ok? && Parse(text) == Ok(Normalized(m)))
  {
    hide FieldsOf, Entries, Body, Line, DecodeV1, DecodeV2, CheckCrc, Parse, Keyed, HeaderEntries, HasKeys,
      Get, ParseU64, Decimal, ProgressOk, InsertAll, Hex32;
    var es := Entries(m);
    var crc := Hex32(BodyCrc(Body(es)));
    OwnHeaderEntries(m);
    PlainFree(crc);
    ParseKeyed(es, crc);
    KeyedLookup(es, crc);
    ParseDecimal(m.version);
    SealedChecks(es);
    DecodeOwn(m, crc);
  }

  /** The full printer succeeds exactly on disjoint in-range chunks, and is then the fast printer of the normal form. */
  lemma SerializeNormalizes(m: Manifest)
    ensures Serialize(m).Ok? <==> CheckHeader(m).Ok? && Disjoint(m.verifiedChunks, m.totalSize)
    ensures Serialize(m).Ok? ==> InsertAll([], m.verifiedChunks, m.totalSize).Ok?
    ensures Serialize(m).Ok? ==> Serialize(m) == SerializePrepared(Normalized(m))
  {
    hide InsertAll, Sorted, Entries, Body, Sealed;
    NormalForm(m.verifiedChunks, m.totalSize, m.algorithm);
  }

  /** Parsing the full printer's output gives the manifest back in normal form. */
  lemma RoundTrip(m: Manifest)
    requires HeaderOk(m) && Disjoint(m.verifiedChunks, m.totalSize)
    ensures Serialize(m).Ok? && InsertAll([], m.verifiedChunks, m.totalSize).Ok?
    ensures SameAlgorithm(m.verifiedChunks, m.algorithm) ==> Parse(Serialize(m).value) == Ok(Normalized(m))
    ensures !SameAlgorithm(m.verifiedChunks, m.algorithm) ==> Parse(Serialize(m).value).Err?
  {
    hide Parse, Serialize, SerializePrepared, InsertAll, Sorted;
    SerializeNormalizes(m);
    NormalForm(m.verifiedChunks, m.totalSize, m.algorithm);
    PreparedReads(Normalized(m));
  }

  /** The order in which chunks were recorded leaves no trace in the file. */
  lemma PermutationInvariant(m: Manifest, chunks: seq<Record>)
    requires multiset(chunks) == multiset(m.verifiedChunks) && Serialize(m).Ok?
    ensures Serialize(m.(verifiedChunks := chunks)) == Serialize(m)
  {
    hide InsertAll, Sorted, Entries, Body, Sealed;
    SerializeNormalizes(m);
    PermutationSorts(m.verifiedChunks, chunks, m.totalSize);
  }

  /** On normal-form progress the fast printer writes byte for byte what the full printer writes. */
  lemma PreparedAgrees(m: Manifest)
    requires IsSorted(m.verifiedChunks) && Disjoint(m.verifiedChunks, m.totalSize)
    requires InsertAll([], m.verifiedChunks, m.totalSize) == Ok(m.completedRanges)
    ensures SerializePrepared(m) == Serialize(m)
  {
    hide InsertAll, Sorted, Entries, Body, Sealed;
    SortedIdempotent(m.verifiedChunks, m.totalSize);
    SerializeNormalizes(m);
    assert Normalized(m) == m;
  }

  // ----- Any accepted text -----

  lemma DecodedHeader(values: map<string, string>, version: uint32)
    requires DecodeHeader(values, version).Ok?
    ensures var m := DecodeHeader(values, version).value;
      && m.version == version && IsValidTransferId(m.transferId) && m.chunkSize != 0
      && m.outputPath != "" && m.tempPath != "" && IsBytes(m.outputPath) && IsBytes(m.tempPath)
  {
    hide Get, DecodePairs, ParseU64, ParseState;
    DecodedIsBytes(Get(values, "output_path_hex"));
    DecodedIsBytes(Get(values, "temp_path_hex"));
  }

  /**
    Every accepted version-2 text describes sorted, disjoint, in-range chunks of the manifest's algorithm
    that cover exactly the completed ranges; printing it again succeeds and reads back as itself.
   */
  lemma AcceptedSound(text: string)
    requires Parse(text).Ok? && Parse(text).value.version == VERSION_2
    ensures var m := Parse(text).value;
      && HeaderOk(m) && ProgressOk(m) && IsSorted(m.verifiedChunks) && Canonical(m.completedRanges)
      && Serialize(m).Ok? && SerializePrepared(m) == Serialize(m) && Parse(Serialize(m).value) == Ok(m)
  {
    var m := Parse(text).value;
    AcceptedV2(text);
    hide *;
    NormalFormReparses(m);
  }

  lemma NormalFormReparses(m: Manifest)
    requires HeaderOk(m) && ProgressOk(m) && IsSorted(m.verifiedChunks)
    requires Sorted(m.verifiedChunks) == m.verifiedChunks
    requires InsertAll([], m.verifiedChunks, m.totalSize) == Ok(m.completedRanges)
    ensures Serialize(m).Ok? && SerializePrepared(m) == Serialize(m) && Parse(Serialize(m).value) == Ok(m)
  {
    hide InsertAll, Sorted, Parse, Serialize, SerializePrepared;
    PreparedAgrees(m);
    RoundTrip(m);
    assert Normalized(m) == m;
  }

  lemma AcceptedV2(text: string)
    requires Parse(text).Ok? && Parse(text).value.version == VERSION_2
    ensures var m := Parse(text).value;
      && HeaderOk(m) && ProgressOk(m) && IsSorted(m.verifiedChunks) && Canonical(m.completedRanges)
      && Sorted(m.verifiedChunks) == m.verifiedChunks
      && InsertAll([], m.verifiedChunks, m.totalSize) == Ok(m.completedRanges)
  {
    hide ParseFields, DecodeHeader, CheckCrc, ParseU64, HasKeys, Get, ParseProgress, ParseAlgorithm, InsertAll, Sorted,
      ParseRanges;
    var values := ParseFields(text, NO_FIELDS).value.values;
    if DecodeHeader(values, VERSION_1).Ok? {
      DecodedHeader(values, VERSION_1);
    }
    assert Decode(ParseFields(text, NO_FIELDS).value) == DecodeV2(values);
    DecodedHeader(values, VERSION_2);
    var h := DecodeHeader(values, VERSION_2).value;
    var a := ParseAlgorithm(Get(values, "checksum_algorithm")).value;
    ProgressSound(Get(values, "completed_ranges"), Get(values, "verified_chunks"), h.totalSize, a);
  }

  /** An accepted version-1 text has a valid header, canonical in-range ranges, and no records or algorithm. */
  lemma AcceptedV1(text: string)
    requires Parse(text).Ok? && Parse(text).value.version == VERSION_1
    ensures var m := Parse(text).value;
      && HeaderOk(m.(version := VERSION_2)) && m.algorithm.NoChecksum? && m.verifiedChunks == []
      && Canonical(m.completedRanges) && Within(m.completedRanges, m.totalSize)
  {
    hide ParseFields, DecodeHeader, CheckCrc, ParseU64, HasKeys, Get, ParseProgress, ParseAlgorithm, ParseRanges;
    var values := ParseFields(text, NO_FIELDS).value.values;
    if DecodeHeader(values, VERSION_2).Ok? {
      DecodedHeader(values, VERSION_2);
    }
    assert Decode(ParseFields(text, NO_FIELDS).value) == DecodeV1(values);
    DecodedHeader(values, VERSION_1);
    V1Header(values);
    RangesSound(Get(values, "completed_ranges"), [], DecodeHeader(values, VERSION_1).value.totalSize);
  }

  lemma V1Header(values: map<string, string>)
    requires DecodeHeader(values, VERSION_1).Ok?
    ensures DecodeHeader(values, VERSION_1).value.algorithm.NoChecksum?
    ensures DecodeHeader(values, VERSION_1).value.verifiedChunks == []
  {
    hide Get, FromHexString, ParseU64, ParseState;
  }

  // ----- Damaged texts -----

  /** A wrong body checksum is noticed unless the damage turned the text into version 1. */
  lemma TamperedDecode(es: seq<Entry>, tampered: seq<Entry>)
    requires Keyed(tampered)
    requires Crc32c.Checksum(TextBytes(Body(tampered))) != Crc32c.Checksum(TextBytes(Body(es)))
    ensures ParseU64(tampered[0].value) != Ok(VERSION_1) ==> Parse(Tampered(es, tampered)).Err?
    ensures ParseU64(tampered[0].value) == Ok(VERSION_1)
      ==> Parse(Tampered(es, tampered)) == DecodeV1(FieldsOf(tampered, Hex32(BodyCrc(Body(es)))).values)
  {
    hide FieldsOf, Body, Line, DecodeV1, DecodeV2, CheckCrc, Parse, Keyed, HasKeys, Get, ParseU64, Hex32, BodyCrc,
      TextBytes, Crc32c.Checksum, REQUIRED, REQUIRED_V2;
    var crc := Hex32(BodyCrc(Body(es)));
    PlainFree(crc);
    ParseKeyed(tampered, crc);
    KeyedLookup(tampered, crc);
    TamperedFails(es, tampered);
  }

  lemma ReplacedKeyed(es: seq<Entry>, k: nat, value: string)
    requires Keyed(es) && k < 12 && '\n' !in value
    ensures Keyed(Replaced(es, k, value))
  {
    hide KEYS;
  }

  lemma VersionText(c: char)
    ensures ParseU64([c]) == Ok(VERSION_1) <==> c == '1'
    ensures ParseU64(Decimal(VERSION_2)) == Ok(VERSION_2)
    ensures |Decimal(VERSION_2)| == 1
  {
    ParseDecimal(2);
    if IsDigit(c) {
      assert [c][..0] == [];
      assert DecimalValue([c]) == DigitValue(c);
    }
  }

  /** The manifest as version 1 sees it: no algorithm, no chunk records. */
  function Downgraded(m: Manifest): Manifest {
    HeaderOf(m).(version := VERSION_1, completedRanges := m.completedRanges)
  }

  /** With only its version line changed to `1`, a printed text reads as version 1 and loses its chunk checksums. */
  lemma DowngradedReads(m: Manifest, es: seq<Entry>, crc: string)
    requires HeaderOk(m) && HeaderEntries(m, es) && es[10].value == RangesText(m.completedRanges)
    requires ValidRanges(m.completedRanges, m.totalSize) && Canonical(m.completedRanges)
    ensures DecodeV1(FieldsOf(es, crc).values) == Ok(Downgraded(m))
  {
    hide FieldsOf, DecodeHeader, HeaderEntries, ParseRanges, RangesText, Get, HasKeys, UnionAll;
    HeaderReads(m, es, crc, VERSION_1);
    assert Keyed(es) by {
      KeyedOfHeader(m, es);
    }
    KeyedLookup(es, crc);
    RangesRead(m.completedRanges, [], m.totalSize);
    UnionAllCovers([], m.completedRanges, m.totalSize);
    CanonicalUnique(UnionAll([], m.completedRanges), m.completedRanges);
  }

  lemma KeyedOfHeader(m: Manifest, es: seq<Entry>)
    requires HeaderEntries(m, es)
    ensures Keyed(es)
  {
  }

  /** A manifest in the form the full printer writes. */
  ghost predicate Printed(m: Manifest) {
    HeaderOk(m) && ValidRanges(m.completedRanges, m.totalSize) && Canonical(m.completedRanges)
  }

  lemma VersionReplaced(m: Manifest, value: string)
    requires HeaderOk(m) && '\n' !in value
    ensures var es' := Replaced(Entries(m), 0, value);
      HeaderEntries(m, es') && Keyed(es') && es'[0].value == value && es'[10].value == RangesText(m.completedRanges)
  {
    hide Decimal, ToHex, AlgorithmName, StateName, RangesText, ChunksText, Keyed;
    OwnHeaderEntries(m);
    ReplacedKeyed(Entries(m), 0, value);
  }

  lemma VersionDamaged(m: Manifest, value: string)
    requires Printed(m) && |value| == 1 && '\n' !in value
    requires Crc32c.Checksum(TextBytes(Body(Replaced(Entries(m), 0, value))))
          != Crc32c.Checksum(TextBytes(Body(Entries(m))))
    ensures var outcome := Parse(Tampered(Entries(m), Replaced(Entries(m), 0, value)));
            if value == "1" then outcome == Ok(Downgraded(m)) else outcome.Err?
  {
    hide FieldsOf, Body, DecodeV1, Parse, ParseU64, Hex32, BodyCrc, RangesText, Tampered, HeaderEntries, Keyed,
      Entries, Replaced, TextBytes;
    var es := Entries(m);
    var es' := Replaced(es, 0, value);
    VersionReplaced(m, value);
    TamperedDecode(es, es');
    VersionText(value[0]);
    assert value == [value[0]];
    if value == "1" {
      DowngradedReads(m, es', Hex32(BodyCrc(Body(es))));
    }
  }

  lemma EntryDamageDetected(m: Manifest, k: nat, value: string, lo: int)
    requires Printed(m) && k < 12 && |value| == |Values(m)[k]| && value != Values(m)[k]
    requires IsBytes(value) && '\n' !in value && CrcDetection.AgreeOutside(value, Values(m)[k], lo, lo + 4)
    ensures var outcome := Parse(Tampered(Entries(m), Replaced(Entries(m), k, value)));
            if k == 0 && value == "1" then outcome == Ok(Downgraded(m)) else outcome.Err?
  {
    hide FieldsOf, Body, Parse, ParseU64, Hex32, BodyCrc, Values, Tampered, Decimal;
    var es := Entries(m);
    var es' := Replaced(es, k, value);
    ValuesPrintable(m, k);
    PrintableBytes(Values(m)[k]);
    ValueBurstDetected(es, k, value, lo);
    OwnHeaderEntries(m);
    VersionText('2');
    if k == 0 {
      VersionDamaged(m, value);
    } else {
      ReplacedKeyed(es, k, value);
      TamperedDecode(es, es');
    }
  }

  /**
    Changing up to four consecutive bytes inside one body value of a printed manifest: the parser rejects
    the result, with one exception.  Turning the version line from `2` into `1` skips the checksum, and the
    text is accepted as a version-1 manifest without its chunk records.
   */
  lemma DamageDetected(m: Manifest, k: nat, value: string, lo: int)
    requires Printed(m) && k < 12 && |value| == |Values(m)[k]| && value != Values(m)[k]
    requires IsBytes(value) && '\n' !in value && CrcDetection.AgreeOutside(value, Values(m)[k], lo, lo + 4)
    ensures SerializePrepared(m).Ok?
    ensures var text, at := SerializePrepared(m).value, ValueStart(Entries(m), k);
      && at + |value| <= |text| && text[at..at + |value|] == Values(m)[k]
      && var outcome := Parse(Overwrite(text, at, value));
         if k == 0 && value == "1" then outcome == Ok(Downgraded(m)) else outcome.Err?
  {
    hide Overwrite, Sealed, ValueStart, Parse, Tampered, Values, Entries;
    OverwriteValue(Entries(m), k, value);
    EntryDamageDetected(m, k, value, lo);
  }

  /**
    Damage to the checksum line: with any one-line `value` in place of the printed checksum the text is
    accepted if and only if the value is that checksum, in small or capital digits, and the progress is
    consistent.  With eight characters the text is the printed one overwritten in place.
   */
  lemma ChecksumLineExact(m: Manifest, value: string)
    requires HeaderOk(m) && '\n' !in value
    ensures SerializePrepared(m).Ok?
    ensures var es := Entries(m);
      var damaged := Body(es) + Line(Entry(CRC_KEY, value));
      && (Parse(damaged).Ok? <==> LowerHex(value) == Hex32(BodyCrc(Body(es))) && ProgressOk(m))
      && (Parse(damaged).Ok? ==>
            InsertAll([], m.verifiedChunks, m.totalSize).Ok? && Parse(damaged) == Ok(Normalized(m)))
      && (|value| == 8 ==>
            var text, at := SerializePrepared(m).value, |Body(es)| + |CRC_KEY| + 1;
            at + 8 <= |text| && damaged == Overwrite(text, at, value))
  {
    hide FieldsOf, Entries, Body, Line, DecodeV1, DecodeV2, CheckCrc, Parse, Keyed, HeaderEntries, HasKeys,
      Get, ParseU64, Decimal, ProgressOk, InsertAll, Hex32, LowerHex, Sealed, Overwrite, BodyCrc;
    var es := Entries(m);
    OwnHeaderEntries(m);
    ParseKeyed(es, value);
    KeyedLookup(es, value);
    ParseDecimal(m.version);
    CheckCrcExact(es, value);
    DecodeOwn(m, value);
    if |value| == 8 {
      OverwriteChecksum(es, value);
    }
  }

  /** Any damage to the body values that flips an odd number of bits and leaves the version line alone is rejected. */
  lemma OddDamageDetected(m: Manifest, tampered: seq<Entry>)
    requires HeaderOk(m) && Keyed(tampered) && tampered[0] == Entries(m)[0]
    requires |Body(tampered)| == |Body(Entries(m))|
    requires CrcDetection.Flips(Crc32c.MessageBits(TextBytes(Body(tampered))),
                                Crc32c.MessageBits(TextBytes(Body(Entries(m))))) % 2 == 1
    ensures Parse(Tampered(Entries(m), tampered)).Err?
  {
    hide FieldsOf, Body, Parse, ParseU64, Hex32, BodyCrc, Values, Tampered, Decimal, CrcDetection.Flips, Keyed;
    OwnHeaderEntries(m);
    CrcDetection.OddFlipsDetected(TextBytes(Body(tampered)), TextBytes(Body(Entries(m))));
    TamperedDecode(Entries(m), tampered);
    VersionText('2');
  }
}
