/** The download manifest: three paths, one version, and a checksum that is always verified. */
module DownloadManifests {
  import opened Common
  import opened TextCodec
  import opened RangeLists
  import opened Checksum
  import opened Progress
  import opened ProgressText
  import opened ManifestText
  import opened ManifestKeys
  import Crc32c
  import CrcDetection

  const VERSION: uint32 := 1

  datatype Manifest = Manifest(
    version: uint32,
    transferId: string,
    sourcePath: string,
    targetPath: string,
    tempPath: string,
    totalSize: uint64,
    chunkSize: uint64,
    algorithm: ChecksumAlgorithm,
    createdAt: uint64,
    updatedAt: uint64,
    state: ManifestState,
    completedRanges: seq<Range>,
    verifiedChunks: seq<Record>)

  // ----- Printing -----

  const KEYS: seq<string> := [
    "manifest_version", "transfer_id", "source_path_hex", "target_path_hex", "temp_path_hex",
    "total_size", "chunk_size",
    "checksum_algorithm", "created_at_unix_ns", "updated_at_unix_ns", "state", "completed_ranges", "verified_chunks"]

  function Values(m: Manifest): (vs: seq<string>)
    ensures |vs| == 13
  {
    [Decimal(m.version), m.transferId, ToHex(m.sourcePath), ToHex(m.targetPath), ToHex(m.tempPath),
     Decimal(m.totalSize), Decimal(m.chunkSize), AlgorithmName(m.algorithm), Decimal(m.createdAt), Decimal(m.updatedAt),
     StateName(m.state), RangesText(m.completedRanges), ChunksText(m.verifiedChunks)]
  }

  function Entries(m: Manifest): (es: seq<Entry>)
    ensures |es| == 13 && forall i :: 0 <= i < 13 ==> es[i] == Entry(KEYS[i], Values(m)[i])
  {
    seq(13, i requires 0 <= i < 13 => Entry(KEYS[i], Values(m)[i]))
  }

  function CheckHeader(m: Manifest): Result<()> {
    if m.version != VERSION then Err("unsupported download manifest version")
    else if !IsValidTransferId(m.transferId) then Err("invalid transfer_id")
    else if m.sourcePath == "" || m.targetPath == "" || m.tempPath == ""
    then Err("download manifest paths must not be empty")
    else if m.chunkSize == 0 then Err("manifest chunk_size must be greater than zero")
    else Ok(())
  }

  /** The fast printer: trusts the lists it is given. */
  function SerializePrepared(m: Manifest): Result<string> {
    var _ :- CheckHeader(m);
    Ok(Sealed(Body(Entries(m))))
  }

  /** The full printer: sorts the chunks and derives the ranges from them. */
  function Serialize(m: Manifest): Result<string> {
    var _ :- CheckHeader(m);
    var chunks := Sorted(m.verifiedChunks);
    var derived :- InsertAll([], Sorted(chunks), m.totalSize);
    Ok(Sealed(Body(Entries(m.(verifiedChunks := chunks, completedRanges := derived)))))
  }

  // ----- Parsing -----

  const REQUIRED: seq<string> := [
    "manifest_version", "transfer_id", "source_path_hex", "target_path_hex", "temp_path_hex",
    "total_size", "chunk_size",
    "checksum_algorithm", "created_at_unix_ns", "updated_at_unix_ns", "state",
    "completed_ranges", "verified_chunks", CRC_KEY]

  /** Everything but progress, checked in the parser's order. */
  function DecodeHeader(values: map<string, string>, version: uint32): Result<Manifest> {
    var transferId := Get(values, "transfer_id");
    if !IsValidTransferId(transferId) then Err("invalid transfer_id") else
      var sourcePath :- FromHexString(Get(values, "source_path_hex"));
      var targetPath :- FromHexString(Get(values, "target_path_hex"));
      var tempPath :- FromHexString(Get(values, "temp_path_hex"));
      if sourcePath == "" || targetPath == "" || tempPath == ""
      then Err("download manifest paths must not be empty") else
        var totalSize :- ParseU64(Get(values, "total_size"));
        var chunkSize :- ParseU64(Get(values, "chunk_size"));
        var createdAt :- ParseU64(Get(values, "created_at_unix_ns"));
        var updatedAt :- ParseU64(Get(values, "updated_at_unix_ns"));
        var state :- ParseState(Get(values, "state"));
        var algorithm :- ParseAlgorithm(Get(values, "checksum_algorithm"));
        if chunkSize == 0 then Err("download manifest chunk_size must be greater than zero") else
          Ok(Manifest(version, transferId, sourcePath, targetPath, tempPath, totalSize, chunkSize, algorithm,
                      createdAt, updatedAt, state, [], []))
  }

  function DecodeChecked(values: map<string, string>, version: uint32): Result<Manifest> {
    var m :- DecodeHeader(values, version);
    var progress :- ParseProgress(Get(values, "completed_ranges"), Get(values, "verified_chunks"), m.totalSize,
                                  m.algorithm);
    Ok(m.(completedRanges := progress.0, verifiedChunks := progress.1))
  }

  function Decode(f: Fields): Result<Manifest> {
    if !HasKeys(f.values, REQUIRED) then Err("download manifest missing key") else
      var version :- ParseU64(Get(f.values, "manifest_version"));
      if version != VERSION then Err("unsupported download manifest version") else
        var _ :- CheckCrc(f);
        DecodeChecked(f.values, version)
  }

  function Parse(text: string): Result<Manifest> {
    var f :- ParseFields(text, NO_FIELDS);
    Decode(f)
  }

  // ----- The keys and values are fit for the line format -----

  function RankAt(i: nat): int {
    if i < 2 then i else if i < 4 then i + 10 else i - 1
  }

  lemma KeyFacts(i: nat)
    requires i < 13
    ensures KeyChars(KEYS[i]) && Rank(KEYS[i]) == RankAt(i)
  {
    hide Rank, KeyChars;
    IdentityKeys();
    SizeKeys();
    TimeKeys();
    ProgressKeys();
    PathKeys();
    HeaderRanks();
    ProgressRanks();
    DownloadRanks();
    if i < 6 {
      assert i == 0 || i == 1 || i == 2 || i == 3 || i == 4 || i == 5;
    } else {
      assert i == 6 || i == 7 || i == 8 || i == 9 || i == 10 || i == 11 || i == 12;
    }
  }

  ghost predicate HeaderOk(m: Manifest) {
    CheckHeader(m).Ok? && IsBytes(m.sourcePath) && IsBytes(m.targetPath) && IsBytes(m.tempPath)
  }

  lemma ValuesPrintable(m: Manifest, i: nat)
    requires HeaderOk(m) && i < 13
    ensures Printable(Values(m)[i])
  {
    hide Decimal, ToHex, AlgorithmName, StateName, RangesText, ChunksText, Printable;
    DecimalPrintable(m.version);
    DecimalPrintable(m.totalSize);
    DecimalPrintable(m.chunkSize);
    DecimalPrintable(m.createdAt);
    DecimalPrintable(m.updatedAt);
    IdPrintable(m.transferId);
    HexRoundTrip(m.sourcePath);
    HexRoundTrip(m.targetPath);
    HexRoundTrip(m.tempPath);
    AlgorithmRoundTrip(m.algorithm);
    StateRoundTrip(m.state);
    PlainPrintable(ToHex(m.sourcePath));
    PlainPrintable(ToHex(m.targetPath));
    PlainPrintable(ToHex(m.tempPath));
    PlainPrintable(AlgorithmName(m.algorithm));
    PlainPrintable(StateName(m.state));
    RangesTextPrintable(m.completedRanges);
    ChunksTextPrintable(m.verifiedChunks);
    var vs := Values(m);
    if i < 6 {
      assert i == 0 || i == 1 || i == 2 || i == 3 || i == 4 || i == 5;
    } else {
      assert i == 6 || i == 7 || i == 8 || i == 9 || i == 10 || i == 11 || i == 12;
    }
  }

  /** Entries with this manifest kind's keys and any one-line values. */
  ghost predicate Keyed(es: seq<Entry>) {
    |es| == 13 && forall i :: 0 <= i < 13 ==> es[i].key == KEYS[i] && '\n' !in es[i].value
  }

  lemma KeyedGood(es: seq<Entry>)
    requires Keyed(es)
    ensures GoodEntries(es)
  {
    hide Rank, KEYS;
    forall i | 0 <= i < 13
      ensures GoodEntry(es[i]) && Rank(es[i].key) == RankAt(i)
    {
      KeyFacts(i);
      DownloadRanks();
    }
  }

  lemma EntriesKeyed(m: Manifest)
    requires HeaderOk(m)
    ensures Keyed(Entries(m))
  {
    hide Values;
    forall i | 0 <= i < 13
      ensures Entries(m)[i].key == KEYS[i] && '\n' !in Entries(m)[i].value
    {
      ValuesPrintable(m, i);
    }
  }

  lemma KeyedAt(es: seq<Entry>, crc: string, i: nat)
    requires Keyed(es) && i < 13
    ensures KEYS[i] in FieldsOf(es, crc).values && Get(FieldsOf(es, crc).values, KEYS[i]) == es[i].value
  {
    hide KEYS, FieldsOf, Get;
    KeyedGood(es);
    FieldsOfAt(es, crc, i);
  }

  /** All required keys are present, each with its own value. */
  lemma KeyedLookup(es: seq<Entry>, crc: string)
    requires Keyed(es)
    ensures var v := FieldsOf(es, crc).values;
      && HasKeys(v, REQUIRED)
      && Get(v, "manifest_version") == es[0].value && Get(v, "transfer_id") == es[1].value
      && Get(v, "source_path_hex") == es[2].value && Get(v, "target_path_hex") == es[3].value
      && Get(v, "temp_path_hex") == es[4].value
      && Get(v, "total_size") == es[5].value && Get(v, "chunk_size") == es[6].value
      && Get(v, "checksum_algorithm") == es[7].value && Get(v, "created_at_unix_ns") == es[8].value
      && Get(v, "updated_at_unix_ns") == es[9].value && Get(v, "state") == es[10].value
      && Get(v, "completed_ranges") == es[11].value && Get(v, "verified_chunks") == es[12].value
  {
    var v := FieldsOf(es, crc).values;
    assert CRC_KEY in v;
    hide FieldsOf, Get, Keyed;
    KeyedAt(es, crc, 0);
    KeyedAt(es, crc, 1);
    KeyedAt(es, crc, 2);
    KeyedAt(es, crc, 3);
    KeyedAt(es, crc, 4);
    KeyedAt(es, crc, 5);
    KeyedAt(es, crc, 6);
    KeyedAt(es, crc, 7);
    KeyedAt(es, crc, 8);
    KeyedAt(es, crc, 9);
    KeyedAt(es, crc, 10);
    KeyedAt(es, crc, 11);
    KeyedAt(es, crc, 12);
  }

  /** A text of keyed entries and a checksum line reaches `Decode` with those fields. */
  lemma ParseKeyed(es: seq<Entry>, crc: string)
    requires Keyed(es) && '\n' !in crc
    ensures Parse(Body(es) + Line(Entry(CRC_KEY, crc))) == Decode(FieldsOf(es, crc))
  {
    hide Decode, FieldsOf, Body, Line, ParseFields;
    KeyedGood(es);
    ParseEntries(es, crc);
  }

  // ----- Round trip -----

  function HeaderOf(m: Manifest): Manifest {
    m.(completedRanges := [], verifiedChunks := [])
  }

  /** Entries that agree with the manifest's on the header lines. */
  ghost predicate HeaderEntries(m: Manifest, es: seq<Entry>) {
    && Keyed(es) && es[1].value == m.transferId
    && es[2].value == ToHex(m.sourcePath) && es[3].value == ToHex(m.targetPath)
    && es[4].value == ToHex(m.tempPath) && es[5].value == Decimal(m.totalSize) && es[6].value == Decimal(m.chunkSize)
    && es[7].value == AlgorithmName(m.algorithm) && es[8].value == Decimal(m.createdAt)
    && es[9].value == Decimal(m.updatedAt) && es[10].value == StateName(m.state)
  }

  lemma HeaderReads(m: Manifest, es: seq<Entry>, crc: string)
    requires HeaderOk(m) && HeaderEntries(m, es)
    ensures DecodeHeader(FieldsOf(es, crc).values, m.version) == Ok(HeaderOf(m))
  {
    hide FieldsOf, Get, ParseU64, FromHexString, ToHex, Decimal, StateName, ParseState, HasKeys, ParseAlgorithm,
      AlgorithmName;
    KeyedLookup(es, crc);
    HexRoundTrip(m.sourcePath);
    HexRoundTrip(m.targetPath);
    HexRoundTrip(m.tempPath);
    ParseDecimal(m.totalSize);
    ParseDecimal(m.chunkSize);
    ParseDecimal(m.createdAt);
    ParseDecimal(m.updatedAt);
    StateRoundTrip(m.state);
    AlgorithmRoundTrip(m.algorithm);
  }

  lemma OwnHeaderEntries(m: Manifest)
    requires HeaderOk(m)
    ensures HeaderEntries(m, Entries(m)) && Keyed(Entries(m)) && Entries(m)[0].value == Decimal(m.version)
    ensures Entries(m)[11].value == RangesText(m.completedRanges)
    ensures Entries(m)[12].value == ChunksText(m.verifiedChunks)
  {
    hide Decimal, ToHex, AlgorithmName, StateName, RangesText, ChunksText, Keyed;
    EntriesKeyed(m);
  }

  ghost predicate ProgressOk(m: Manifest) {
    Consistent(m.completedRanges, m.verifiedChunks, m.totalSize, m.algorithm)
  }

  /** The manifest with its chunks sorted and its ranges derived from them. */
  function Normalized(m: Manifest): Manifest
    requires InsertAll([], m.verifiedChunks, m.totalSize).Ok?
  {
    m.(verifiedChunks := Sorted(m.verifiedChunks), completedRanges := Derived(m.verifiedChunks, m.totalSize))
  }

  lemma DecodeOwn(m: Manifest, crc: string)
    requires HeaderOk(m)
    ensures var d := DecodeChecked(FieldsOf(Entries(m), crc).values, m.version);
      && (d.Ok? <==> ProgressOk(m))
      && (d.Ok? ==> InsertAll([], m.verifiedChunks, m.totalSize).Ok? && d == Ok(Normalized(m)))
  {
    hide FieldsOf, DecodeHeader, Entries, Keyed, HeaderEntries, ParseProgress, ParseAlgorithm, AlgorithmName,
      RangesText, ChunksText, InsertAll, Sorted, Get, HasKeys;
    OwnHeaderEntries(m);
    HeaderReads(m, Entries(m), crc);
    KeyedLookup(Entries(m), crc);
    ProgressReads(m.completedRanges, m.verifiedChunks, m.totalSize, m.algorithm);
  }

  /**
    The fast printer's output is accepted exactly when its progress is consistent (both lists cover the
    same bytes, the chunks are disjoint, in range and of the manifest's algorithm); it then comes back
    with the chunks sorted and the ranges derived.
   */
  lemma PreparedReads(m: Manifest)
    requires HeaderOk(m)
    ensures SerializePrepared(m).Ok?
    ensures var text := SerializePrepared(m).value;
      && (Parse(text).Ok? <==> ProgressOk(m))
      && (Parse(text).Ok? ==> InsertAll([], m.verifiedChunks, m.totalSize).Ok? && Parse(text) == Ok(Normalized(m)))
  {
    hide FieldsOf, Entries, Body, Line, DecodeChecked, CheckCrc, Parse, Keyed, HeaderEntries, HasKeys,
      Get, ParseU64, Decimal, ProgressOk, InsertAll, Hex32;
    var es := Entries(m);
    var crc := Hex32(BodyCrc(Body(es)));
    OwnHeaderEntries(m);
    PlainFree(crc);
    ParseKeyed(es, crc);
    KeyedLookup(es, crc);
    ParseDecimal(m.version);
    SealedChecks(es);
    DecodeOwn(m, crc);
  }

  /** The full printer succeeds exactly on disjoint in-range chunks, and is then the fast printer of the normal form. */
  lemma SerializeNormalizes(m: Manifest)
    ensures Serialize(m).Ok? <==> CheckHeader(m).Ok? && Disjoint(m.verifiedChunks, m.totalSize)
    ensures Serialize(m).Ok? ==> InsertAll([], m.verifiedChunks, m.totalSize).Ok?
    ensures Serialize(m).Ok? ==> Serialize(m) == SerializePrepared(Normalized(m))
  {
    hide InsertAll, Sorted, Entries, Body, Sealed;
    NormalForm(m.verifiedChunks, m.totalSize, m.algorithm);
  }

  /** Parsing the full printer's output gives the manifest back in normal form. */
  lemma RoundTrip(m: Manifest)
    requires HeaderOk(m) && Disjoint(m.verifiedChunks, m.totalSize)
    ensures Serialize(m).Ok? && InsertAll([], m.verifiedChunks, m.totalSize).Ok?
    ensures SameAlgorithm(m.verifiedChunks, m.algorithm) ==> Parse(Serialize(m).value) == Ok(Normalized(m))
    ensures !SameAlgorithm(m.verifiedChunks, m.algorithm) ==> Parse(Serialize(m).value).Err?
  {
    hide Parse, Serialize, SerializePrepared, InsertAll, Sorted;
    SerializeNormalizes(m);
    NormalForm(m.verifiedChunks, m.totalSize, m.algorithm);
    PreparedReads(Normalized(m));
  }

  /** The order in which chunks were recorded leaves no trace in the file. */
  lemma PermutationInvariant(m: Manifest, chunks: seq<Record>)
    requires multiset(chunks) == multiset(m.verifiedChunks) && Serialize(m).Ok?
    ensures Serialize(m.(verifiedChunks := chunks)) == Serialize(m)
  {
    hide InsertAll, Sorted, Entries, Body, Sealed;
    SerializeNormalizes(m);
    PermutationSorts(m.verifiedChunks, chunks, m.totalSize);
  }

  /** On normal-form progress the fast printer writes byte for byte what the full printer writes. */
  lemma PreparedAgrees(m: Manifest)
    requires IsSorted(m.verifiedChunks) && Disjoint(m.verifiedChunks, m.totalSize)
    requires InsertAll([], m.verifiedChunks, m.totalSize) == Ok(m.completedRanges)
    ensures SerializePrepared(m) == Serialize(m)
  {
    hide InsertAll, Sorted, Entries, Body, Sealed;
    SortedIdempotent(m.verifiedChunks, m.totalSize);
    SerializeNormalizes(m);
    assert Normalized(m) == m;
  }

  // ----- Any accepted text -----

  lemma DecodedHeader(values: map<string, string>, version: uint32)
    requires DecodeHeader(values, version).Ok?
    ensures var m := DecodeHeader(values, version).value;
      && m.version == version && IsValidTransferId(m.transferId) && m.chunkSize != 0
      && m.sourcePath != "" && m.targetPath != "" && m.tempPath != ""
      && IsBytes(m.sourcePath) && IsBytes(m.targetPath) && IsBytes(m.tempPath)
  {
    hide Get, DecodePairs, ParseU64, ParseState, ParseAlgorithm;
    DecodedIsBytes(Get(values, "source_path_hex"));
    DecodedIsBytes(Get(values, "target_path_hex"));
    DecodedIsBytes(Get(values, "temp_path_hex"));
  }

  /**
    Every accepted text describes sorted, disjoint, in-range chunks of the manifest's algorithm that cover
    exactly the completed ranges; printing it again succeeds and reads back as itself.
   */
  lemma AcceptedSound(text: string)
    requires Parse(text).Ok?
    ensures var m := Parse(text).value;
      && HeaderOk(m) && ProgressOk(m) && IsSorted(m.verifiedChunks) && Canonical(m.completedRanges)
      && Serialize(m).Ok? && SerializePrepared(m) == Serialize(m) && Parse(Serialize(m).value) == Ok(m)
  {
    var m := Parse(text).value;
    AcceptedNormal(text);
    hide *;
    NormalFormReparses(m);
  }

  lemma NormalFormReparses(m: Manifest)
    requires HeaderOk(m) && ProgressOk(m) && IsSorted(m.verifiedChunks)
    requires Sorted(m.verifiedChunks) == m.verifiedChunks
    requires InsertAll([], m.verifiedChunks, m.totalSize) == Ok(m.completedRanges)
    ensures Serialize(m).Ok? && SerializePrepared(m) == Serialize(m) && Parse(Serialize(m).value) == Ok(m)
  {
    hide InsertAll, Sorted, Parse, Serialize, SerializePrepared;
    PreparedAgrees(m);
    RoundTrip(m);
    assert Normalized(m) == m;
  }

  lemma AcceptedNormal(text: string)
    requires Parse(text).Ok?
    ensures var m := Parse(text).value;
      && HeaderOk(m) && ProgressOk(m) && IsSorted(m.verifiedChunks) && Canonical(m.completedRanges)
      && Sorted(m.verifiedChunks) == m.verifiedChunks
      && InsertAll([], m.verifiedChunks, m.totalSize) == Ok(m.completedRanges)
  {
    hide ParseFields, DecodeHeader, CheckCrc, ParseU64, HasKeys, Get, ParseProgress, InsertAll, Sorted;
    var values := ParseFields(text, NO_FIELDS).value.values;
    DecodedHeader(values, VERSION);
    var h := DecodeHeader(values, VERSION).value;
    ProgressSound(Get(values, "completed_ranges"), Get(values, "verified_chunks"), h.totalSize, h.algorithm);
  }

  // ----- Damaged texts -----

  lemma TamperedRejected(es: seq<Entry>, tampered: seq<Entry>)
    requires Keyed(tampered)
    requires Crc32c.Checksum(TextBytes(Body(tampered))) != Crc32c.Checksum(TextBytes(Body(es)))
    ensures Parse(Tampered(es, tampered)).Err?
  {
    hide FieldsOf, Body, Line, DecodeChecked, CheckCrc, Parse, Keyed, HasKeys, Get, ParseU64, Hex32, BodyCrc,
      TextBytes, Crc32c.Checksum, REQUIRED;
    var crc := Hex32(BodyCrc(Body(es)));
    PlainFree(crc);
    ParseKeyed(tampered, crc);
    TamperedFails(es, tampered);
  }

  lemma ReplacedKeyed(es: seq<Entry>, k: nat, value: string)
    requires Keyed(es) && k < 13 && '\n' !in value
    ensures Keyed(Replaced(es, k, value))
  {
    hide KEYS;
  }

  lemma EntryDamageDetected(m: Manifest, k: nat, value: string, lo: int)
    requires HeaderOk(m) && k < 13 && |value| == |Values(m)[k]| && value != Values(m)[k]
    requires IsBytes(value) && '\n' !in value && CrcDetection.AgreeOutside(value, Values(m)[k], lo, lo + 4)
    ensures Parse(Tampered(Entries(m), Replaced(Entries(m), k, value))).Err?
  {
    hide FieldsOf, Body, Parse, Hex32, BodyCrc, Values, Tampered, KEYS, Keyed;
    var es := Entries(m);
    ValuesPrintable(m, k);
    PrintableBytes(Values(m)[k]);
    ValueBurstDetected(es, k, value, lo);
    OwnHeaderEntries(m);
    ReplacedKeyed(es, k, value);
    TamperedRejected(es, Replaced(es, k, value));
  }

  /** Changing up to four consecutive bytes inside one body value of a printed manifest is always rejected. */
  lemma DamageDetected(m: Manifest, k: nat, value: string, lo: int)
    requires HeaderOk(m) && k < 13 && |value| == |Values(m)[k]| && value != Values(m)[k]
    requires IsBytes(value) && '\n' !in value && CrcDetection.AgreeOutside(value, Values(m)[k], lo, lo + 4)
    ensures SerializePrepared(m).Ok?
    ensures var text, at := SerializePrepared(m).value, ValueStart(Entries(m), k);
      && at + |value| <= |text| && text[at..at + |value|] == Values(m)[k]
      && Parse(Overwrite(text, at, value)).Err?
  {
    hide Overwrite, Sealed, ValueStart, Parse, Tampered, Values, Entries;
    OverwriteValue(Entries(m), k, value);
    EntryDamageDetected(m, k, value, lo);
  }

  /**
    Damage to the checksum line: with any one-line `value` in place of the printed checksum the text is
    accepted if and only if the value is that checksum, in small or capital digits, and the progress is
    consistent.  With eight characters the text is the printed one overwritten in place.
   */
  lemma ChecksumLineExact(m: Manifest, value: string)
    requires HeaderOk(m) && '\n' !in value
    ensures SerializePrepared(m).Ok?
    ensures var es := Entries(m);
      var damaged := Body(es) + Line(Entry(CRC_KEY, value));
      && (Parse(damaged).Ok? <==> LowerHex(value) == Hex32(BodyCrc(Body(es))) && ProgressOk(m))
      && (Parse(damaged).Ok? ==>
            InsertAll([], m.verifiedChunks, m.totalSize).Ok? && Parse(damaged) == Ok(Normalized(m)))
      && (|value| == 8 ==>
            var text, at := SerializePrepared(m).value, |Body(es)| + |CRC_KEY| + 1;
            at + 8 <= |text| && damaged == Overwrite(text, at, value))
  {
    hide FieldsOf, Entries, Body, Line, DecodeChecked, CheckCrc, Parse, Keyed, HeaderEntries, HasKeys,
      Get, ParseU64, Decimal, ProgressOk, InsertAll, Hex32, LowerHex, Sealed, Overwrite, BodyCrc;
    var es := Entries(m);
    OwnHeaderEntries(m);
    ParseKeyed(es, value);
    KeyedLookup(es, value);
    ParseDecimal(m.version);
    CheckCrcExact(es, value);
    DecodeOwn(m, value);
    if |value| == 8 {
      OverwriteChecksum(es, value);
    }
  }

  /** Any damage to the body values that flips an odd number of bits is rejected. */
  lemma OddDamageDetected(m: Manifest, tampered: seq<Entry>)
    requires HeaderOk(m) && Keyed(tampered)
    requires |Body(tampered)| == |Body(Entries(m))|
    requires CrcDetection.Flips(Crc32c.MessageBits(TextBytes(Body(tampered))),
                                Crc32c.MessageBits(TextBytes(Body(Entries(m))))) % 2 == 1
    ensures Parse(Tampered(Entries(m), tampered)).Err?
  {
    hide Body, Parse, Hex32, BodyCrc, Tampered, CrcDetection.Flips, Keyed;
    CrcDetection.OddFlipsDetected(TextBytes(Body(tampered)), TextBytes(Body(Entries(m))));
    TamperedRejected(Entries(m), tampered);
  }
}
