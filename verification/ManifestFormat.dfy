/**
  The manifest text seen from outside: which fields stand where.  A text is cut at its separators by
  `Pieces`, which neither the printers nor the parsers use.
 */
module ManifestFormat {
  import opened Common
  import opened TextCodec
  import opened RangeLists
  import opened Checksum
  import opened Progress
  import opened ProgressText
  import opened ManifestText
  import opened ManifestKeys
  import T = TransferManifests
  import D = DownloadManifests

  // ----- Cutting a text at a separator -----

  function Pieces(t: string, separator: char): (ps: seq<string>)
    ensures |ps| > 0
    decreases |t|
  {
    var k := Find(t, separator);
    if k == |t| then [t] else [t[..k]] + Pieces(t[k + 1..], separator)
  }

  lemma PiecesNone(t: string, separator: char)
    requires separator !in t
    ensures Pieces(t, separator) == [t]
  {
    FindNone(t, separator);
  }

  lemma PiecesFirst(a: string, separator: char, rest: string)
    requires separator !in a
    ensures Pieces(a + [separator] + rest, separator) == [a] + Pieces(rest, separator)
  {
    FindAfter(a, separator, rest);
  }

  // ----- Chunk items -----

  /** The five fields of a printed record, in order: id, offset, length, algorithm, checksum. */
  lemma ChunkFields(c: Record)
    ensures var ps := Pieces(ChunkItem(c), ':');
      && |ps| == 5
      && ParseU64(ps[0]) == Ok(c.chunkId) && ParseU64(ps[1]) == Ok(c.offset) && ParseU64(ps[2]) == Ok(c.length)
      && ParseAlgorithm(ps[3]) == Ok(c.algorithm) && ParseHex32(ps[4]) == Ok(c.value)
  {
    hide Decimal, Hex32, AlgorithmName, ParseU64, ParseHex32, ParseAlgorithm, Pieces;
    var id, offset, length := Decimal(c.chunkId), Decimal(c.offset), Decimal(c.length);
    var name, word := AlgorithmName(c.algorithm), Hex32(c.value);
    DecimalPlain(c.chunkId);
    DecimalPlain(c.offset);
    DecimalPlain(c.length);
    AlgorithmRoundTrip(c.algorithm);
    PlainFree(id);
    PlainFree(offset);
    PlainFree(length);
    PlainFree(name);
    PlainFree(word);
    var t3 := name + ":" + word;
    var t2 := length + ":" + t3;
    var t1 := offset + ":" + t2;
    PiecesFirst(id, ':', t1);
    PiecesFirst(offset, ':', t2);
    PiecesFirst(length, ':', t3);
    PiecesFirst(name, ':', word);
    PiecesNone(word, ':');
    ParseDecimal(c.chunkId);
    ParseDecimal(c.offset);
    ParseDecimal(c.length);
    Hex32RoundTrip(c.value);
  }

  lemma {:induction false} PiecesStep(t: string, separator: char)
    ensures var k := Find(t, separator);
      Pieces(t, separator) == if k == |t| then [t] else [t[..k]] + Pieces(t[k + 1..], separator)
  {
    hide Find;
  }

  lemma {:induction false} SplitPieces(t: string)
    ensures var ps := Pieces(t, ':');
      && (Split(t).Ok? <==> |ps| > 1)
      && (Split(t).Ok? ==> ps[0] == Split(t).value.0 && ps[1..] == Pieces(Split(t).value.1, ':'))
  {
    hide Pieces, Find;
    PiecesStep(t, ':');
  }

  lemma OnePiece(t: string, separator: char)
    ensures |Pieces(t, separator)| == 1 <==> separator !in t
    ensures |Pieces(t, separator)| == 1 ==> Pieces(t, separator)[0] == t
  {
    hide Pieces;
    PiecesStep(t, separator);
  }

  /** The conditions on five fields, in order. */
  predicate FiveFields(ps: seq<string>, expected: ChecksumAlgorithm) {
    && |ps| == 5 && ParseU64(ps[0]).Ok? && ParseU64(ps[1]).Ok? && ParseU64(ps[2]).Ok?
    && ParseAlgorithm(ps[3]) == Ok(expected) && ParseHex32(ps[4]).Ok?
  }

  /** Any text is read as a record if and only if it has these five fields: id, offset, length, algorithm, checksum. */
  lemma ChunkItemExact(item: string, expected: ChecksumAlgorithm)
    ensures var ps, r := Pieces(item, ':'), ParseChunkItem(item, expected);
      && (r.Ok? <==> FiveFields(ps, expected))
      && (r.Ok? ==> r.value == Record(ParseU64(ps[0]).value, ParseU64(ps[1]).value, ParseU64(ps[2]).value,
                                      expected, ParseHex32(ps[4]).value))
  {
    hide Split, ParseU64, ParseHex32, ParseAlgorithm, Pieces;
    SplitPieces(item);
    if Split(item).Ok? {
      var t1 := Split(item).value.1;
      SplitPieces(t1);
      if Split(t1).Ok? {
        var t2 := Split(t1).value.1;
        SplitPieces(t2);
        if Split(t2).Ok? {
          var t3 := Split(t2).value.1;
          SplitPieces(t3);
          if Split(t3).Ok? {
            OnePiece(Split(t3).value.1, ':');
          }
        }
      }
    }
  }

  // ----- Range items -----

  /** The two fields of a printed range: begin and end. */
  lemma RangeFields(r: Range)
    requires r.end < UINT64_LIMIT && r.begin < UINT64_LIMIT
    ensures var ps := Pieces(RangeItem(r), '-');
      |ps| == 2 && ParseU64(ps[0]) == Ok(r.begin) && ParseU64(ps[1]) == Ok(r.end)
  {
    hide Decimal, ParseU64, Pieces;
    var begin, end := Decimal(r.begin), Decimal(r.end);
    DecimalPlain(r.begin);
    DecimalPlain(r.end);
    PlainFree(begin);
    PlainFree(end);
    PiecesFirst(begin, '-', end);
    PiecesNone(end, '-');
    ParseDecimal(r.begin);
    ParseDecimal(r.end);
  }

  lemma NotANumber(t: string)
    requires '-' in t
    ensures ParseU64(t).Err?
  {
  }

  /** Any text is read as a range if and only if it is two numbers around a dash, the first smaller. */
  lemma RangeItemExact(item: string)
    ensures var ps, r := Pieces(item, '-'), ParseRangeItem(item);
      && (r.Ok? <==> |ps| == 2 && ParseU64(ps[0]).Ok? && ParseU64(ps[1]).Ok?
                     && ParseU64(ps[0]).value < ParseU64(ps[1]).value)
      && (r.Ok? ==> r.value == Range(ParseU64(ps[0]).value, ParseU64(ps[1]).value))
  {
    hide ParseU64;
    var k := Find(item, '-');
    if k < |item| {
      OnePiece(item[k + 1..], '-');
      if '-' in item[k + 1..] {
        NotANumber(item[k + 1..]);
      }
    }
  }

  // ----- Lists -----

  /** The items of a printed list stand between commas, in order. */
  lemma {:induction false} ChunksListed(cs: seq<Record>)
    requires cs != []
    ensures var ps := Pieces(ChunksText(cs), ',');
      |ps| == |cs| && forall i :: 0 <= i < |cs| ==> ps[i] == ChunkItem(cs[i])
    decreases |cs|
  {
    hide ChunkItem, Pieces;
    ChunkItemPlain(cs[0]);
    if |cs| == 1 {
      PiecesNone(ChunkItem(cs[0]), ',');
    } else {
      ChunksListed(cs[1..]);
      PiecesFirst(ChunkItem(cs[0]), ',', ChunksText(cs[1..]));
      assert ChunksText(cs) == ChunkItem(cs[0]) + [','] + ChunksText(cs[1..]);
    }
  }

  lemma {:induction false} RangesListed(rs: seq<Range>)
    requires rs != []
    ensures var ps := Pieces(RangesText(rs), ',');
      |ps| == |rs| && forall i :: 0 <= i < |rs| ==> ps[i] == RangeItem(rs[i])
    decreases |rs|
  {
    hide RangeItem, Pieces;
    assert ',' !in RangeItem(rs[0]) by {
      RangeItemReads(rs[0]);
    }
    if |rs| == 1 {
      PiecesNone(RangeItem(rs[0]), ',');
    } else {
      RangesListed(rs[1..]);
      PiecesFirst(RangeItem(rs[0]), ',', RangesText(rs[1..]));
      assert RangesText(rs) == RangeItem(rs[0]) + [','] + RangesText(rs[1..]);
    }
  }

  // ----- Lines -----

  /** A line of raw text: what stands before the first `=` is the key, the rest the value. */
  lemma RawLine(key: string, value: string, rest: string, f: Fields)
    requires key != "" && '=' !in key && '\n' !in key && '\n' !in value && key !in f.values
    ensures ParseFields(key + "=" + value + "\n" + rest, f)
         == ParseFields(rest, if key == "manifest_body_crc32c"
                              then Fields(f.values[key := value], f.body, value)
                              else Fields(f.values[key := value], f.body + key + "=" + value + "\n", f.expected))
  {
    hide ParseFields;
    assert key + "=" + value + "\n" + rest == Line(Entry(key, value)) + rest;
    assert f.body + key + "=" + value + "\n" == f.body + Line(Entry(key, value));
    ParseOneLine(key, value, rest, f);
  }

  // ----- Whole texts -----

  function Concat(lines: seq<string>): string {
    if lines == [] then "" else lines[0] + Concat(lines[1..])
  }

  lemma {:induction false} BodyConcat(es: seq<Entry>, lines: seq<string>)
    requires |es| == |lines| && forall i :: 0 <= i < |es| ==> Line(es[i]) == lines[i]
    ensures Body(es) == Concat(lines)
    decreases |es|
  {
    hide Line;
    if es != [] {
      BodyConcat(es[1..], lines[1..]);
    }
  }

  lemma SealedText(body: string)
    ensures Sealed(body) == body + "manifest_body_crc32c=" + Hex32(BodyCrc(body)) + "\n"
  {
    hide Hex32, BodyCrc;
    var word := Hex32(BodyCrc(body));
    assert body + ("manifest_body_crc32c" + "=" + word + "\n") == body + "manifest_body_crc32c=" + word + "\n";
  }

  /** The lines of a transfer manifest, key by key. */
  function TransferLines(m: T.Manifest): (lines: seq<string>)
    ensures |lines| == 12
  {
    ["manifest_version=" + Decimal(m.version) + "\n",
     "transfer_id=" + m.transferId + "\n",
     "output_path_hex=" + ToHex(m.outputPath) + "\n",
     "temp_path_hex=" + ToHex(m.tempPath) + "\n",
     "total_size=" + Decimal(m.totalSize) + "\n",
     "chunk_size=" + Decimal(m.chunkSize) + "\n",
     "checksum_algorithm=" + AlgorithmName(m.algorithm) + "\n",
     "created_at_unix_ns=" + Decimal(m.createdAt) + "\n",
     "updated_at_unix_ns=" + Decimal(m.updatedAt) + "\n",
     "state=" + StateName(m.state) + "\n",
     "completed_ranges=" + RangesText(m.completedRanges) + "\n",
     "verified_chunks=" + ChunksText(m.verifiedChunks) + "\n"]
  }

  lemma TransferFirstLines(m: T.Manifest, i: nat)
    requires i < 6
    ensures Line(T.Entries(m)[i]) == TransferLines(m)[i]
  {
    hide Decimal, ToHex, AlgorithmName, StateName, RangesText, ChunksText;
    assert T.Entries(m)[i] == Entry(T.KEYS[i], T.Values(m)[i]);
    assert i == 0 || i == 1 || i == 2 || i == 3 || i == 4 || i == 5;
  }

  lemma TransferLastLines(m: T.Manifest, i: nat)
    requires 6 <= i < 12
    ensures Line(T.Entries(m)[i]) == TransferLines(m)[i]
  {
    hide Decimal, ToHex, AlgorithmName, StateName, RangesText, ChunksText;
    assert T.Entries(m)[i] == Entry(T.KEYS[i], T.Values(m)[i]);
    assert i == 6 || i == 7 || i == 8 || i == 9 || i == 10 || i == 11;
  }

  /** The printed text: the lines in their order, then the checksum of exactly those bytes. */
  lemma TransferFormat(m: T.Manifest)
    requires T.CheckHeader(m).Ok?
    ensures var body := Concat(TransferLines(m));
      T.SerializePrepared(m) == Ok(body + "manifest_body_crc32c=" + Hex32(BodyCrc(body)) + "\n")
  {
    hide T.Entries, Line, Hex32, BodyCrc, Body, Concat, TransferLines;
    var es := T.Entries(m);
    forall i | 0 <= i < 12
      ensures Line(es[i]) == TransferLines(m)[i]
    {
      if i < 6 {
        TransferFirstLines(m, i);
      } else {
        TransferLastLines(m, i);
      }
    }
    BodyConcat(es, TransferLines(m));
    SealedText(Body(es));
  }

  /** The lines of a download manifest, key by key. */
  function DownloadLines(m: D.Manifest): (lines: seq<string>)
    ensures |lines| == 13
  {
    ["manifest_version=" + Decimal(m.version) + "\n",
     "transfer_id=" + m.transferId + "\n",
     "source_path_hex=" + ToHex(m.sourcePath) + "\n",
     "target_path_hex=" + ToHex(m.targetPath) + "\n",
     "temp_path_hex=" + ToHex(m.tempPath) + "\n",
     "total_size=" + Decimal(m.totalSize) + "\n",
     "chunk_size=" + Decimal(m.chunkSize) + "\n",
     "checksum_algorithm=" + AlgorithmName(m.algorithm) + "\n",
     "created_at_unix_ns=" + Decimal(m.createdAt) + "\n",
     "updated_at_unix_ns=" + Decimal(m.updatedAt) + "\n",
     "state=" + StateName(m.state) + "\n",
     "completed_ranges=" + RangesText(m.completedRanges) + "\n",
     "verified_chunks=" + ChunksText(m.verifiedChunks) + "\n"]
  }

  lemma DownloadFirstLines(m: D.Manifest, i: nat)
    requires i < 6
    ensures Line(D.Entries(m)[i]) == DownloadLines(m)[i]
  {
    hide Decimal, ToHex, AlgorithmName, StateName, RangesText, ChunksText;
    assert D.Entries(m)[i] == Entry(D.KEYS[i], D.Values(m)[i]);
    assert i == 0 || i == 1 || i == 2 || i == 3 || i == 4 || i == 5;
  }

  lemma DownloadLastLines(m: D.Manifest, i: nat)
    requires 6 <= i < 13
    ensures Line(D.Entries(m)[i]) == DownloadLines(m)[i]
  {
    hide Decimal, ToHex, AlgorithmName, StateName, RangesText, ChunksText;
    assert D.Entries(m)[i] == Entry(D.KEYS[i], D.Values(m)[i]);
    assert i == 6 || i == 7 || i == 8 || i == 9 || i == 10 || i == 11 || i == 12;
  }

  /** The printed text: the lines in their order, then the checksum of exactly those bytes. */
  lemma DownloadFormat(m: D.Manifest)
    requires D.CheckHeader(m).Ok?
    ensures var body := Concat(DownloadLines(m));
      D.SerializePrepared(m) == Ok(body + "manifest_body_crc32c=" + Hex32(BodyCrc(body)) + "\n")
  {
    hide D.Entries, Line, Hex32, BodyCrc, Body, Concat, DownloadLines;
    var es := D.Entries(m);
    forall i | 0 <= i < 13
      ensures Line(es[i]) == DownloadLines(m)[i]
    {
      if i < 6 {
        DownloadFirstLines(m, i);
      } else {
        DownloadLastLines(m, i);
      }
    }
    BodyConcat(es, DownloadLines(m));
    SealedText(Body(es));
  }

  // ----- Headers -----

  /** One to 128 letters, digits, dots, underscores and dashes. */
  predicate PlainId(id: string) {
    && 1 <= |id| <= 128
    && forall c :: c in id ==>
         'a' <= c <= 'z' || 'A' <= c <= 'Z' || '0' <= c <= '9' || c == '.' || c == '_' || c == '-'
  }

  /** Which headers the printers accept; by `AcceptedSound` and `PreparedReads` the parsers accept the same. */
  lemma HeadersAccepted(t: T.Manifest, d: D.Manifest)
    ensures T.CheckHeader(t).Ok?
       <==> t.version == 2 && PlainId(t.transferId) && t.outputPath != "" && t.tempPath != "" && t.chunkSize > 0
    ensures D.CheckHeader(d).Ok?
       <==> && d.version == 1 && PlainId(d.transferId) && d.chunkSize > 0
            && d.sourcePath != "" && d.targetPath != "" && d.tempPath != ""
  {
  }

  /** The words for states and algorithms. */
  lemma Spellings(text: string)
    ensures ParseState(text) == Ok(Created) <==> text == "created"
    ensures ParseState(text) == Ok(Transferring) <==> text == "transferring"
    ensures ParseState(text) == Ok(Failed) <==> text == "failed"
    ensures ParseState(text) == Ok(Committed) <==> text == "committed"
    ensures ParseAlgorithm(text) == Ok(NoChecksum) <==> text == "none"
    ensures ParseAlgorithm(text) == Ok(Castagnoli) <==> text == "crc32c"
  {
    assert |"created"| == 7 && |"transferring"| == 12 && |"failed"| == 6 && |"committed"| == 9;
    assert |"none"| == 4 && |"crc32c"| == 6;
  }

  // ----- Any accepted text, key by key -----

  /** The field under a key that must be there. */
  ghost predicate Holds(f: Fields, key: string, value: string) {
    key in f.values && f.values[key] == value
  }

  ghost predicate HoldsNumber(f: Fields, key: string, n: nat) {
    key in f.values && ParseU64(f.values[key]) == Ok(n)
  }

  ghost predicate HoldsPath(f: Fields, key: string, path: string) {
    key in f.values && FromHexString(f.values[key]) == Ok(path)
  }

  lemma RequiredKeys(values: map<string, string>)
    ensures HasKeys(values, T.REQUIRED) ==>
      && "transfer_id" in values && "output_path_hex" in values && "temp_path_hex" in values
      && "total_size" in values && "chunk_size" in values && "created_at_unix_ns" in values
      && "updated_at_unix_ns" in values && "state" in values && "completed_ranges" in values
    ensures HasKeys(values, T.REQUIRED_V2) ==>
      "checksum_algorithm" in values && "verified_chunks" in values && "manifest_body_crc32c" in values
  {
    if HasKeys(values, T.REQUIRED) {
      var r := T.REQUIRED;
      assert r[0] in values && r[1] in values && r[2] in values && r[3] in values && r[4] in values;
      assert r[5] in values && r[6] in values && r[7] in values && r[8] in values;
    }
    if HasKeys(values, T.REQUIRED_V2) {
      var r := T.REQUIRED_V2;
      assert r[0] in values && r[1] in values && r[2] in values;
    }
  }

  lemma DownloadKeys(values: map<string, string>)
    ensures HasKeys(values, D.REQUIRED) ==>
      && "manifest_version" in values && "transfer_id" in values && "source_path_hex" in values
      && "target_path_hex" in values && "temp_path_hex" in values && "total_size" in values && "chunk_size" in values
      && "checksum_algorithm" in values && "created_at_unix_ns" in values && "updated_at_unix_ns" in values
      && "state" in values && "completed_ranges" in values && "verified_chunks" in values
      && "manifest_body_crc32c" in values
  {
    if HasKeys(values, D.REQUIRED) {
      var r := D.REQUIRED;
      assert r[0] in values && r[1] in values && r[2] in values && r[3] in values && r[4] in values;
      assert r[5] in values && r[6] in values && r[7] in values && r[8] in values && r[9] in values;
      assert r[10] in values && r[11] in values && r[12] in values && r[13] in values;
    }
  }

  /** The header of an accepted transfer manifest, field by field. */
  ghost predicate TransferHeader(f: Fields, m: T.Manifest) {
    && Holds(f, "transfer_id", m.transferId)
    && HoldsPath(f, "output_path_hex", m.outputPath) && HoldsPath(f, "temp_path_hex", m.tempPath)
    && HoldsNumber(f, "total_size", m.totalSize) && HoldsNumber(f, "chunk_size", m.chunkSize)
    && HoldsNumber(f, "created_at_unix_ns", m.createdAt) && HoldsNumber(f, "updated_at_unix_ns", m.updatedAt)
    && "state" in f.values && ParseState(f.values["state"]) == Ok(m.state)
  }

  /** What version 2 adds: algorithm, progress and the checksum line. */
  ghost predicate TransferProgress(f: Fields, m: T.Manifest) {
    && "checksum_algorithm" in f.values && ParseAlgorithm(f.values["checksum_algorithm"]) == Ok(m.algorithm)
    && "completed_ranges" in f.values && "verified_chunks" in f.values && "manifest_body_crc32c" in f.values
    && ParseProgress(f.values["completed_ranges"], f.values["verified_chunks"], m.totalSize, m.algorithm)
       == Ok((m.completedRanges, m.verifiedChunks))
    && LowerHex(f.expected) == Hex32(BodyCrc(f.body))
  }

  lemma TransferHeaderRead(f: Fields, version: uint32)
    requires HasKeys(f.values, T.REQUIRED) && T.DecodeHeader(f.values, version).Ok?
    ensures TransferHeader(f, T.DecodeHeader(f.values, version).value)
  {
    hide ParseU64, FromHexString, ParseState, HasKeys, T.REQUIRED;
    RequiredKeys(f.values);
  }

  lemma CrcAccepted(f: Fields)
    ensures CheckCrc(f).Ok? <==> LowerHex(f.expected) == Hex32(BodyCrc(f.body))
  {
    hide ParseHex32, LowerHex, Hex32;
    ParseHex32Exact(f.expected, BodyCrc(f.body));
  }

  /**
    Every accepted transfer manifest: each field of the result is read from the line of its own key, all of
    which must be there, and under version 2 the checksum line spells the checksum of the other lines.
   */
  lemma TransferAccepted(text: string)
    requires T.Parse(text).Ok?
    ensures ParseFields(text, NO_FIELDS).Ok?
    ensures var f, m := ParseFields(text, NO_FIELDS).value, T.Parse(text).value;
      && HoldsNumber(f, "manifest_version", m.version) && TransferHeader(f, m) && "completed_ranges" in f.values
      && (m.version == 1 || m.version == 2)
      && (m.version == 1 ==> ParseRanges(f.values["completed_ranges"], [], m.totalSize) == Ok(m.completedRanges))
      && (m.version == 2 ==> TransferProgress(f, m) && T.CheckHeader(m).Ok?)
  {
    hide ParseFields, T.DecodeHeader, CheckCrc, ParseU64, HasKeys, ParseProgress, ParseAlgorithm, ParseRanges,
      TransferHeader, LowerHex, Hex32, BodyCrc, T.REQUIRED, T.REQUIRED_V2;
    var f := ParseFields(text, NO_FIELDS).value;
    RequiredKeys(f.values);
    CrcAccepted(f);
    if T.DecodeHeader(f.values, 1).Ok? {
      T.DecodedHeader(f.values, 1);
    }
    if T.DecodeHeader(f.values, 2).Ok? {
      T.DecodedHeader(f.values, 2);
    }
    HeaderFromDecode(f);
  }

  /** And conversely: a text whose lines hold these fields is accepted, whatever other keys it has. */
  lemma TransferRead(text: string, m: T.Manifest)
    requires ParseFields(text, NO_FIELDS).Ok? && m.version == 2 && T.CheckHeader(m).Ok?
    requires var f := ParseFields(text, NO_FIELDS).value;
      HoldsNumber(f, "manifest_version", 2) && TransferHeader(f, m) && TransferProgress(f, m)
    ensures T.Parse(text) == Ok(m)
  {
    hide ParseFields, CheckCrc, ParseU64, HasKeys, ParseProgress, ParseAlgorithm, LowerHex, Hex32, BodyCrc,
      T.DecodeHeader,
      T.REQUIRED, T.REQUIRED_V2;
    var f := ParseFields(text, NO_FIELDS).value;
    CrcAccepted(f);
    TransferKeysPresent(f.values);
    TransferHeaderDecodes(f, m);
  }

  lemma TransferHeaderDecodes(f: Fields, m: T.Manifest)
    requires TransferHeader(f, m) && T.CheckHeader(m).Ok?
    ensures T.DecodeHeader(f.values, 2) == Ok(m.(algorithm := NoChecksum, completedRanges := [], verifiedChunks := []))
  {
    hide ParseU64, FromHexString, ParseState;
  }

  lemma TransferKeysPresent(values: map<string, string>)
    requires "transfer_id" in values && "output_path_hex" in values && "temp_path_hex" in values
    requires "total_size" in values && "chunk_size" in values && "created_at_unix_ns" in values
    requires "updated_at_unix_ns" in values && "state" in values && "completed_ranges" in values
    requires "checksum_algorithm" in values && "verified_chunks" in values && "manifest_body_crc32c" in values
    ensures HasKeys(values, T.REQUIRED) && HasKeys(values, T.REQUIRED_V2)
  {
  }

  lemma HeaderFromDecode(f: Fields)
    requires T.Decode(f).Ok?
    ensures TransferHeader(f, T.Decode(f).value)
  {
    hide T.DecodeHeader, CheckCrc, ParseU64, HasKeys, ParseProgress, ParseAlgorithm, ParseRanges, T.REQUIRED,
      T.REQUIRED_V2;
    if T.DecodeHeader(f.values, 1).Ok? {
      TransferHeaderRead(f, 1);
    }
    if T.DecodeHeader(f.values, 2).Ok? {
      TransferHeaderRead(f, 2);
    }
  }

  /** The same for download manifests. */
  ghost predicate DownloadHeader(f: Fields, m: D.Manifest) {
    && Holds(f, "transfer_id", m.transferId) && HoldsPath(f, "source_path_hex", m.sourcePath)
    && HoldsPath(f, "target_path_hex", m.targetPath) && HoldsPath(f, "temp_path_hex", m.tempPath)
    && HoldsNumber(f, "total_size", m.totalSize) && HoldsNumber(f, "chunk_size", m.chunkSize)
    && HoldsNumber(f, "created_at_unix_ns", m.createdAt) && HoldsNumber(f, "updated_at_unix_ns", m.updatedAt)
    && "state" in f.values && ParseState(f.values["state"]) == Ok(m.state)
    && "checksum_algorithm" in f.values && ParseAlgorithm(f.values["checksum_algorithm"]) == Ok(m.algorithm)
  }

  ghost predicate DownloadProgress(f: Fields, m: D.Manifest) {
    && "completed_ranges" in f.values && "verified_chunks" in f.values && "manifest_body_crc32c" in f.values
    && ParseProgress(f.values["completed_ranges"], f.values["verified_chunks"], m.totalSize, m.algorithm)
       == Ok((m.completedRanges, m.verifiedChunks))
    && LowerHex(f.expected) == Hex32(BodyCrc(f.body))
  }

  lemma DownloadHeaderRead(f: Fields, version: uint32)
    requires HasKeys(f.values, D.REQUIRED) && D.DecodeHeader(f.values, version).Ok?
    ensures DownloadHeader(f, D.DecodeHeader(f.values, version).value)
  {
    hide ParseU64, FromHexString, ParseState, ParseAlgorithm, HasKeys, D.REQUIRED;
    DownloadKeys(f.values);
  }

  lemma DownloadAccepted(text: string)
    requires D.Parse(text).Ok?
    ensures ParseFields(text, NO_FIELDS).Ok?
    ensures var f, m := ParseFields(text, NO_FIELDS).value, D.Parse(text).value;
      HoldsNumber(f, "manifest_version", 1) && DownloadHeader(f, m) && DownloadProgress(f, m) && D.CheckHeader(m).Ok?
  {
    hide ParseFields, D.DecodeHeader, CheckCrc, ParseU64, HasKeys, ParseProgress,
      DownloadHeader, LowerHex, Hex32, BodyCrc, D.REQUIRED;
    var f := ParseFields(text, NO_FIELDS).value;
    DownloadKeys(f.values);
    CrcAccepted(f);
    D.DecodedHeader(f.values, 1);
    DownloadHeaderRead(f, 1);
    DownloadHeaderOnly(f, D.Parse(text).value, D.DecodeHeader(f.values, 1).value);
  }

  lemma DownloadRead(text: string, m: D.Manifest)
    requires ParseFields(text, NO_FIELDS).Ok? && D.CheckHeader(m).Ok?
    requires var f := ParseFields(text, NO_FIELDS).value;
      HoldsNumber(f, "manifest_version", 1) && DownloadHeader(f, m) && DownloadProgress(f, m)
    ensures D.Parse(text) == Ok(m)
  {
    hide ParseFields, CheckCrc, ParseU64, HasKeys, ParseProgress, LowerHex, Hex32, BodyCrc, D.DecodeHeader, D.REQUIRED;
    var f := ParseFields(text, NO_FIELDS).value;
    CrcAccepted(f);
    DownloadKeysPresent(f.values);
    DownloadHeaderDecodes(f, m);
  }

  lemma DownloadHeaderDecodes(f: Fields, m: D.Manifest)
    requires DownloadHeader(f, m) && D.CheckHeader(m).Ok?
    ensures D.DecodeHeader(f.values, 1) == Ok(m.(completedRanges := [], verifiedChunks := []))
  {
    hide ParseU64, FromHexString, ParseState, ParseAlgorithm;
  }

  lemma DownloadKeysPresent(values: map<string, string>)
    requires "manifest_version" in values && "transfer_id" in values && "source_path_hex" in values
    requires "target_path_hex" in values && "temp_path_hex" in values && "total_size" in values
    requires "chunk_size" in values && "checksum_algorithm" in values && "created_at_unix_ns" in values
    requires "updated_at_unix_ns" in values && "state" in values && "completed_ranges" in values
    requires "verified_chunks" in values && "manifest_body_crc32c" in values
    ensures HasKeys(values, D.REQUIRED)
  {
  }

  lemma DownloadHeaderOnly(f: Fields, m: D.Manifest, h: D.Manifest)
    requires m == h.(completedRanges := m.completedRanges, verifiedChunks := m.verifiedChunks)
    ensures DownloadHeader(f, h) ==> DownloadHeader(f, m)
  {
  }

  // ----- Lines that are refused -----

  /** A blank line is skipped; a line without `=`, with an empty key or with a known key ends the parse. */
  lemma RawLineRefused(line: string, rest: string, f: Fields)
    requires '\n' !in line
    ensures line == "" ==> ParseFields(line + "\n" + rest, f) == ParseFields(rest, f)
    ensures line != "" && '=' !in line ==> ParseFields(line + "\n" + rest, f).Err?
    ensures var key := line[..Find(line, '=')];
      '=' in line && (key == "" || key in f.values) ==> ParseFields(line + "\n" + rest, f).Err?
  {
    FindAfter(line, '\n', rest);
    assert line + "\n" + rest == line + ['\n'] + rest;
    if '=' !in line {
      FindNone(line, '=');
    }
  }

  // ----- Numbers, paths and order -----

  /** Any string of digits reads as its value, leading zeros or not, up to 64 bits; nothing else reads. */
  lemma {:induction false} NumberExact(t: string)
    ensures ParseU64(t).Ok? <==> t != "" && (forall c :: c in t ==> '0' <= c <= '9') && DecimalValue(t) < UINT64_LIMIT
    ensures ParseU64(t).Ok? ==> ParseU64("0" + t) == ParseU64(t)
  {
    if ParseU64(t).Ok? {
      LeadingZero(t);
    }
  }

  lemma {:induction false} LeadingZero(t: string)
    requires forall c :: c in t ==> IsDigit(c)
    ensures (forall c :: c in "0" + t ==> IsDigit(c)) && DecimalValue("0" + t) == DecimalValue(t)
    decreases |t|
  {
    var z := "0" + t;
    if t == "" {
      assert z[..0] == "" && z[0] == '0';
    } else {
      LeadingZero(t[..|t| - 1]);
      assert z[..|t|] == "0" + t[..|t| - 1];
    }
  }

  lemma LowerDigit(c: char)
    requires IsHexDigit(c)
    ensures (if 'A' <= c <= 'F' then HexDigit(FromHex(c)) else c) == HexDigit(FromHex(c))
  {
  }

  lemma LowerPair(t: string)
    requires |t| >= 2
    ensures LowerHex(t) == LowerHex(t[..2]) + LowerHex(t[2..])
    ensures IsHexDigit(t[0]) && IsHexDigit(t[1]) ==>
      LowerHex(t[..2]) == [HexDigit(FromHex(t[0])), HexDigit(FromHex(t[1]))]
  {
    hide HexDigit, FromHex;
    if IsHexDigit(t[0]) && IsHexDigit(t[1]) {
      LowerDigit(t[0]);
      LowerDigit(t[1]);
    }
  }

  lemma ByteHex(a: nat, b: nat, rest: string)
    requires a < 16 && b < 16
    ensures ToHex([(a * 16 + b) as char] + rest) == [HexDigit(a), HexDigit(b)] + ToHex(rest)
  {
    var c := (a * 16 + b) as char;
    assert ([c] + rest)[1..] == rest;
    assert c as int / 16 % 16 == a && c as int % 16 == b;
  }

  lemma {:induction false} DecodedLower(t: string)
    requires |t| % 2 == 0
    ensures DecodePairs(t).Ok? <==> forall c :: c in t ==> IsHexDigit(c)
    ensures DecodePairs(t).Ok? ==> ToHex(DecodePairs(t).value) == LowerHex(t)
    decreases |t|
  {
    hide HexDigit, FromHex, IsHexDigit, ToHex, LowerHex;
    if t == "" {
      EmptyHex();
    } else {
      DecodedLower(t[2..]);
      LowerPair(t);
      assert t == [t[0], t[1]] + t[2..];
      if DecodePairs(t).Ok? {
        ByteHex(FromHex(t[0]), FromHex(t[1]), DecodePairs(t[2..]).value);
      }
    }
  }

  lemma EmptyHex()
    ensures ToHex("") == "" && LowerHex("") == ""
  {
  }

  lemma HexLetters(t: string, s: string)
    requires LowerHex(t) == ToHex(s) && Plain(ToHex(s)) && forall c :: c in ToHex(s) ==> IsHexDigit(c)
    ensures forall c :: c in t ==> IsHexDigit(c)
  {
    hide ToHex;
    forall i | 0 <= i < |t|
      ensures IsHexDigit(t[i])
    {
      assert LowerHex(t)[i] in ToHex(s);
    }
  }

  lemma {:induction false} HexOnly(s: string)
    ensures forall c :: c in ToHex(s) ==> IsHexDigit(c)
    decreases |s|
  {
    hide HexDigit, IsHexDigit;
    if s != "" {
      HexOnly(s[1..]);
    }
  }

  /** A path is read from its hex digits in either case, and from nothing else. */
  lemma PathExact(t: string, s: string)
    requires IsBytes(s)
    ensures FromHexString(t) == Ok(s) <==> LowerHex(t) == ToHex(s)
  {
    hide DecodePairs, ToHex, LowerHex, IsHexDigit;
    if |t| % 2 == 0 {
      DecodedLower(t);
      HexRoundTrip(s);
      HexOnly(s);
      if LowerHex(t) == ToHex(s) {
        HexLetters(t, s);
        DecodedIsBytes(t);
        HexRoundTrip(DecodePairs(t).value);
      }
    }
  }

  /** The full printers write the records by ascending offset. */
  lemma SortedByOffset(cs: seq<Record>)
    ensures forall i, j :: 0 <= i < j < |Sorted(cs)| ==> Sorted(cs)[i].offset <= Sorted(cs)[j].offset
  {
    hide Sorted;
    SortedIsSorted(cs);
  }

  // ----- One text, character by character -----

  /** A twelve-byte file with both of its chunks verified. */
  const EXAMPLE := T.Manifest(2, "t1", "o", "t", 12, 8, Castagnoli, 1, 2, Transferring,
                              [Range(0, 12)], [Record(0, 0, 8, Castagnoli, 42), Record(1, 8, 4, Castagnoli, 255)])

  lemma ExampleNumbers()
    ensures Decimal(0) == "0" && Decimal(1) == "1" && Decimal(2) == "2" && Decimal(4) == "4" && Decimal(8) == "8"
    ensures Decimal(12) == "12"
  {
    assert Decimal(12) == Decimal(1) + [Digit(2)];
  }

  lemma ExamplePaths()
    ensures ToHex("o") == "6f" && ToHex("t") == "74"
  {
    hide ToHex;
    OneByteHex('o');
    OneByteHex('t');
  }

  lemma OneByteHex(c: char)
    ensures ToHex([c]) == [HexDigit(c as int / 16 % 16), HexDigit(c as int % 16)]
  {
    assert [c][1..] == "";
  }

  lemma LastDigit(v: nat, k: nat)
    requires k > 0
    ensures HexDigits(v, k) == HexDigits(v / 16, k - 1) + [HexDigit(v % 16)]
  {
  }

  lemma {:induction false} ZeroDigits(k: nat)
    ensures HexDigits(0, k) == seq(k, _ => '0')
    decreases k
  {
    if k > 0 {
      ZeroDigits(k - 1);
    }
  }

  lemma ExampleWords()
    ensures Hex32(42) == "0000002a" && Hex32(255) == "000000ff"
  {
    hide HexDigits;
    ZeroDigits(6);
    assert seq(6, _ => '0') == "000000";
    LastDigit(42, 8);
    LastDigit(2, 7);
    LastDigit(255, 8);
    LastDigit(15, 7);
  }

  lemma ExampleRange()
    ensures RangesText(EXAMPLE.completedRanges) == "0-12"
  {
    hide Decimal;
    ExampleNumbers();
  }

  lemma ExampleFirstChunk()
    ensures ChunkItem(EXAMPLE.verifiedChunks[0]) == "0:0:8:crc32c:0000002a"
  {
    hide Decimal, Hex32;
    ExampleNumbers();
    ExampleWords();
  }

  lemma ExampleSecondChunk()
    ensures ChunkItem(EXAMPLE.verifiedChunks[1]) == "1:8:4:crc32c:000000ff"
  {
    hide Decimal, Hex32;
    ExampleNumbers();
    ExampleWords();
  }

  lemma ExampleChunks()
    ensures ChunksText(EXAMPLE.verifiedChunks) == "0:0:8:crc32c:0000002a,1:8:4:crc32c:000000ff"
  {
    hide ChunkItem;
    ExampleFirstChunk();
    ExampleSecondChunk();
    var cs := EXAMPLE.verifiedChunks;
    assert ChunksText(cs[1..]) == ChunkItem(cs[1]);
    assert ChunksText(cs) == ChunkItem(cs[0]) + "," + ChunksText(cs[1..]);
  }

  lemma ExampleHeader()
    ensures var lines := TransferLines(EXAMPLE);
      && lines[0] == "manifest_version=2\n" && lines[1] == "transfer_id=t1\n"
      && lines[2] == "output_path_hex=6f\n" && lines[3] == "temp_path_hex=74\n"
      && lines[4] == "total_size=12\n" && lines[5] == "chunk_size=8\n"
  {
    hide Decimal, ToHex, RangesText, ChunksText, AlgorithmName, StateName;
    ExampleNumbers();
    ExamplePaths();
  }

  lemma ExampleProgress()
    ensures var lines := TransferLines(EXAMPLE);
      && lines[6] == "checksum_algorithm=crc32c\n" && lines[7] == "created_at_unix_ns=1\n"
      && lines[8] == "updated_at_unix_ns=2\n" && lines[9] == "state=transferring\n"
      && lines[10] == "completed_ranges=0-12\n"
  {
    hide Decimal, ToHex, RangesText, ChunksText;
    ExampleNumbers();
    ExampleRange();
  }

  lemma ExampleLastLine()
    ensures TransferLines(EXAMPLE)[11] == "verified_chunks=" + "0:0:8:crc32c:0000002a,1:8:4:crc32c:000000ff" + "\n"
  {
    hide ChunksText, Decimal, ToHex, RangesText, AlgorithmName, StateName;
    ExampleChunks();
  }

  /** The body the program writes for the example, line by line. */
  lemma ExampleText()
    ensures T.SerializePrepared(EXAMPLE).Ok?
    ensures var body := Concat(
        ["manifest_version=2\n", "transfer_id=t1\n", "output_path_hex=6f\n", "temp_path_hex=74\n",
         "total_size=12\n", "chunk_size=8\n", "checksum_algorithm=crc32c\n",
         "created_at_unix_ns=1\n", "updated_at_unix_ns=2\n", "state=transferring\n",
         "completed_ranges=0-12\n",
         "verified_chunks=" + "0:0:8:crc32c:0000002a,1:8:4:crc32c:000000ff" + "\n"]);
      T.SerializePrepared(EXAMPLE).value == body + "manifest_body_crc32c=" + Hex32(BodyCrc(body)) + "\n"
  {
    assert T.CheckHeader(EXAMPLE).Ok?;
    hide Concat, Hex32, BodyCrc, TransferLines, T.SerializePrepared;
    ExampleHeader();
    ExampleProgress();
    ExampleLastLine();
    TransferFormat(EXAMPLE);
    var lines := TransferLines(EXAMPLE);
    assert lines == [lines[0], lines[1], lines[2], lines[3], lines[4], lines[5],
                     lines[6], lines[7], lines[8], lines[9], lines[10], lines[11]];
  }
}
