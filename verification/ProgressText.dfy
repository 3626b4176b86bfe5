/** Printing and parsing the two progress lists, and the consistency check between them. */
module ProgressText {
  import opened Common
  import opened TextCodec
  import opened RangeLists
  import opened Checksum
  import opened Progress

  // ----- Printers -----

  function RangeItem(r: Range): string {
    Decimal(r.begin) + "-" + Decimal(r.end)
  }

  function RangesText(rs: seq<Range>): string {
    if rs == [] then ""
    else if |rs| == 1 then RangeItem(rs[0])
    else RangeItem(rs[0]) + "," + RangesText(rs[1..])
  }

  function ChunkItem(c: Record): string {
    Decimal(c.chunkId) + ":" + (Decimal(c.offset) + ":" + (Decimal(c.length) + ":"
      + (AlgorithmName(c.algorithm) + ":" + Hex32(c.value))))
  }

  function ChunksText(cs: seq<Record>): string {
    if cs == [] then ""
    else if |cs| == 1 then ChunkItem(cs[0])
    else ChunkItem(cs[0]) + "," + ChunksText(cs[1..])
  }

  // ----- Parsers -----

  function ParseRangeItem(item: string): (r: Result<Range>)
    ensures r.Ok? ==> r.value.begin < r.value.end
  {
    var dash := Find(item, '-');
    if dash == |item| then Err("manifest range missing dash") else
      var begin :- ParseU64(item[..dash]);
      var end :- ParseU64(item[dash + 1..]);
      if end <= begin then Err("manifest range end must exceed begin") else Ok(Range(begin, end))
  }

  function AddRange(item: string, ranges: seq<Range>, total: nat): Result<seq<Range>> {
    var r :- ParseRangeItem(item);
    if ValidRequest(r.begin, r.end - r.begin, total)
    then Ok(Union(ranges, r.begin, r.end)) else Err("range exceeds transfer size")
  }

  function ParseRanges(text: string, ranges: seq<Range>, total: nat): Result<seq<Range>>
    decreases |text|
  {
    if text == "" then Ok(ranges) else
      var comma := Find(text, ',');
      var next :- AddRange(text[..comma], ranges, total);
      if comma == |text| then Ok(next) else ParseRanges(text[comma + 1..], next, total)
  }

  function Split(t: string): Result<(string, string)> {
    var k := Find(t, ':');
    if k == |t| then Err("verified chunk missing field") else Ok((t[..k], t[k + 1..]))
  }

  function ParseChunkItem(item: string, expected: ChecksumAlgorithm): Result<Record> {
    var (idText, t1) :- Split(item);
    var (offsetText, t2) :- Split(t1);
    var (lengthText, t3) :- Split(t2);
    var (algorithmText, valueText) :- Split(t3);
    if ':' in valueText then Err("verified chunk has too many fields") else
      var chunkId :- ParseU64(idText);
      var offset :- ParseU64(offsetText);
      var length :- ParseU64(lengthText);
      var algorithm :- ParseAlgorithm(algorithmText);
      if algorithm != expected then Err("verified chunk checksum algorithm mismatch") else
        var value :- ParseHex32(valueText);
        Ok(Record(chunkId, offset, length, algorithm, value))
  }

  /** What the chunk loop carries: the records so far and the ranges they cover. */
  datatype Chunks = Chunks(records: seq<Record>, covered: seq<Range>)

  function AddChunk(item: string, p: Chunks, total: nat, expected: ChecksumAlgorithm): Result<Chunks> {
    var c :- ParseChunkItem(item, expected);
    if !ValidRecord(c, total) || Overlaps(p.covered, c.offset, c.offset + c.length)
    then Err(InsertReason(p.covered, c.offset, c.length, total))
    else Ok(Chunks(p.records + [c], Union(p.covered, c.offset, c.offset + c.length)))
  }

  function ParseChunks(text: string, p: Chunks, total: nat, expected: ChecksumAlgorithm): Result<Chunks>
    decreases |text|
  {
    if text == "" then Ok(p) else
      var comma := Find(text, ',');
      var next :- AddChunk(text[..comma], p, total, expected);
      if comma == |text| then Ok(next) else ParseChunks(text[comma + 1..], next, total, expected)
  }

  /** Both lists, accepted only when the ranges are exactly what the chunks cover. */
  function ParseProgress(rangesText: string, chunksText: string, total: nat, expected: ChecksumAlgorithm)
    : Result<(seq<Range>, seq<Record>)>
  {
    var ranges :- ParseRanges(rangesText, [], total);
    var parsed :- ParseChunks(chunksText, Chunks([], []), total, expected);
    var chunks := Sorted(parsed.records);
    var derived :- InsertAll([], Sorted(chunks), total);
    if ranges == derived then Ok((ranges, chunks)) else Err("completed_ranges do not match verified chunks")
  }

  // ----- Items read back -----

  lemma DecimalPlain(n: nat)
    ensures Plain(Decimal(n))
  {
  }

  lemma PlainFree(s: string)
    requires Plain(s)
    ensures ',' !in s && '-' !in s && ':' !in s && '\n' !in s
  {
  }

  lemma AlgorithmRoundTrip(a: ChecksumAlgorithm)
    ensures ParseAlgorithm(AlgorithmName(a)) == Ok(a) && Plain(AlgorithmName(a))
  {
  }

  lemma RangeItemReads(r: Range)
    ensures ParseRangeItem(RangeItem(r)).Ok? <==> r.begin < r.end < UINT64_LIMIT
    ensures ParseRangeItem(RangeItem(r)).Ok? ==> ParseRangeItem(RangeItem(r)) == Ok(r)
    ensures RangeItem(r) != "" && ',' !in RangeItem(r) && '\n' !in RangeItem(r)
  {
    var a, b := Decimal(r.begin), Decimal(r.end);
    DecimalPlain(r.begin);
    DecimalPlain(r.end);
    PlainFree(a);
    PlainFree(b);
    FindAfter(a, '-', b);
    assert RangeItem(r) == a + ['-'] + b;
    ParseDecimal(r.begin);
    ParseDecimal(r.end);
  }

  lemma SplitAfter(a: string, b: string)
    requires ':' !in a
    ensures Split(a + ":" + b) == Ok((a, b))
  {
    FindAfter(a, ':', b);
    assert a + ":" + b == a + [':'] + b;
  }

  lemma ChunkItemPlain(c: Record)
    ensures ChunkItem(c) != "" && ',' !in ChunkItem(c) && '\n' !in ChunkItem(c)
  {
    hide Decimal, Hex32, AlgorithmName;
    DecimalPlain(c.chunkId);
    DecimalPlain(c.offset);
    DecimalPlain(c.length);
    AlgorithmRoundTrip(c.algorithm);
    PlainFree(Decimal(c.chunkId));
    PlainFree(Decimal(c.offset));
    PlainFree(Decimal(c.length));
    PlainFree(AlgorithmName(c.algorithm));
    PlainFree(Hex32(c.value));
  }

  lemma ChunkItemReads(c: Record, expected: ChecksumAlgorithm)
    ensures ParseChunkItem(ChunkItem(c), expected).Ok? <==> c.algorithm == expected
    ensures c.algorithm == expected ==> ParseChunkItem(ChunkItem(c), expected) == Ok(c)
  {
    hide Decimal, Hex32, AlgorithmName, Split, ParseU64, ParseHex32, ParseAlgorithm;
    DecimalPlain(c.chunkId);
    DecimalPlain(c.offset);
    DecimalPlain(c.length);
    AlgorithmRoundTrip(c.algorithm);
    PlainFree(Decimal(c.chunkId));
    PlainFree(Decimal(c.offset));
    PlainFree(Decimal(c.length));
    PlainFree(AlgorithmName(c.algorithm));
    PlainFree(Hex32(c.value));
    var t3 := AlgorithmName(c.algorithm) + ":" + Hex32(c.value);
    var t2 := Decimal(c.length) + ":" + t3;
    var t1 := Decimal(c.offset) + ":" + t2;
    SplitAfter(Decimal(c.chunkId), t1);
    SplitAfter(Decimal(c.offset), t2);
    SplitAfter(Decimal(c.length), t3);
    SplitAfter(AlgorithmName(c.algorithm), Hex32(c.value));
    ParseDecimal(c.chunkId);
    ParseDecimal(c.offset);
    ParseDecimal(c.length);
    Hex32RoundTrip(c.value);
  }

  // ----- Lists read back -----

  ghost predicate ValidRanges(rs: seq<Range>, total: nat) {
    forall i :: 0 <= i < |rs| ==> rs[i].begin < rs[i].end <= total
  }

  function UnionAll(acc: seq<Range>, rs: seq<Range>): seq<Range>
    requires forall i :: 0 <= i < |rs| ==> rs[i].begin < rs[i].end
    decreases |rs|
  {
    if rs == [] then acc else UnionAll(Union(acc, rs[0].begin, rs[0].end), rs[1..])
  }

  lemma AddRangeReads(r: Range, acc: seq<Range>, total: uint64)
    ensures AddRange(RangeItem(r), acc, total).Ok? <==> r.begin < r.end <= total
    ensures r.begin < r.end <= total ==> AddRange(RangeItem(r), acc, total) == Ok(Union(acc, r.begin, r.end))
  {
    hide Union, ParseRangeItem, RangeItem;
    RangeItemReads(r);
  }

  lemma ParseRangesStep(item: string, rest: string, acc: seq<Range>, total: nat)
    requires item != "" && ',' !in item
    ensures ParseRanges(item, acc, total) == AddRange(item, acc, total)
    ensures var added := AddRange(item, acc, total);
            ParseRanges(item + "," + rest, acc, total)
              == if added.Err? then added else ParseRanges(rest, added.value, total)
  {
    hide AddRange;
    FindNone(item, ',');
    assert item[..|item|] == item;
    FindAfter(item, ',', rest);
    assert item + "," + rest == item + [','] + rest;
  }

  /** What parsing printed ranges on top of `acc` must give. */
  ghost predicate RangesReadBack(outcome: Result<seq<Range>>, acc: seq<Range>, rs: seq<Range>, total: nat) {
    && (outcome.Ok? <==> ValidRanges(rs, total))
    && (outcome.Ok? ==> outcome == Ok(UnionAll(acc, rs)))
  }

  lemma RangesReadCons(outcome: Result<seq<Range>>, r: Range, acc: seq<Range>, t: seq<Range>, total: uint64)
    requires var added := AddRange(RangeItem(r), acc, total);
             if added.Err? then outcome.Err? else RangesReadBack(outcome, added.value, t, total)
    ensures RangesReadBack(outcome, acc, [r] + t, total)
  {
    hide Union, AddRange, RangeItem;
    AddRangeReads(r, acc, total);
    assert ([r] + t)[1..] == t;
    assert ValidRanges([r] + t, total) <==> r.begin < r.end <= total && ValidRanges(t, total) by {
      assert ([r] + t)[0] == r;
      assert forall i :: 0 <= i < |t| ==> ([r] + t)[i + 1] == t[i];
    }
  }

  lemma RangesReadEmpty(acc: seq<Range>, total: nat)
    ensures RangesReadBack(Ok(acc), acc, [], total)
  {
  }

  lemma {:induction false} RangesRead(rs: seq<Range>, acc: seq<Range>, total: uint64)
    ensures RangesReadBack(ParseRanges(RangesText(rs), acc, total), acc, rs, total)
    decreases |rs|
  {
    hide AddRange, RangeItem, RangesReadBack;
    if rs == [] {
      RangesReadEmpty(acc, total);
    } else {
      var r, t := rs[0], rs[1..];
      assert rs == [r] + t;
      RangeItemReads(r);
      ParseRangesStep(RangeItem(r), RangesText(t), acc, total);
      var added := AddRange(RangeItem(r), acc, total);
      if added.Ok? {
        if |rs| == 1 {
          RangesReadEmpty(added.value, total);
        } else {
          RangesRead(t, added.value, total);
        }
      }
      RangesReadCons(ParseRanges(RangesText(rs), acc, total), r, acc, t, total);
    }
  }

  ghost predicate SameAlgorithm(cs: seq<Record>, a: ChecksumAlgorithm) {
    forall c :: c in cs ==> c.algorithm == a
  }

  lemma AddChunkReads(c: Record, p: Chunks, total: nat, a: ChecksumAlgorithm)
    ensures AddChunk(ChunkItem(c), p, total, a).Ok?
      <==> c.algorithm == a && ValidRecord(c, total) && !Overlaps(p.covered, c.offset, c.offset + c.length)
    ensures AddChunk(ChunkItem(c), p, total, a).Ok?
      ==> AddChunk(ChunkItem(c), p, total, a)
          == Ok(Chunks(p.records + [c], Union(p.covered, c.offset, c.offset + c.length)))
  {
    hide Union, Overlaps, ParseChunkItem, ChunkItem;
    ChunkItemReads(c, a);
  }

  lemma InsertAllCons(rs: seq<Range>, c: Record, t: seq<Record>, total: nat)
    ensures InsertAll(rs, [c] + t, total)
         == if !ValidRecord(c, total) || Overlaps(rs, c.offset, c.offset + c.length)
            then Err(InsertReason(rs, c.offset, c.length, total))
            else InsertAll(Union(rs, c.offset, c.offset + c.length), t, total)
  {
    assert ([c] + t)[1..] == t;
  }

  lemma ParseChunksStep(item: string, rest: string, p: Chunks, total: nat, a: ChecksumAlgorithm)
    requires item != "" && ',' !in item
    ensures ParseChunks(item, p, total, a) == AddChunk(item, p, total, a)
    ensures var added := AddChunk(item, p, total, a);
            ParseChunks(item + "," + rest, p, total, a)
              == if added.Err? then added else ParseChunks(rest, added.value, total, a)
  {
    hide AddChunk;
    FindNone(item, ',');
    assert item[..|item|] == item;
    FindAfter(item, ',', rest);
    assert item + "," + rest == item + [','] + rest;
  }

  /** What parsing printed chunks from state `p` must give. */
  ghost predicate ReadsBack(outcome: Result<Chunks>, p: Chunks, cs: seq<Record>, total: nat, a: ChecksumAlgorithm) {
    && (outcome.Ok? <==> SameAlgorithm(cs, a) && InsertAll(p.covered, cs, total).Ok?)
    && (outcome.Ok? ==> outcome == Ok(Chunks(p.records + cs, InsertAll(p.covered, cs, total).value)))
  }

  lemma ReadsBackCons(outcome: Result<Chunks>, c: Record, p: Chunks, t: seq<Record>, total: nat, a: ChecksumAlgorithm)
    requires var added := AddChunk(ChunkItem(c), p, total, a);
             if added.Err? then outcome.Err? else ReadsBack(outcome, added.value, t, total, a)
    ensures ReadsBack(outcome, p, [c] + t, total, a)
  {
    hide Union, Overlaps, AddChunk, ChunkItem, ValidRecord, InsertAll;
    AddChunkReads(c, p, total, a);
    InsertAllCons(p.covered, c, t, total);
    assert SameAlgorithm([c] + t, a) <==> c.algorithm == a && SameAlgorithm(t, a) by {
      assert ([c] + t)[0] == c;
      assert forall d :: d in [c] + t <==> d == c || d in t;
    }
    assert p.records + [c] + t == p.records + ([c] + t);
  }

  lemma ReadsBackEmpty(p: Chunks, total: nat, a: ChecksumAlgorithm)
    ensures ReadsBack(Ok(p), p, [], total, a)
  {
    assert p.records + [] == p.records;
  }

  lemma {:induction false} ChunksRead(cs: seq<Record>, p: Chunks, total: nat, a: ChecksumAlgorithm)
    ensures ReadsBack(ParseChunks(ChunksText(cs), p, total, a), p, cs, total, a)
    decreases |cs|
  {
    hide AddChunk, ChunkItem, ReadsBack;
    if cs == [] {
      ReadsBackEmpty(p, total, a);
    } else {
      var c, t := cs[0], cs[1..];
      assert cs == [c] + t;
      ChunkItemPlain(c);
      ParseChunksStep(ChunkItem(c), ChunksText(t), p, total, a);
      var added := AddChunk(ChunkItem(c), p, total, a);
      if added.Ok? {
        if |cs| == 1 {
          ReadsBackEmpty(added.value, total, a);
        } else {
          ChunksRead(t, added.value, total, a);
        }
      }
      ReadsBackCons(ParseChunks(ChunksText(cs), p, total, a), c, p, t, total, a);
    }
  }

  // ----- Any accepted text -----

  lemma {:induction false} RangesSound(text: string, acc: seq<Range>, total: nat)
    requires Canonical(acc) && Within(acc, total) && ParseRanges(text, acc, total).Ok?
    ensures Canonical(ParseRanges(text, acc, total).value) && Within(ParseRanges(text, acc, total).value, total)
    decreases |text|
  {
    hide Union, ParseRangeItem;
    if text != "" {
      var comma := Find(text, ',');
      var r := ParseRangeItem(text[..comma]).value;
      UnionCanonical(acc, r.begin, r.end, -1);
      UnionWithin(acc, r.begin, r.end, total);
      if comma != |text| {
        RangesSound(text[comma + 1..], Union(acc, r.begin, r.end), total);
      }
    }
  }

  lemma AddChunkSound(item: string, p: Chunks, total: nat, a: ChecksumAlgorithm) returns (c: Record)
    requires AddChunk(item, p, total, a).Ok?
    ensures c.algorithm == a && ValidRecord(c, total) && !Overlaps(p.covered, c.offset, c.offset + c.length)
    ensures AddChunk(item, p, total, a) == Ok(Chunks(p.records + [c], Union(p.covered, c.offset, c.offset + c.length)))
  {
    hide Union, Overlaps, ParseChunkItem, ValidRecord;
    c := ParseChunkItem(item, a).value;
    ParsedAlgorithm(item, a);
  }

  lemma {:induction false} ChunksSound(text: string, p: Chunks, total: nat, a: ChecksumAlgorithm)
    returns (cs: seq<Record>)
    requires ParseChunks(text, p, total, a).Ok?
    ensures ParseChunks(text, p, total, a).value.records == p.records + cs
    ensures SameAlgorithm(cs, a) && InsertAll(p.covered, cs, total).Ok?
    decreases |text|
  {
    hide Union, Overlaps, AddChunk, ValidRecord;
    if text == "" {
      cs := [];
    } else {
      var comma := Find(text, ',');
      var c := AddChunkSound(text[..comma], p, total, a);
      var next := AddChunk(text[..comma], p, total, a).value;
      var rest := [];
      if comma != |text| {
        rest := ChunksSound(text[comma + 1..], next, total, a);
      }
      cs := [c] + rest;
      InsertAllCons(p.covered, c, rest, total);
      assert p.records + [c] + rest == p.records + cs;
    }
  }

  lemma ParsedAlgorithm(item: string, a: ChecksumAlgorithm)
    requires ParseChunkItem(item, a).Ok?
    ensures ParseChunkItem(item, a).value.algorithm == a
  {
    hide Split, ParseU64, ParseHex32, ParseAlgorithm;
  }

  // ----- The two representations -----

  lemma {:induction false} UnionAllCovers(acc: seq<Range>, rs: seq<Range>, total: nat)
    requires Canonical(acc) && ValidRanges(rs, total)
    ensures Canonical(UnionAll(acc, rs))
    ensures forall x: nat :: Covers(UnionAll(acc, rs), x) <==> Covers(acc, x) || Covers(rs, x)
    decreases |rs|
  {
    hide Union;
    if rs != [] {
      UnionCanonical(acc, rs[0].begin, rs[0].end, -1);
      UnionAllCovers(Union(acc, rs[0].begin, rs[0].end), rs[1..], total);
      forall x: nat
        ensures Covers(UnionAll(acc, rs), x) <==> Covers(acc, x) || Covers(rs, x)
      {
        UnionCovers(acc, rs[0].begin, rs[0].end, x);
        CoversHead(rs, x);
      }
    }
  }

  ghost predicate SameBytes(rs: seq<Range>, cs: seq<Record>) {
    forall x: nat :: Covers(rs, x) <==> ChunkCovers(cs, x)
  }

  /** What makes a manifest's progress acceptable. */
  ghost predicate Consistent(rs: seq<Range>, cs: seq<Record>, total: nat, a: ChecksumAlgorithm) {
    ValidRanges(rs, total) && SameAlgorithm(cs, a) && Disjoint(cs, total) && SameBytes(rs, cs)
  }

  /** The ranges the chunks cover, in canonical form. */
  function Derived(cs: seq<Record>, total: nat): seq<Range>
    requires InsertAll([], cs, total).Ok?
  {
    InsertAll([], cs, total).value
  }

  lemma RangesMatchDerived(rs: seq<Range>, cs: seq<Record>, total: nat)
    requires ValidRanges(rs, total) && InsertAll([], cs, total).Ok?
    ensures UnionAll([], rs) == Derived(cs, total) <==> SameBytes(rs, cs)
  {
    UnionAllCovers([], rs, total);
    InsertAllCovers([], cs, total);
    if SameBytes(rs, cs) {
      CanonicalUnique(UnionAll([], rs), Derived(cs, total));
    }
  }

  /** Printed progress is accepted exactly when it is consistent, and comes back normalized. */
  lemma ProgressReads(rs: seq<Range>, cs: seq<Record>, total: uint64, a: ChecksumAlgorithm)
    ensures ParseProgress(RangesText(rs), ChunksText(cs), total, a).Ok? <==> Consistent(rs, cs, total, a)
    ensures Consistent(rs, cs, total, a) ==> InsertAll([], cs, total).Ok?
    ensures Consistent(rs, cs, total, a)
      ==> ParseProgress(RangesText(rs), ChunksText(cs), total, a) == Ok((Derived(cs, total), Sorted(cs)))
  {
    hide ParseRanges, ParseChunks, RangesText, ChunksText, Sorted, InsertAll, UnionAll;
    RangesRead(rs, [], total);
    ChunksRead(cs, Chunks([], []), total, a);
    assert [] + cs == cs;
    SortedInserts(cs, total);
    if Disjoint(cs, total) {
      SortedStrict(cs, total);
      SortedIsSorted(cs);
      SortedIdempotent(Sorted(cs), total);
      if ValidRanges(rs, total) {
        RangesMatchDerived(rs, cs, total);
      }
    }
  }

  /** Whatever text is accepted, the chunks are sorted, disjoint, in range, and cover exactly the ranges. */
  lemma ProgressSound(rangesText: string, chunksText: string, total: nat, a: ChecksumAlgorithm)
    requires ParseProgress(rangesText, chunksText, total, a).Ok?
    ensures var (rs, cs) := ParseProgress(rangesText, chunksText, total, a).value;
            IsSorted(cs) && Consistent(rs, cs, total, a) && Canonical(rs)
            && Sorted(cs) == cs && InsertAll([], cs, total) == Ok(rs)
  {
    hide ParseRanges, ParseChunks, Sorted, InsertAll;
    var (rs, cs) := ParseProgress(rangesText, chunksText, total, a).value;
    var raw := ChunksSound(chunksText, Chunks([], []), total, a);
    assert [] + raw == raw && cs == Sorted(raw);
    NormalForm(raw, total, a);
    assert rs == Derived(raw, total);
    hide Consistent;
    InsertAllCovers([], raw, total);
  }

  lemma CanonicalValid(rs: seq<Range>, total: nat)
    requires Canonical(rs) && Within(rs, total)
    ensures ValidRanges(rs, total)
  {
  }

  // ----- The printed lists fit on one line -----

  lemma DecimalPrintable(n: nat)
    ensures Printable(Decimal(n))
  {
  }

  lemma PlainPrintable(s: string)
    requires Plain(s)
    ensures Printable(s)
  {
  }

  lemma {:induction false} RangesTextPrintable(rs: seq<Range>)
    ensures Printable(RangesText(rs))
    decreases |rs|
  {
    if rs != [] {
      hide Decimal;
      DecimalPrintable(rs[0].begin);
      DecimalPrintable(rs[0].end);
      RangesTextPrintable(rs[1..]);
    }
  }

  lemma ChunkItemPrintable(c: Record)
    ensures Printable(ChunkItem(c))
  {
    hide Decimal, Hex32, AlgorithmName;
    DecimalPrintable(c.chunkId);
    DecimalPrintable(c.offset);
    DecimalPrintable(c.length);
    AlgorithmRoundTrip(c.algorithm);
    PlainPrintable(AlgorithmName(c.algorithm));
    PlainPrintable(Hex32(c.value));
  }

  lemma {:induction false} ChunksTextPrintable(cs: seq<Record>)
    ensures Printable(ChunksText(cs))
    decreases |cs|
  {
    hide ChunkItem;
    if cs != [] {
      ChunkItemPrintable(cs[0]);
      ChunksTextPrintable(cs[1..]);
    }
  }

  /**
    The normal form of progress: sorted records and the ranges derived from them.  It exists exactly for
    disjoint in-range records, is its own normal form, and is consistent exactly when every record has
    the algorithm.
   */
  lemma NormalForm(cs: seq<Record>, total: nat, a: ChecksumAlgorithm)
    ensures InsertAll([], cs, total).Ok? <==> Disjoint(cs, total)
    ensures InsertAll([], Sorted(Sorted(cs)), total).Ok? <==> Disjoint(cs, total)
    ensures Disjoint(cs, total) ==>
      && IsSorted(Sorted(cs)) && Sorted(Sorted(cs)) == Sorted(cs)
      && InsertAll([], Sorted(cs), total) == Ok(Derived(cs, total)) && ValidRanges(Derived(cs, total), total)
      && (Consistent(Derived(cs, total), Sorted(cs), total, a) <==> SameAlgorithm(cs, a))
  {
    hide InsertAll, Sorted;
    SortedInserts(cs, total);
    SortedInserts(Sorted(cs), total);
    SortedMembers(cs);
    SortedApart(cs);
    if Disjoint(cs, total) {
      SortedStrict(cs, total);
      SortedIsSorted(cs);
      SortedIdempotent(Sorted(cs), total);
      InsertAllCovers([], Sorted(cs), total);
      CanonicalValid(Derived(cs, total), total);
    }
  }
}
