/**
  The loops of the manifest code as written, each proved against the function the theorems speak of.
 */
module ManifestLoops {
  import opened Common
  import opened TextCodec
  import opened RangeLists
  import opened Checksum
  import opened Progress
  import opened ProgressText
  import opened ManifestText

  // ----- Codecs -----

  lemma {:induction false} ToHexConcat(a: string, b: string)
    ensures ToHex(a + b) == ToHex(a) + ToHex(b)
    decreases |a|
  {
    if a == "" {
      assert a + b == b;
    } else {
      assert (a + b)[1..] == a[1..] + b;
      ToHexConcat(a[1..], b);
    }
  }

  method EncodeHex(text: string) returns (encoded: string)
    ensures encoded == ToHex(text)
  {
    encoded := "";
    for i := 0 to |text|
      invariant encoded == ToHex(text[..i])
    {
      ToHexConcat(text[..i], [text[i]]);
      assert text[..i + 1] == text[..i] + [text[i]];
      assert [text[i]][1..] == "";
      var n := text[i] as int;
      encoded := encoded + [HexDigit(n / 16 % 16)];
      encoded := encoded + [HexDigit(n % 16)];
    }
    assert text[..|text|] == text;
  }

  function Prepend(out: string, rest: Result<string>): Result<string> {
    if rest.Err? then rest else Ok(out + rest.value)
  }

  lemma DecodePairsStep(out: string, t: string)
    requires |t| % 2 == 0 && |t| >= 2 && IsHexDigit(t[0]) && IsHexDigit(t[1])
    ensures Prepend(out, DecodePairs(t))
         == Prepend(out + [(FromHex(t[0]) * 16 + FromHex(t[1])) as char], DecodePairs(t[2..]))
  {
    var c := (FromHex(t[0]) * 16 + FromHex(t[1])) as char;
    var rest := DecodePairs(t[2..]);
    if rest.Ok? {
      assert out + ([c] + rest.value) == out + [c] + rest.value;
    }
  }

  method DecodeHex(text: string) returns (decoded: Result<string>)
    ensures decoded == FromHexString(text)
  {
    if |text| % 2 != 0 {
      return Err("hex string must have even length");
    }
    hide IsHexDigit, FromHex;
    var out := "";
    var index := 0;
    assert text[0..] == text;
    PrependNothing(DecodePairs(text));
    while index < |text|
      invariant 0 <= index <= |text| && index % 2 == 0
      invariant DecodePairs(text) == Prepend(out, DecodePairs(text[index..]))
    {
      if !IsHexDigit(text[index]) || !IsHexDigit(text[index + 1]) {
        return Err("hex string contains invalid digit");
      }
      DecodePairsStep(out, text[index..]);
      assert text[index..][2..] == text[index + 2..];
      out := out + [(FromHex(text[index]) * 16 + FromHex(text[index + 1])) as char];
      index := index + 2;
    }
    assert text[index..] == "" && out + "" == out;
    return Ok(out);
  }

  lemma PrependNothing(rest: Result<string>)
    ensures Prepend("", rest) == rest
  {
    if rest.Ok? {
      assert "" + rest.value == rest.value;
    }
  }

  /** `v >> 4 * n`. */
  function ShiftNibbles(v: nat, n: nat): nat
    decreases n
  {
    if n == 0 then v else ShiftNibbles(v / 16, n - 1)
  }

  lemma {:induction false} HexDigitAt(v: nat, k: nat, i: nat)
    requires i < k
    ensures HexDigits(v, k)[i] == HexDigit(ShiftNibbles(v, k - 1 - i) % 16)
    decreases k
  {
    if i < k - 1 {
      HexDigitAt(v / 16, k - 1, i);
    }
  }

  method EncodeHex32(value: uint32) returns (encoded: string)
    ensures encoded == Hex32(value)
  {
    hide HexDigits, ShiftNibbles, HexDigit;
    var digits := new char[8](_ => '0');
    for index := 0 to 8
      invariant forall i :: 0 <= i < index ==> digits[i] == Hex32(value)[i]
    {
      HexDigitAt(value, 8, index);
      digits[index] := HexDigit(ShiftNibbles(value, 7 - index) % 16);
    }
    encoded := digits[..];
  }

  lemma HexValueSnoc(t: string, c: char)
    requires IsHexDigit(c) && forall d :: d in t ==> IsHexDigit(d)
    ensures forall d :: d in t + [c] ==> IsHexDigit(d)
    ensures HexValue(t + [c]) == HexValue(t) * 16 + FromHex(c)
  {
    var s := t + [c];
    assert s[..|s| - 1] == t;
  }

  method DecodeHex32(text: string) returns (r: Result<uint32>)
    ensures r == ParseHex32(text)
  {
    if |text| != 8 {
      return Err("must be 8 hex digits");
    }
    var value := 0;
    for i := 0 to 8
      invariant forall c :: c in text[..i] ==> IsHexDigit(c)
      invariant value == HexValue(text[..i])
    {
      if !IsHexDigit(text[i]) {
        assert text[i] in text;
        return Err("contains invalid hex");
      }
      HexValueSnoc(text[..i], text[i]);
      assert text[..i + 1] == text[..i] + [text[i]];
      value := value * 16 + FromHex(text[i]);
    }
    assert text[..8] == text;
    HexValueBound(text);
    EightDigits();
    return Ok(value);
  }

  // ----- Lists -----

  lemma {:induction false} RangesTextSnoc(rs: seq<Range>, r: Range)
    ensures RangesText(rs + [r]) == RangesText(rs) + (if rs == [] then "" else ",") + RangeItem(r)
    decreases |rs|
  {
    hide RangeItem;
    if rs == [] {
      assert rs + [r] == [r];
    } else {
      assert (rs + [r])[1..] == rs[1..] + [r];
      RangesTextSnoc(rs[1..], r);
    }
  }

  method PrintRanges(ranges: seq<Range>) returns (output: string)
    ensures output == RangesText(ranges)
  {
    hide RangesText, RangeItem;
    output := "";
    assert output == RangesText([]) by {
      RangesTextEmpty();
    }
    for index := 0 to |ranges|
      invariant output == RangesText(ranges[..index])
    {
      RangesTextSnoc(ranges[..index], ranges[index]);
      assert ranges[..index + 1] == ranges[..index] + [ranges[index]];
      if index != 0 {
        output := output + ",";
      }
      output := output + RangeItem(ranges[index]);
    }
    assert ranges[..|ranges|] == ranges;
  }

  lemma RangesTextEmpty()
    ensures RangesText([]) == ""
  {
  }

  lemma {:induction false} ChunksTextSnoc(cs: seq<Record>, c: Record)
    ensures ChunksText(cs + [c]) == ChunksText(cs) + (if cs == [] then "" else ",") + ChunkItem(c)
    decreases |cs|
  {
    hide ChunkItem;
    if cs == [] {
      assert cs + [c] == [c];
    } else {
      assert (cs + [c])[1..] == cs[1..] + [c];
      ChunksTextSnoc(cs[1..], c);
    }
  }

  method PrintChunks(records: seq<Record>) returns (output: string)
    ensures output == ChunksText(records)
  {
    hide ChunksText, ChunkItem;
    output := "";
    assert output == ChunksText([]) by {
      ChunksTextEmpty();
    }
    for index := 0 to |records|
      invariant output == ChunksText(records[..index])
    {
      ChunksTextSnoc(records[..index], records[index]);
      assert records[..index + 1] == records[..index] + [records[index]];
      if index != 0 {
        output := output + ",";
      }
      output := output + ChunkItem(records[index]);
    }
    assert records[..|records|] == records;
  }

  lemma ChunksTextEmpty()
    ensures ChunksText([]) == ""
  {
  }

  lemma ParseRangesAt(text: string, begin: nat, ranges: seq<Range>, totalSize: nat)
    requires begin < |text|
    ensures var comma := Find(text[begin..], ',');
            var added := AddRange(text[begin..][..comma], ranges, totalSize);
            var next := if begin + comma == |text| then |text| else begin + comma + 1;
            next <= |text| && ParseRanges(text[begin..], ranges, totalSize)
              == if added.Err? then added else ParseRanges(text[next..], added.value, totalSize)
  {
    hide AddRange;
    var comma := Find(text[begin..], ',');
    assert begin + comma < |text| ==> text[begin..][comma + 1..] == text[begin + comma + 1..];
    assert text[|text|..] == "";
  }

  method ReadRanges(text: string, totalSize: nat) returns (r: Result<seq<Range>>)
    ensures r == ParseRanges(text, [], totalSize)
  {
    hide Union, ParseRangeItem, ParseRanges;
    var merged := new RangeList();
    var begin := 0;
    assert text[0..] == text;
    while begin < |text|
      invariant 0 <= begin <= |text| && merged.Valid() && fresh(merged)
      invariant ParseRanges(text, [], totalSize) == ParseRanges(text[begin..], merged.ranges, totalSize)
    {
      ParseRangesAt(text, begin, merged.ranges, totalSize);
      var comma := Find(text[begin..], ',');
      var parsed := ParseRangeItem(text[begin..][..comma]);
      if parsed.Err? {
        return Err(parsed.message);
      }
      var status := merged.Merge(parsed.value.begin, parsed.value.end - parsed.value.begin, totalSize);
      if status.Err? {
        return Err(status.message);
      }
      begin := if begin + comma == |text| then |text| else begin + comma + 1;
    }
    assert text[begin..] == "";
    NoMoreRanges(merged.ranges, totalSize);
    return Ok(merged.ranges);
  }

  lemma NoMoreRanges(ranges: seq<Range>, totalSize: nat)
    ensures ParseRanges("", ranges, totalSize) == Ok(ranges)
  {
  }

  lemma ParseChunksAt(text: string, begin: nat, p: Chunks, totalSize: nat, expected: ChecksumAlgorithm)
    requires begin < |text|
    ensures var comma := Find(text[begin..], ',');
            var added := AddChunk(text[begin..][..comma], p, totalSize, expected);
            var next := if begin + comma == |text| then |text| else begin + comma + 1;
            next <= |text| && ParseChunks(text[begin..], p, totalSize, expected)
              == if added.Err? then added else ParseChunks(text[next..], added.value, totalSize, expected)
  {
    hide AddChunk;
    var comma := Find(text[begin..], ',');
    assert begin + comma < |text| ==> text[begin..][comma + 1..] == text[begin + comma + 1..];
    assert text[|text|..] == "";
  }

  /** The chunk loop, with the strict range list that rejects overlaps. */
  method ReadChunks(text: string, totalSize: nat, expected: ChecksumAlgorithm) returns (r: Result<seq<Record>>)
    ensures var spec := ParseChunks(text, Chunks([], []), totalSize, expected);
      r == if spec.Err? then Err(spec.message) else Ok(Sorted(spec.value.records))
  {
    hide Union, ParseChunkItem, Overlaps, ParseChunks, Sorted, InsertReason;
    var records: seq<Record> := [];
    var completed := new RangeList();
    var begin := 0;
    assert text[0..] == text;
    while begin < |text|
      invariant 0 <= begin <= |text| && completed.Valid() && fresh(completed)
      invariant ParseChunks(text, Chunks([], []), totalSize, expected)
             == ParseChunks(text[begin..], Chunks(records, completed.ranges), totalSize, expected)
    {
      ParseChunksAt(text, begin, Chunks(records, completed.ranges), totalSize, expected);
      var comma := Find(text[begin..], ',');
      var parsed := ParseChunkItem(text[begin..][..comma], expected);
      if parsed.Err? {
        return Err(parsed.message);
      }
      var c := parsed.value;
      var status := completed.Insert(c.offset, c.length, totalSize);
      if status.Err? {
        return Err(status.message);
      }
      records := records + [c];
      begin := if begin + comma == |text| then |text| else begin + comma + 1;
    }
    assert text[begin..] == "";
    NoMoreChunks(Chunks(records, completed.ranges), totalSize, expected);
    return Ok(Sorted(records));
  }

  lemma NoMoreChunks(p: Chunks, totalSize: nat, expected: ChecksumAlgorithm)
    ensures ParseChunks("", p, totalSize, expected) == Ok(p)
  {
  }

  method CompletedFromVerified(records: seq<Record>, totalSize: nat) returns (r: Result<seq<Range>>)
    ensures r == InsertAll([], Sorted(records), totalSize)
  {
    hide Union, Overlaps, Sorted, InsertReason;
    var sorted := Sorted(records);
    var completed := new RangeList();
    for i := 0 to |sorted|
      invariant completed.Valid() && fresh(completed)
      invariant InsertAll([], sorted, totalSize) == InsertAll(completed.ranges, sorted[i..], totalSize)
    {
      assert sorted[i..][1..] == sorted[i + 1..];
      var status := completed.Insert(sorted[i].offset, sorted[i].length, totalSize);
      if status.Err? {
        return Err(status.message);
      }
    }
    return Ok(completed.ranges);
  }

  // ----- Lines -----

  /** The line loop: builds the key map, the body text and the expected checksum step by step. */
  method ReadFields(text: string) returns (r: Result<Fields>)
    ensures r == ParseFields(text, NO_FIELDS)
  {
    var values: map<string, string> := map[];
    var bodyText, expected := "", "";
    var begin := 0;
    while begin < |text|
      invariant 0 <= begin <= |text|
      invariant ParseFields(text, NO_FIELDS) == ParseFields(text[begin..], Fields(values, bodyText, expected))
    {
      var k := Find(text[begin..], '\n');
      var line := text[begin..][..k];
      assert begin + k != |text| ==> text[begin..][k + 1..] == text[begin + k + 1..];
      ghost var before := Fields(values, bodyText, expected);
      if line != "" {
        var equals := Find(line, '=');
        if equals == |line| {
          return Err("manifest line missing equals");
        }
        var key, value := line[..equals], line[equals + 1..];
        if key == "" || key in values {
          return Err("manifest contains duplicate or empty key");
        }
        values := values[key := value];
        if key == CRC_KEY {
          expected := value;
        } else {
          bodyText := bodyText + line;
          bodyText := bodyText + "\n";
        }
      }
      assert AddLine(before, line) == Ok(Fields(values, bodyText, expected));
      begin := if begin + k == |text| then |text| else begin + k + 1;
    }
    assert text[begin..] == "";
    return Ok(Fields(values, bodyText, expected));
  }
}
