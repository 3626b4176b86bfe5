/**
  The line format both manifest kinds share: `key=value` lines, then one line with the CRC32C of the
  lines before it.
 */
module ManifestText {
  import opened Common
  import opened TextCodec
  import Crc32c
  import CrcDetection

  datatype Entry = Entry(key: string, value: string)

  const CRC_KEY := "manifest_body_crc32c"

  function Line(e: Entry): (t: string)
    ensures |t| == |e.key| + |e.value| + 2
  {
    e.key + "=" + e.value + "\n"
  }

  function Body(es: seq<Entry>): string {
    if es == [] then "" else Line(es[0]) + Body(es[1..])
  }

  // ----- The body checksum -----

  function TextBytes(s: string): (b: seq<byte>)
    ensures |b| == |s| && forall i :: 0 <= i < |s| ==> b[i] == s[i] as int % 256
  {
    seq(|s|, i requires 0 <= i < |s| => s[i] as int % 256)
  }

  lemma WordBound(w: Crc32c.Bits)
    requires |w| == 32
    ensures Crc32c.ToNat(w) < 0x1_0000_0000
  {
    Crc32c.FromToNat(w);
    Crc32c.Pow2Word();
  }

  function BodyCrc(text: string): uint32 {
    var w := Crc32c.Checksum(TextBytes(text));
    WordBound(w);
    Crc32c.ToNat(w)
  }

  lemma BodyCrcDiffers(a: string, b: string)
    requires Crc32c.Checksum(TextBytes(a)) != Crc32c.Checksum(TextBytes(b))
    ensures BodyCrc(a) != BodyCrc(b)
  {
    Crc32c.FromToNat(Crc32c.Checksum(TextBytes(a)));
    Crc32c.FromToNat(Crc32c.Checksum(TextBytes(b)));
  }

  /** A body and its checksum line: what the serializers emit. */
  function Sealed(body: string): string {
    body + Line(Entry(CRC_KEY, Hex32(BodyCrc(body))))
  }

  // ----- The line loop of the parsers -----

  datatype Fields = Fields(values: map<string, string>, body: string, expected: string)

  const NO_FIELDS := Fields(map[], "", "")

  function AddLine(f: Fields, line: string): Result<Fields> {
    if line == "" then Ok(f) else
      var equals := Find(line, '=');
      if equals == |line| then Err("manifest line missing equals") else
        var key, value := line[..equals], line[equals + 1..];
        if key == "" || key in f.values then Err("manifest contains duplicate or empty key")
        else if key == CRC_KEY then Ok(Fields(f.values[key := value], f.body, value))
        else Ok(Fields(f.values[key := value], f.body + line + "\n", f.expected))
  }

  /** One pass over the lines; a last line without a newline counts. */
  function ParseFields(text: string, f: Fields): Result<Fields>
    decreases |text|
  {
    if text == "" then Ok(f) else
      var k := Find(text, '\n');
      var next :- AddLine(f, text[..k]);
      if k == |text| then Ok(next) else ParseFields(text[k + 1..], next)
  }

  function Get(values: map<string, string>, key: string): string {
    if key in values then values[key] else ""
  }

  predicate HasKeys(values: map<string, string>, keys: seq<string>) {
    forall i :: 0 <= i < |keys| ==> keys[i] in values
  }

  // ----- Reading back what was printed -----

  ghost predicate GoodEntry(e: Entry) {
    e.key != "" && e.key != CRC_KEY && '=' !in e.key && '\n' !in e.key && '\n' !in e.value
  }

  ghost predicate GoodEntries(es: seq<Entry>) {
    && (forall i :: 0 <= i < |es| ==> GoodEntry(es[i]))
    && (forall i, j :: 0 <= i < j < |es| ==> es[i].key != es[j].key)
  }

  function MapOf(es: seq<Entry>, m: map<string, string>): map<string, string>
    decreases |es|
  {
    if es == [] then m else MapOf(es[1..], m[es[0].key := es[0].value])
  }

  lemma ParseOneLine(key: string, value: string, rest: string, f: Fields)
    requires key != "" && '=' !in key && '\n' !in key && '\n' !in value && key !in f.values
    ensures ParseFields(Line(Entry(key, value)) + rest, f)
         == ParseFields(rest, if key == CRC_KEY then Fields(f.values[key := value], f.body, value)
                              else Fields(f.values[key := value], f.body + Line(Entry(key, value)), f.expected))
  {
    var line := key + "=" + value;
    var text := Line(Entry(key, value)) + rest;
    assert text == line + ['\n'] + rest;
    assert '\n' !in line;
    FindAfter(line, '\n', rest);
    assert line == key + ['='] + value;
    FindAfter(key, '=', value);
    assert f.body + line + "\n" == f.body + Line(Entry(key, value));
    assert AddLine(f, line).Ok?;
  }

  lemma {:induction false} ParseBody(es: seq<Entry>, rest: string, f: Fields)
    requires GoodEntries(es) && forall i :: 0 <= i < |es| ==> es[i].key !in f.values
    ensures ParseFields(Body(es) + rest, f)
         == ParseFields(rest, Fields(MapOf(es, f.values), f.body + Body(es), f.expected))
    decreases |es|
  {
    if es == [] {
      assert Body(es) + rest == rest && f.body + Body(es) == f.body;
    } else {
      var e := es[0];
      assert GoodEntry(e);
      assert Body(es) + rest == Line(e) + (Body(es[1..]) + rest);
      ParseOneLine(e.key, e.value, Body(es[1..]) + rest, f);
      var g := Fields(f.values[e.key := e.value], f.body + Line(e), f.expected);
      ParseBody(es[1..], rest, g);
      assert g.body + Body(es[1..]) == f.body + Body(es);
    }
  }

  lemma {:induction false} MapOfKeys(es: seq<Entry>, m: map<string, string>, key: string)
    requires forall i :: 0 <= i < |es| ==> es[i].key != key
    ensures key in MapOf(es, m) <==> key in m
    ensures key in m ==> MapOf(es, m)[key] == m[key]
    decreases |es|
  {
    if es != [] {
      MapOfKeys(es[1..], m[es[0].key := es[0].value], key);
    }
  }

  lemma {:induction false} MapOfAt(es: seq<Entry>, m: map<string, string>, k: nat)
    requires k < |es| && forall i, j :: 0 <= i < j < |es| ==> es[i].key != es[j].key
    ensures es[k].key in MapOf(es, m) && MapOf(es, m)[es[k].key] == es[k].value
    decreases |es|
  {
    var m1 := m[es[0].key := es[0].value];
    if k == 0 {
      MapOfKeys(es[1..], m1, es[0].key);
    } else {
      MapOfAt(es[1..], m1, k - 1);
    }
  }

  /** The fields a text yields when it is the given entries followed by a checksum line. */
  function FieldsOf(es: seq<Entry>, crc: string): Fields {
    Fields(MapOf(es, map[])[CRC_KEY := crc], Body(es), crc)
  }

  lemma ParseEntries(es: seq<Entry>, crc: string)
    requires GoodEntries(es) && '\n' !in crc
    ensures ParseFields(Body(es) + Line(Entry(CRC_KEY, crc)), NO_FIELDS) == Ok(FieldsOf(es, crc))
  {
    var f := Fields(MapOf(es, map[]), Body(es), "");
    ParseBody(es, Line(Entry(CRC_KEY, crc)), NO_FIELDS);
    assert NO_FIELDS.body + Body(es) == Body(es);
    MapOfKeys(es, map[], CRC_KEY);
    ParseCrcLine(f, crc);
  }

  lemma ParseCrcLine(f: Fields, crc: string)
    requires CRC_KEY !in f.values && '\n' !in crc
    ensures ParseFields(Line(Entry(CRC_KEY, crc)), f) == Ok(Fields(f.values[CRC_KEY := crc], f.body, crc))
  {
    hide Line, AddLine;
    var last := Line(Entry(CRC_KEY, crc));
    assert last == last + "";
    CrcKeyGood();
    ParseOneLine(CRC_KEY, crc, "", f);
  }

  lemma CrcKeyGood()
    ensures CRC_KEY != "" && '=' !in CRC_KEY && '\n' !in CRC_KEY
  {
  }

  lemma FieldsOfAt(es: seq<Entry>, crc: string, k: nat)
    requires GoodEntries(es) && k < |es|
    ensures es[k].key in FieldsOf(es, crc).values && Get(FieldsOf(es, crc).values, es[k].key) == es[k].value
  {
    MapOfAt(es, map[], k);
    assert GoodEntry(es[k]);
  }

  // ----- Verifying the checksum line -----

  function CheckCrc(f: Fields): Result<()> {
    var expected :- ParseHex32(f.expected);
    if BodyCrc(f.body) == expected then Ok(()) else Err("manifest body checksum mismatch")
  }

  /** Which checksum lines the check accepts. */
  lemma CheckCrcExact(es: seq<Entry>, crc: string)
    ensures CheckCrc(FieldsOf(es, crc)).Ok? <==> LowerHex(crc) == Hex32(BodyCrc(Body(es)))
  {
    hide ParseHex32, LowerHex, Hex32;
    ParseHex32Exact(crc, BodyCrc(Body(es)));
  }

  lemma SealedChecks(es: seq<Entry>)
    ensures CheckCrc(FieldsOf(es, Hex32(BodyCrc(Body(es))))) == Ok(())
  {
    Hex32RoundTrip(BodyCrc(Body(es)));
  }

  /** A different checksum of the body makes the check fail, whatever else is in the text. */
  lemma TamperedFails(es: seq<Entry>, tampered: seq<Entry>)
    requires Crc32c.Checksum(TextBytes(Body(tampered))) != Crc32c.Checksum(TextBytes(Body(es)))
    ensures CheckCrc(FieldsOf(tampered, Hex32(BodyCrc(Body(es))))).Err?
  {
    Hex32RoundTrip(BodyCrc(Body(es)));
    BodyCrcDiffers(Body(es), Body(tampered));
  }

  // ----- Changing one value in place -----

  lemma {:induction false} BodySplit(es: seq<Entry>, k: nat)
    requires k < |es|
    ensures Body(es) == Body(es[..k]) + Line(es[k]) + Body(es[k + 1..])
    decreases |es|
  {
    if k == 0 {
      assert es[..0] == [];
      assert "" + Line(es[0]) + Body(es[1..]) == Line(es[0]) + Body(es[1..]);
    } else {
      BodySplit(es[1..], k - 1);
      assert es[..k][0] == es[0] && es[..k][1..] == es[1..][..k - 1];
      assert es[1..][k..] == es[k + 1..];
      assert Line(es[0]) + (Body(es[1..][..k - 1]) + Line(es[k]) + Body(es[k + 1..]))
          == Line(es[0]) + Body(es[1..][..k - 1]) + Line(es[k]) + Body(es[k + 1..]);
    }
  }

  function Replaced(es: seq<Entry>, k: nat, value: string): seq<Entry>
    requires k < |es|
  {
    es[k := Entry(es[k].key, value)]
  }

  /** The two bodies are equal up to the value and equal after it. */
  lemma ReplacedBody(es: seq<Entry>, k: nat, value: string)
    requires k < |es|
    ensures var pre, post := Body(es[..k]) + es[k].key + "=", "\n" + Body(es[k + 1..]);
            Body(es) == pre + es[k].value + post && Body(Replaced(es, k, value)) == pre + value + post
  {
    hide Body;
    var es' := Replaced(es, k, value);
    BodySplit(es, k);
    BodySplit(es', k);
    assert es'[..k] == es[..k] && es'[k + 1..] == es[k + 1..];
    Regroup(Body(es[..k]), es[k].key, es[k].value, Body(es[k + 1..]));
    Regroup(Body(es[..k]), es[k].key, value, Body(es[k + 1..]));
  }

  lemma Regroup(a: string, key: string, value: string, b: string)
    ensures a + Line(Entry(key, value)) + b == (a + key + "=") + value + ("\n" + b)
  {
  }

  lemma BurstInside(pre: string, v: string, w: string, post: string, lo: int)
    requires |v| == |w| && v != w && IsBytes(v) && IsBytes(w) && CrcDetection.AgreeOutside(v, w, lo, lo + 4)
    ensures Crc32c.Checksum(TextBytes(pre + v + post)) != Crc32c.Checksum(TextBytes(pre + w + post))
  {
    var a, b := TextBytes(pre + v + post), TextBytes(pre + w + post);
    var at := |pre|;
    forall p | 0 <= p < |a| && !(at + lo <= p < at + lo + 4)
      ensures a[p] == b[p]
    {
      if at <= p < at + |v| {
        assert v[p - at] == w[p - at];
      }
    }
    var d :| 0 <= d < |v| && v[d] != w[d];
    assert a[at + d] == v[d] as int && b[at + d] == w[d] as int;
    CrcDetection.ByteBurstDetected(a, b, at + lo);
  }

  /** A burst of up to four changed bytes inside one value changes the body checksum. */
  lemma ValueBurstDetected(es: seq<Entry>, k: nat, value: string, lo: int)
    requires k < |es| && |value| == |es[k].value| && value != es[k].value
    requires IsBytes(value) && IsBytes(es[k].value)
    requires CrcDetection.AgreeOutside(value, es[k].value, lo, lo + 4)
    ensures Crc32c.Checksum(TextBytes(Body(Replaced(es, k, value)))) != Crc32c.Checksum(TextBytes(Body(es)))
  {
    ReplacedBody(es, k, value);
    BurstInside(Body(es[..k]) + es[k].key + "=", value, es[k].value, "\n" + Body(es[k + 1..]), lo);
  }

  // ----- The same change seen in the text -----

  /** Where the value of entry `k` starts in the printed text. */
  function ValueStart(es: seq<Entry>, k: nat): nat
    requires k < |es|
  {
    |Body(es[..k])| + |es[k].key| + 1
  }

  /** Overwriting bytes of a text in place. */
  function Overwrite(text: string, at: nat, value: string): string
    requires at + |value| <= |text|
  {
    text[..at] + value + text[at + |value|..]
  }

  /** The text of entries `tampered` under the checksum line that was computed for `es`. */
  function Tampered(es: seq<Entry>, tampered: seq<Entry>): string {
    Body(tampered) + Line(Entry(CRC_KEY, Hex32(BodyCrc(Body(es)))))
  }

  lemma OverwriteMiddle(pre: string, old': string, post: string, tail: string, value: string)
    requires |old'| == |value|
    ensures var text := pre + old' + post + tail;
      && text[|pre|..|pre| + |value|] == old'
      && Overwrite(text, |pre|, value) == pre + value + post + tail
  {
  }

  /** Overwriting the value of entry `k` in the printed text gives the text of the replaced entries. */
  lemma OverwriteValue(es: seq<Entry>, k: nat, value: string)
    requires k < |es| && |value| == |es[k].value|
    ensures var text, at := Sealed(Body(es)), ValueStart(es, k);
      && at + |value| <= |text| && text[at..at + |value|] == es[k].value
      && Overwrite(text, at, value) == Tampered(es, Replaced(es, k, value))
  {
    hide Body, Overwrite, Hex32, BodyCrc, Line;
    ReplacedBody(es, k, value);
    var pre, post := Body(es[..k]) + es[k].key + "=", "\n" + Body(es[k + 1..]);
    OverwriteMiddle(pre, es[k].value, post, Line(Entry(CRC_KEY, Hex32(BodyCrc(Body(es))))), value);
  }

  /** The text of the entries under any checksum line; with eight characters it is an overwrite in place. */
  lemma OverwriteChecksum(es: seq<Entry>, crc: string)
    requires |crc| == 8
    ensures var text, at := Sealed(Body(es)), |Body(es)| + |CRC_KEY| + 1;
      && at + 8 <= |text| && text[at..at + 8] == Hex32(BodyCrc(Body(es)))
      && Overwrite(text, at, crc) == Body(es) + Line(Entry(CRC_KEY, crc))
  {
    hide Body, Hex32, BodyCrc;
    var printed := Hex32(BodyCrc(Body(es)));
    var pre := Body(es) + CRC_KEY + "=";
    OverwriteMiddle(pre, printed, "\n", "", crc);
    assert Sealed(Body(es)) == pre + printed + "\n" + "";
    assert Body(es) + Line(Entry(CRC_KEY, crc)) == pre + crc + "\n" + "";
  }
}
