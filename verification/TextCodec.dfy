/**
  The scalar codecs of the manifest text: hexadecimal strings, 8-digit hexadecimal words, decimal
  64-bit numbers, and searching for a separator.  A `std::string` is a `string` whose characters are
  bytes (`IsBytes`).
 */
module TextCodec {
  import opened Common

  ghost predicate IsBytes(s: string) {
    forall i :: 0 <= i < |s| ==> s[i] as int < 256
  }

  // ----- Separators -----

  /** Index of the first `c`, or the length when there is none. */
  function Find(s: string, c: char): (k: nat)
    ensures k <= |s|
    ensures k < |s| ==> s[k] == c
    ensures forall i :: 0 <= i < k ==> s[i] != c
  {
    if s == [] || s[0] == c then 0 else 1 + Find(s[1..], c)
  }

  lemma FindIs(s: string, c: char, k: nat)
    requires k <= |s| && (k < |s| ==> s[k] == c) && forall i :: 0 <= i < k ==> s[i] != c
    ensures Find(s, c) == k
  {
  }

  /** A separator after a text free of it is the first one. */
  lemma FindAfter(a: string, c: char, b: string)
    requires c !in a
    ensures Find(a + [c] + b, c) == |a|
    ensures (a + [c] + b)[..|a|] == a && (a + [c] + b)[|a| + 1..] == b
  {
    var s := a + [c] + b;
    forall i | 0 <= i < |a|
      ensures s[i] != c
    {
      assert s[i] == a[i];
    }
    FindIs(s, c, |a|);
  }

  lemma FindNone(a: string, c: char)
    requires c !in a
    ensures Find(a, c) == |a|
  {
    FindIs(a, c, |a|);
  }

  // ----- Hexadecimal -----

  predicate IsHexDigit(c: char) {
    '0' <= c <= '9' || 'a' <= c <= 'f' || 'A' <= c <= 'F'
  }

  function FromHex(c: char): (n: nat)
    requires IsHexDigit(c)
    ensures n < 16
  {
    if '0' <= c <= '9' then c as int - '0' as int
    else if 'a' <= c <= 'f' then c as int - 'a' as int + 10
    else c as int - 'A' as int + 10
  }

  function HexDigit(n: nat): (c: char)
    requires n < 16
    ensures IsHexDigit(c) && FromHex(c) == n
    ensures '0' <= c <= '9' || 'a' <= c <= 'f'
  {
    "0123456789abcdef"[n]
  }

  /** Characters that appear in no separator. */
  predicate Plain(s: string) {
    forall c :: c in s ==> '0' <= c <= '9' || 'a' <= c <= 'z'
  }

  /** Visible ASCII: one byte each, and no line break. */
  ghost predicate Printable(s: string) {
    forall c :: c in s ==> ' ' <= c <= '~'
  }

  lemma PrintableBytes(s: string)
    requires Printable(s)
    ensures IsBytes(s) && '\n' !in s
  {
    forall i | 0 <= i < |s|
      ensures s[i] as int < 256
    {
      assert s[i] in s;
    }
  }

  function ToHex(s: string): (h: string)
    ensures |h| == 2 * |s|
  {
    if s == [] then [] else
      var n := s[0] as int;
      [HexDigit(n / 16 % 16), HexDigit(n % 16)] + ToHex(s[1..])
  }

  function FromHexString(t: string): Result<string> {
    if |t| % 2 != 0 then Err("hex string must have even length") else DecodePairs(t)
  }

  function DecodePairs(t: string): Result<string>
    requires |t| % 2 == 0
    decreases |t|
  {
    if t == [] then Ok([])
    else if !IsHexDigit(t[0]) || !IsHexDigit(t[1]) then Err("hex string contains invalid digit")
    else
      var rest :- DecodePairs(t[2..]);
      Ok([(FromHex(t[0]) * 16 + FromHex(t[1])) as char] + rest)
  }

  lemma {:induction false} HexRoundTrip(s: string)
    requires IsBytes(s)
    ensures FromHexString(ToHex(s)) == Ok(s) && Plain(ToHex(s))
    decreases |s|
  {
    if s != [] {
      HexRoundTrip(s[1..]);
      var n := s[0] as int;
      var t := ToHex(s);
      assert t[2..] == ToHex(s[1..]);
      assert t[0] == HexDigit(n / 16 % 16) && t[1] == HexDigit(n % 16);
      assert n / 16 % 16 * 16 + n % 16 == n;
      assert s == [s[0]] + s[1..];
    }
  }

  lemma {:induction false} DecodedIsBytes(t: string)
    requires |t| % 2 == 0 && DecodePairs(t).Ok?
    ensures IsBytes(DecodePairs(t).value) && 2 * |DecodePairs(t).value| == |t|
    decreases |t|
  {
    if t != [] {
      DecodedIsBytes(t[2..]);
    }
  }

  /** Most significant digit first. */
  function HexDigits(v: nat, k: nat): (h: string)
    ensures |h| == k && Plain(h)
    decreases k
  {
    if k == 0 then [] else HexDigits(v / 16, k - 1) + [HexDigit(v % 16)]
  }

  function Hex32(v: uint32): (h: string)
    ensures |h| == 8 && Plain(h)
  {
    HexDigits(v, 8)
  }

  function HexValue(t: string): (v: nat)
    requires forall c :: c in t ==> IsHexDigit(c)
    decreases |t|
  {
    if t == [] then 0 else HexValue(t[..|t| - 1]) * 16 + FromHex(t[|t| - 1])
  }

  function Pow16(k: nat): (p: nat)
    ensures p >= 1
  {
    if k == 0 then 1 else 16 * Pow16(k - 1)
  }

  lemma {:induction false} HexValueBound(t: string)
    requires forall c :: c in t ==> IsHexDigit(c)
    ensures HexValue(t) < Pow16(|t|)
    decreases |t|
  {
    if t != [] {
      HexValueBound(t[..|t| - 1]);
    }
  }

  lemma EightDigits()
    ensures Pow16(8) == 0x1_0000_0000
  {
    assert Pow16(2) == 256;
    assert Pow16(4) == 256 * Pow16(2);
    assert Pow16(6) == 256 * Pow16(4);
    assert Pow16(8) == 256 * Pow16(6);
  }

  function ParseHex32(t: string): Result<uint32> {
    if |t| != 8 then Err("must be 8 hex digits")
    else if exists c :: c in t && !IsHexDigit(c) then Err("contains invalid hex")
    else
      HexValueBound(t);
      EightDigits();
      Ok(HexValue(t))
  }

  lemma {:induction false} HexDigitsValue(v: nat, k: nat)
    requires v < Pow16(k)
    ensures (forall c :: c in HexDigits(v, k) ==> IsHexDigit(c)) && HexValue(HexDigits(v, k)) == v
    decreases k
  {
    if k != 0 {
      HexDigitsValue(v / 16, k - 1);
      var h := HexDigits(v, k);
      assert h[..k - 1] == HexDigits(v / 16, k - 1);
    }
  }

  lemma Hex32RoundTrip(v: uint32)
    ensures ParseHex32(Hex32(v)) == Ok(v)
  {
    EightDigits();
    HexDigitsValue(v, 8);
  }

  /** The text with capital hex digits made small. */
  function LowerHex(t: string): (l: string)
    ensures |l| == |t|
  {
    seq(|t|, i requires 0 <= i < |t| => if 'A' <= t[i] <= 'F' then HexDigit(FromHex(t[i])) else t[i])
  }

  lemma {:induction false} HexDigitsOf(t: string)
    requires forall c :: c in t ==> IsHexDigit(c)
    ensures HexDigits(HexValue(t), |t|) == LowerHex(t)
    decreases |t|
  {
    if t != [] {
      var n := |t| - 1;
      HexDigitsOf(t[..n]);
      assert LowerHex(t) == LowerHex(t[..n]) + LowerHex(t[n..]);
      assert HexValue(t) / 16 == HexValue(t[..n]) && HexValue(t) % 16 == FromHex(t[n]);
    }
  }

  /** A word is read from its eight digits in either case, and from nothing else. */
  lemma ParseHex32Exact(t: string, v: uint32)
    ensures ParseHex32(t) == Ok(v) <==> LowerHex(t) == Hex32(v)
  {
    hide HexDigits, HexValue;
    Hex32RoundTrip(v);
    if LowerHex(t) == Hex32(v) {
      forall c | c in t
        ensures IsHexDigit(c)
      {
        var i :| 0 <= i < |t| && t[i] == c;
        assert LowerHex(t)[i] in Hex32(v);
      }
    }
    if |t| == 8 && forall c :: c in t ==> IsHexDigit(c) {
      HexDigitsOf(t);
      HexValueBound(t);
      EightDigits();
      Hex32RoundTrip(HexValue(t));
    }
  }

  // ----- Decimal -----

  predicate IsDigit(c: char) {
    '0' <= c <= '9'
  }

  function DigitValue(c: char): (n: nat)
    requires IsDigit(c)
    ensures n < 10
  {
    c as int - '0' as int
  }

  function Digit(n: nat): (c: char)
    requires n < 10
    ensures IsDigit(c) && DigitValue(c) == n
  {
    "0123456789"[n]
  }

  function Decimal(n: nat): (t: string)
    ensures t != [] && forall c :: c in t ==> IsDigit(c)
  {
    if n < 10 then [Digit(n)] else Decimal(n / 10) + [Digit(n % 10)]
  }

  function DecimalValue(t: string): (n: nat)
    requires forall c :: c in t ==> IsDigit(c)
    decreases |t|
  {
    if t == [] then 0 else DecimalValue(t[..|t| - 1]) * 10 + DigitValue(t[|t| - 1])
  }

  /** Digits only, no sign and no blank; out of range when 64 bits do not hold the value. */
  function ParseU64(t: string): Result<uint64> {
    if t == [] then Err("must not be empty")
    else if exists c :: c in t && !IsDigit(c) then Err("must be a decimal integer")
    else if DecimalValue(t) >= UINT64_LIMIT then Err("must be a decimal integer")
    else Ok(DecimalValue(t))
  }

  lemma {:induction false} DecimalRoundTrip(n: nat)
    ensures DecimalValue(Decimal(n)) == n
    decreases n
  {
    var t := Decimal(n);
    if n < 10 {
      assert t[..|t| - 1] == [] && t[|t| - 1] == Digit(n);
    } else {
      DecimalRoundTrip(n / 10);
      assert t[..|t| - 1] == Decimal(n / 10) && t[|t| - 1] == Digit(n % 10);
    }
  }

  lemma ParseDecimal(n: nat)
    ensures ParseU64(Decimal(n)).Ok? <==> n < UINT64_LIMIT
    ensures n < UINT64_LIMIT ==> ParseU64(Decimal(n)) == Ok(n)
  {
    DecimalRoundTrip(n);
  }
}
