/**
  CRC32C (Castagnoli), the checksum of chunk data and of manifest bodies.

  A machine word is the list of its bits, least significant first, so a shift drops list elements
  and XOR works position by position.  The reference is the bit-serial register of section 12.1 of
  RFC 3720 in reflected form (`FeedBits`).  The module proves that the byte table, the byte loop and
  the eight-byte stride loop all compute it, and which errors it is guaranteed to detect.
 */
module Crc32c {
  import opened Common

  type Bits = seq<bool>

  // ----- Words -----

  function Zeros(n: nat): (z: Bits)
    ensures |z| == n && forall i :: 0 <= i < n ==> !z[i]
  {
    seq(n, _ => false)
  }

  function Ones(n: nat): (z: Bits)
    ensures |z| == n && forall i :: 0 <= i < n ==> z[i]
  {
    seq(n, _ => true)
  }

  function Xor(a: Bits, b: Bits): (c: Bits)
    requires |a| == |b|
    ensures |c| == |a| && forall i :: 0 <= i < |a| ==> c[i] == (a[i] != b[i])
  {
    seq(|a|, i requires 0 <= i < |a| => a[i] != b[i])
  }

  function Shr(w: Bits, n: nat): (r: Bits)
    requires n <= |w|
    ensures |r| == |w|
  {
    w[n..] + Zeros(n)
  }

  /** The low `k` bits of a number. */
  function FromNat(n: nat, k: nat): (bits: Bits)
    ensures |bits| == k
    decreases k
  {
    if k == 0 then [] else [n % 2 == 1] + FromNat(n / 2, k - 1)
  }

  lemma ShrShr(w: Bits, a: nat, b: nat)
    requires a + b <= |w|
    ensures Shr(Shr(w, a), b) == Shr(w, a + b)
  {
    var x, y := Shr(Shr(w, a), b), Shr(w, a + b);
    forall i | 0 <= i < |w|
      ensures x[i] == y[i]
    {
    }
  }

  function ByteBits(b: byte): (bits: Bits)
    ensures |bits| == 8
  {
    FromNat(b, 8)
  }

  function ToNat(bits: Bits): (n: nat)
    decreases |bits|
  {
    if bits == [] then 0 else (if bits[0] then 1 else 0) + 2 * ToNat(bits[1..])
  }

  function Pow2(k: nat): (p: nat)
    ensures p >= 1
  {
    if k == 0 then 1 else 2 * Pow2(k - 1)
  }

  lemma Pow2Nibble(k: nat)
    ensures Pow2(k + 4) == 16 * Pow2(k)
  {
    assert Pow2(k + 2) == 4 * Pow2(k);
    assert Pow2(k + 4) == 4 * Pow2(k + 2);
  }

  lemma Pow2Word()
    ensures Pow2(8) == 0x100 && Pow2(32) == 0x1_0000_0000
  {
    hide Pow2;
    assert Pow2(0) == 1 by {
      Pow2Zero();
    }
    Pow2Nibble(0);
    Pow2Nibble(4);
    Pow2Nibble(8);
    Pow2Nibble(12);
    Pow2Nibble(16);
    Pow2Nibble(20);
    Pow2Nibble(24);
    Pow2Nibble(28);
  }

  lemma Pow2Zero()
    ensures Pow2(0) == 1
  {
  }

  lemma {:induction false} FromToNat(bits: Bits)
    ensures ToNat(bits) < Pow2(|bits|) && FromNat(ToNat(bits), |bits|) == bits
    decreases |bits|
  {
    if bits != [] {
      FromToNat(bits[1..]);
      assert bits == [bits[0]] + bits[1..];
    }
  }

  lemma {:induction false} ToFromNat(n: nat, k: nat)
    requires n < Pow2(k)
    ensures ToNat(FromNat(n, k)) == n
    decreases k
  {
    if k != 0 {
      ToFromNat(n / 2, k - 1);
      assert FromNat(n, k)[1..] == FromNat(n / 2, k - 1);
    }
  }

  /** The bits of a message in transmission order; also the little-endian load of its bytes. */
  function MessageBits(data: seq<byte>): (bits: Bits)
    ensures |bits| == 8 * |data|
  {
    if data == [] then [] else ByteBits(data[0]) + MessageBits(data[1..])
  }

  // ----- The bit-serial reference -----

  const POLYNOMIAL: Bits := FromNat(0x82F63B78, 32)

  lemma Halves(n: nat)
    ensures n / 2 / 2 == n / 4 && n / 4 / 2 == n / 8 && n / 8 / 2 == n / 16
  {
  }

  lemma FourBits(a: bool, b: bool, c: bool, d: bool, rest: Bits)
    ensures [a] + ([b] + ([c] + ([d] + rest))) == [a, b, c, d] + rest
  {
  }

  lemma Nibble(n: nat, k: nat)
    requires k >= 4
    ensures FromNat(n, k) == [n % 2 == 1, n / 2 % 2 == 1, n / 4 % 2 == 1, n / 8 % 2 == 1] + FromNat(n / 16, k - 4)
  {
    Halves(n);
    FourBits(n % 2 == 1, n / 2 % 2 == 1, n / 4 % 2 == 1, n / 8 % 2 == 1, FromNat(n / 16, k - 4));
    assert FromNat(n, k) == [n % 2 == 1] + FromNat(n / 2, k - 1);
    assert FromNat(n / 2, k - 1) == [n / 2 % 2 == 1] + FromNat(n / 4, k - 2);
    assert FromNat(n / 4, k - 2) == [n / 4 % 2 == 1] + FromNat(n / 8, k - 3);
    assert FromNat(n / 8, k - 3) == [n / 8 % 2 == 1] + FromNat(n / 16, k - 4);
  }

  lemma EightBits(a: bool, b: bool, c: bool, d: bool, e: bool, f: bool, g: bool, h: bool, rest: Bits)
    ensures [a, b, c, d] + ([e, f, g, h] + rest) == [a, b, c, d, e, f, g, h] + rest
  {
  }

  /** Low octet `l` under the number `n`. */
  lemma OctetOf(n: nat, l: nat, k: nat)
    requires k >= 8 && l < 256
    ensures FromNat(n * 256 + l, k)
         == [l % 2 == 1, l / 2 % 2 == 1, l / 4 % 2 == 1, l / 8 % 2 == 1,
             l / 16 % 2 == 1, l / 32 % 2 == 1, l / 64 % 2 == 1, l / 128 % 2 == 1] + FromNat(n, k - 8)
  {
    var m := n * 256 + l;
    hide FromNat;
    Nibble(m, k);
    Nibble(m / 16, k - 4);
    assert m / 16 == n * 16 + l / 16 && m / 16 / 16 == n;
    LowBits(n * 16, l);
    LowBits(n, l / 16);
    EightBits(l % 2 == 1, l / 2 % 2 == 1, l / 4 % 2 == 1, l / 8 % 2 == 1,
              l / 16 % 2 == 1, l / 32 % 2 == 1, l / 64 % 2 == 1, l / 128 % 2 == 1, FromNat(n, k - 8));
  }

  lemma LowBits(n: nat, l: nat)
    ensures (n * 16 + l) % 2 == l % 2 && (n * 16 + l) / 2 % 2 == l / 2 % 2
    ensures (n * 16 + l) / 4 % 2 == l / 4 % 2 && (n * 16 + l) / 8 % 2 == l / 8 % 2
    ensures l / 16 / 2 == l / 32 && l / 16 / 4 == l / 64 && l / 16 / 8 == l / 128
  {
    LowBit(n * 8, l);
    assert (n * 16 + l) / 2 == n * 8 + l / 2;
    LowBit(n * 4, l / 2);
    assert (n * 16 + l) / 4 == n * 4 + l / 4;
    LowBit(n * 2, l / 4);
    assert (n * 16 + l) / 8 == n * 2 + l / 8;
    LowBit(n, l / 8);
    SmallQuotients(l);
  }

  lemma LowBit(n: nat, l: nat)
    ensures (n * 2 + l) % 2 == l % 2
  {
  }

  lemma SmallQuotients(l: nat)
    ensures l / 16 / 2 == l / 32 && l / 16 / 4 == l / 64 && l / 16 / 8 == l / 128
  {
  }

  lemma FromNatNothing()
    ensures FromNat(0, 0) == []
  {
  }

  lemma FirstOctet()
    ensures FromNat(0x82F63B78, 32) == [false, false, false, true, true, true, true, false] + FromNat(0x82F63B, 24)
  {
    hide FromNat;
    OctetOf(0x82F63B, 0x78, 32);
  }

  lemma SecondOctet()
    ensures FromNat(0x82F63B, 24) == [true, true, false, true, true, true, false, false] + FromNat(0x82F6, 16)
  {
    hide FromNat;
    OctetOf(0x82F6, 0x3B, 24);
  }

  lemma ThirdOctet()
    ensures FromNat(0x82F6, 16) == [false, true, true, false, true, true, true, true] + FromNat(0x82, 8)
  {
    hide FromNat;
    OctetOf(0x82, 0xF6, 16);
  }

  lemma FourthOctet()
    ensures FromNat(0x82, 8) == [false, true, false, false, false, false, false, true] + FromNat(0x0, 0)
  {
    hide FromNat;
    OctetOf(0, 0x82, 8);
  }

  /** The terms of the polynomial, octet by octet. */
  lemma PolynomialOctets()
    ensures POLYNOMIAL == [false, false, false, true, true, true, true, false]
      + ([true, true, false, true, true, true, false, false]
      + ([false, true, true, false, true, true, true, true]
      + ([false, true, false, false, false, false, false, true] + [])))
  {
    FirstOctet();
    SecondOctet();
    ThirdOctet();
    FourthOctet();
    FromNatNothing();
    hide FromNat;
  }

  /** Its top term is present: the step can be undone. */
  lemma TopTerm()
    ensures |POLYNOMIAL| == 32 && POLYNOMIAL[31]
  {
    hide POLYNOMIAL;
    PolynomialOctets();
  }

  type Register = r: Bits | |r| >= 32 witness Zeros(32)

  const INITIAL_STATE: Register := Ones(32)

  function Reducer(width: nat): (p: Bits)
    requires width >= 32
    ensures |p| == width
  {
    POLYNOMIAL + Zeros(width - 32)
  }

  /** One shift-and-reduce step of a register of any width from 32 bits up. */
  function Advance(r: Register): (q: Register)
    ensures |q| == |r|
  {
    if r[0] then Xor(Shr(r, 1), Reducer(|r|)) else Shr(r, 1)
  }

  function XorBit(r: Register, b: bool): (q: Register)
    ensures |q| == |r|
  {
    r[0 := (r[0] != b)]
  }

  function Feed(r: Register, b: bool): (q: Register)
    ensures |q| == |r|
  {
    Advance(XorBit(r, b))
  }

  /** Shifts the message bits into the register, first bit first. */
  function FeedBits(r: Register, bits: Bits): (q: Register)
    ensures |q| == |r|
    decreases |bits|
  {
    if bits == [] then r else FeedBits(Feed(r, bits[0]), bits[1..])
  }

  // ----- The byte recurrence -----

  function Steps(r: Register, n: nat): (q: Register)
    ensures |q| == |r|
    decreases n
  {
    if n == 0 then r else Steps(Advance(r), n - 1)
  }

  function ByteStep(r: Register, b: byte): (q: Register)
    ensures |q| == |r|
  {
    Steps(Xor(r, ByteBits(b) + Zeros(|r| - 8)), 8)
  }

  function Update(r: Register, data: seq<byte>): (q: Register)
    ensures |q| == |r|
    decreases |data|
  {
    if data == [] then r else ByteStep(Update(r, data[..|data| - 1]), data[|data| - 1])
  }

  function Finalize(r: Register): (q: Register)
    ensures |q| == |r|
  {
    Xor(r, Ones(|r|))
  }

  function Checksum(data: seq<byte>): (crc: Bits)
    ensures |crc| == 32
  {
    Finalize(Update(INITIAL_STATE, data))
  }

  // ----- Splitting a message -----

  lemma {:induction false} UpdateConcat(r: Register, a: seq<byte>, b: seq<byte>)
    ensures Update(r, a + b) == Update(Update(r, a), b)
    decreases |b|
  {
    hide ByteStep;
    if b == [] {
      assert a + b == a;
    } else {
      var n := |a + b| - 1;
      assert (a + b)[..n] == a + b[..|b| - 1];
      UpdateConcat(r, a, b[..|b| - 1]);
    }
  }

  lemma UpdateFront(r: Register, data: seq<byte>)
    requires data != []
    ensures Update(r, data) == Update(ByteStep(r, data[0]), data[1..])
  {
    assert data == [data[0]] + data[1..];
    UpdateConcat(r, [data[0]], data[1..]);
    assert Update(r, [data[0]]) == ByteStep(Update(r, []), data[0]);
  }

  lemma {:induction false} FeedBitsConcat(r: Register, p: Bits, q: Bits)
    ensures FeedBits(r, p + q) == FeedBits(FeedBits(r, p), q)
    decreases |p|
  {
    if p == [] {
      assert p + q == q;
    } else {
      assert (p + q)[1..] == p[1..] + q;
      FeedBitsConcat(Feed(r, p[0]), p[1..], q);
    }
  }

  // ----- Words: bits XORed in early travel down the register unchanged -----

  lemma AdvanceInjected(r: Register, w: Bits)
    requires |w| == |r|
    ensures Advance(Xor(r, w)) == Xor(Feed(r, w[0]), Shr(w, 1))
  {
    var a, b := Advance(Xor(r, w)), Xor(Feed(r, w[0]), Shr(w, 1));
    forall i | 0 <= i < |r|
      ensures a[i] == b[i]
    {
    }
  }

  /** XORing a whole word into the register and shifting equals feeding its bits one by one. */
  lemma {:induction false} WordAtATime(r: Register, w: Bits, n: nat)
    requires |w| == |r| && n <= |r|
    ensures Steps(Xor(r, w), n) == Xor(FeedBits(r, w[..n]), Shr(w, n))
    decreases n
  {
    if n == 0 {
      assert Shr(w, 0) == w;
    } else {
      AdvanceInjected(r, w);
      WordAtATime(Feed(r, w[0]), Shr(w, 1), n - 1);
      assert w[..n][1..] == Shr(w, 1)[..n - 1];
      ShrShr(w, 1, n - 1);
    }
  }

  lemma ByteStepFeeds(r: Register, b: byte)
    ensures ByteStep(r, b) == FeedBits(r, ByteBits(b))
  {
    var w := ByteBits(b) + Zeros(|r| - 8);
    WordAtATime(r, w, 8);
    assert w[..8] == ByteBits(b);
    assert Shr(w, 8) == Zeros(|r|);
    assert Xor(FeedBits(r, ByteBits(b)), Zeros(|r|)) == FeedBits(r, ByteBits(b));
  }

  /** The byte recurrence is the bit-serial register fed the message's bits. */
  lemma {:induction false} UpdateIsBitSerial(r: Register, data: seq<byte>)
    ensures Update(r, data) == FeedBits(r, MessageBits(data))
    decreases |data|
  {
    if data != [] {
      UpdateFront(r, data);
      ByteStepFeeds(r, data[0]);
      UpdateIsBitSerial(ByteStep(r, data[0]), data[1..]);
      FeedBitsConcat(r, ByteBits(data[0]), MessageBits(data[1..]));
    }
  }

  // ----- The table -----

  function TableEntry(index: byte): (q: Register)
    ensures |q| == 32
  {
    Steps(ByteBits(index) + Zeros(24), 8)
  }

  ghost predicate IsTable(t: seq<Register>) {
    |t| == 256 && forall i :: 0 <= i < 256 ==> t[i] == TableEntry(i)
  }

  lemma AdvanceXor(r: Register, q: Register)
    requires |r| == |q|
    ensures Advance(Xor(r, q)) == Xor(Advance(r), Advance(q))
  {
    var a, b := Advance(Xor(r, q)), Xor(Advance(r), Advance(q));
    forall i | 0 <= i < |r|
      ensures a[i] == b[i]
    {
    }
  }

  lemma {:induction false} StepsXor(r: Register, q: Register, n: nat)
    requires |r| == |q|
    ensures Steps(Xor(r, q), n) == Xor(Steps(r, n), Steps(q, n))
    decreases n
  {
    if n != 0 {
      AdvanceXor(r, q);
      StepsXor(Advance(r), Advance(q), n - 1);
    }
  }

  lemma {:induction false} StepsZeros(r: Register, n: nat)
    requires n <= |r| && forall i :: 0 <= i < n ==> !r[i]
    ensures Steps(r, n) == Shr(r, n)
    decreases n
  {
    if n == 0 {
      assert Shr(r, 0) == r;
    } else {
      StepsZeros(Advance(r), n - 1);
      ShrShr(r, 1, n - 1);
    }
  }

  lemma ByteIndex(bits: Bits)
    requires |bits| == 8
    ensures ToNat(bits) < 256 && ByteBits(ToNat(bits)) == bits
  {
    FromToNat(bits);
    Pow2Word();
  }

  /** One table look-up replaces eight shift-and-reduce steps. */
  lemma TableStep(r: Register, b: byte)
    requires |r| == 32
    ensures var low := Xor(r[..8], ByteBits(b));
            0 <= ToNat(low) < 256 && ByteStep(r, b) == Xor(TableEntry(ToNat(low)), Shr(r, 8))
  {
    hide FromNat, Advance, ToNat;
    var low := Xor(r[..8], ByteBits(b));
    ByteIndex(low);
    var lo, hi := low + Zeros(24), Zeros(8) + r[8..];
    assert Xor(r, ByteBits(b) + Zeros(24)) == Xor(lo, hi);
    StepsXor(lo, hi, 8);
    StepsZeros(hi, 8);
    assert Shr(hi, 8) == Shr(r, 8);
  }

  method MakeEntry(index: byte) returns (value: Register)
    ensures value == TableEntry(index)
  {
    hide Shr, Xor, POLYNOMIAL;
    TopTerm();
    value := ByteBits(index) + Zeros(24);
    for bit := 0 to 8
      invariant |value| == 32 && Steps(value, 8 - bit) == TableEntry(index)
    {
      assert Reducer(32) == POLYNOMIAL;
      if value[0] {
        value := Xor(Shr(value, 1), POLYNOMIAL);
      } else {
        value := Shr(value, 1);
      }
    }
  }

  method MakeTable() returns (table: array<Register>)
    ensures fresh(table) && IsTable(table[..])
  {
    hide TableEntry;
    table := new Register[256](_ => INITIAL_STATE);
    for index := 0 to 256
      invariant forall i :: 0 <= i < index ==> table[i] == TableEntry(i)
    {
      table[index] := MakeEntry(index);
    }
  }

  method UpdateSoftware(table: array<Register>, state: Register, data: seq<byte>) returns (value: Register)
    requires IsTable(table[..]) && |state| == 32
    ensures value == Update(state, data)
  {
    value := state;
    for index := 0 to |data|
      invariant value == Update(state, data[..index])
    {
      assert data[..index + 1][..index] == data[..index];
      TableStep(value, data[index]);
      var k := ToNat(Xor(value[..8], ByteBits(data[index])));
      assert table[k] == table[..][k];
      value := Xor(table[k], Shr(value, 8));
    }
    assert data[..|data|] == data;
  }

  // ----- The eight-byte stride -----

  function Widen(r: Register): (q: Register)
    ensures |q| == |r| + 32
  {
    r + Zeros(32)
  }

  lemma FeedWidens(r: Register, b: bool)
    ensures Feed(Widen(r), b) == Widen(Feed(r, b))
  {
    var x, y := Feed(Widen(r), b), Widen(Feed(r, b));
    forall i | 0 <= i < |x|
      ensures x[i] == y[i]
    {
    }
  }

  lemma {:induction false} FeedBitsWidens(r: Register, bits: Bits)
    ensures FeedBits(Widen(r), bits) == Widen(FeedBits(r, bits))
    decreases |bits|
  {
    hide Feed, Widen;
    if bits != [] {
      FeedWidens(r, bits[0]);
      FeedBitsWidens(Feed(r, bits[0]), bits[1..]);
    }
  }

  /** The SSE4.2 word instruction: 64 shift-and-reduce steps of a 64-bit register. */
  function Crc32U64(crc: Register, word: Bits): (q: Register)
    requires |crc| == 64 && |word| == 64
    ensures |q| == 64
  {
    Steps(Xor(crc, word), 64)
  }

  lemma WordInstructionIsEightBytes(r: Register, data: seq<byte>)
    requires |r| == 32 && |data| == 8
    ensures Crc32U64(Widen(r), MessageBits(data)) == Widen(Update(r, data))
  {
    hide Feed, Widen, Steps, FeedBits, Update, MessageBits;
    var w := MessageBits(data);
    WordAtATime(Widen(r), w, 64);
    assert w[..64] == w && Shr(w, 64) == Zeros(64);
    FeedBitsWidens(r, w);
    UpdateIsBitSerial(r, data);
    assert Xor(Widen(Update(r, data)), Zeros(64)) == Widen(Update(r, data));
  }

  /** `available` is the CPU feature test; `wide` tells the 64-bit build from the others. */
  method UpdateHardware(table: array<Register>, available: bool, wide: bool, state: Register, data: seq<byte>)
    returns (crc32: Register)
    requires IsTable(table[..]) && |state| == 32
    ensures crc32 == Update(state, data)
  {
    hide ByteStep;
    if |data| == 0 {
      return state;
    }
    if !available {
      crc32 := UpdateSoftware(table, state, data);
      return;
    }
    var pos := 0;
    crc32 := state;
    if wide {
      pos, crc32 := StrideLoop(state, data);
    }
    while |data| - pos > 0
      invariant 0 <= pos <= |data|
      invariant crc32 == Update(state, data[..pos])
    {
      assert data[..pos + 1][..pos] == data[..pos];
      crc32 := ByteStep(crc32, data[pos]);
      pos := pos + 1;
    }
    assert data[..pos] == data;
  }

  method StrideLoop(state: Register, data: seq<byte>) returns (pos: nat, crc32: Register)
    requires |state| == 32
    ensures |data| - 8 < pos <= |data| && pos % 8 == 0
    ensures crc32 == Update(state, data[..pos])
  {
    hide Widen, Crc32U64, Update, MessageBits, Narrow;
    pos := 0;
    var crc := Widen(state);
    UpdateEmpty(state);
    assert data[..0] == [];
    while |data| - pos >= 8
      invariant 0 <= pos <= |data| && pos % 8 == 0
      invariant crc == Widen(Update(state, data[..pos]))
    {
      var word := data[pos..pos + 8];
      StrideStep(state, data[..pos], word);
      assert data[..pos + 8] == data[..pos] + word;
      crc := Crc32U64(crc, MessageBits(word));
      pos := pos + 8;
    }
    crc32 := Narrow(crc);
    NarrowWiden(Update(state, data[..pos]));
  }

  function Narrow(r: Register): (q: Register)
    requires |r| == 64
    ensures |q| == 32
  {
    r[..32]
  }

  lemma NarrowWiden(r: Register)
    requires |r| == 32
    ensures Narrow(Widen(r)) == r
  {
  }

  lemma UpdateEmpty(r: Register)
    ensures Update(r, []) == r
  {
  }

  lemma StrideStep(state: Register, done: seq<byte>, word: seq<byte>)
    requires |state| == 32 && |word| == 8
    ensures Crc32U64(Widen(Update(state, done)), MessageBits(word)) == Widen(Update(state, done + word))
  {
    hide Widen, Crc32U64;
    WordInstructionIsEightBytes(Update(state, done), word);
    UpdateConcat(state, done, word);
  }
}
