/**
  What pins the CRC32C value itself: the law of section 12.1 of RFC 3720 stated from an all-zero register,
  the fixed residue of a message followed by its checksum, and the published check value.
 */
module CrcLaws {
  import opened Common
  import opened Crc32c

  // ----- The start value and the final complement -----

  /** The message with its first 32 bits complemented. */
  function Complemented(bits: Bits): (c: Bits)
    requires |bits| >= 32
    ensures |c| == |bits| && forall i :: 0 <= i < |bits| ==> c[i] == (bits[i] != (i < 32))
  {
    seq(|bits|, i requires 0 <= i < |bits| => bits[i] != (i < 32))
  }

  /** Feeding a full word makes only the sum of register and word count. */
  lemma WordFed(r: Register, w: Bits)
    requires |r| == |w| == 32
    ensures FeedBits(r, w) == Steps(Xor(r, w), 32)
  {
    hide FeedBits, Steps;
    WordAtATime(r, w, 32);
    assert w[..32] == w && Shr(w, 32) == Zeros(32);
    assert Xor(FeedBits(r, w), Zeros(32)) == FeedBits(r, w);
  }

  /**
    The checksum is the complement of what an all-zero register holds after the message with its first
    32 bits complemented.
   */
  lemma ZeroRegisterLaw(data: seq<byte>)
    requires |data| >= 4
    ensures var r := FeedBits(Zeros(32), Complemented(MessageBits(data)));
      |r| == 32 && forall i :: 0 <= i < 32 ==> Checksum(data)[i] == !r[i]
  {
    hide FeedBits, Steps, Update, MessageBits;
    var bits := MessageBits(data);
    var head, flipped, tail := bits[..32], Complemented(bits)[..32], bits[32..];
    UpdateIsBitSerial(INITIAL_STATE, data);
    assert bits == head + tail && Complemented(bits) == flipped + tail;
    FeedBitsConcat(INITIAL_STATE, head, tail);
    FeedBitsConcat(Zeros(32), flipped, tail);
    WordFed(INITIAL_STATE, head);
    WordFed(Zeros(32), flipped);
    assert Xor(INITIAL_STATE, head) == Xor(Zeros(32), flipped);
  }

  // ----- Evaluation on machine words -----

  /** The mask of bit `i`. */
  function Mask(i: nat): bv32 {
    if i == 0 then 1 else Mask(i - 1) << 1
  }

  predicate Bit(v: bv32, m: bv32) {
    v & m != 0
  }

  /** The bits of a machine word, least significant first. */
  function WordBits(v: bv32): (bits: Bits)
    ensures |bits| == 32
  {
    seq(32, i requires 0 <= i < 32 => Bit(v, Mask(i)))
  }

  lemma MaskNext(i: nat)
    ensures Mask(i + 1) == Mask(i) << 1
  {
  }

  lemma MaskZero()
    ensures Mask(0) == 1
  {
  }

  lemma LowMasks()
    ensures Mask(0) == 0x1 && Mask(1) == 0x2 && Mask(2) == 0x4 && Mask(3) == 0x8
    ensures Mask(4) == 0x10 && Mask(5) == 0x20 && Mask(6) == 0x40 && Mask(7) == 0x80
  {
    hide Mask;
    MaskZero();
    MaskNext(0);
    MaskNext(1);
    MaskNext(2);
    MaskNext(3);
    MaskNext(4);
    MaskNext(5);
    MaskNext(6);
  }

  lemma MaskOctet(i: nat)
    ensures Mask(i + 8) == Mask(i) << 8
  {
    hide Mask;
    MaskNext(i);
    MaskNext(i + 1);
    MaskNext(i + 2);
    MaskNext(i + 3);
    MaskNext(i + 4);
    MaskNext(i + 5);
    MaskNext(i + 6);
    MaskNext(i + 7);
  }

  lemma MaskXor(a: bv32, b: bv32, m: bv32)
    requires m & (m - 1) == 0
    ensures Bit(a ^ b, m) == (Bit(a, m) != Bit(b, m))
  {
  }

  lemma {:induction false} MaskSingle(i: nat)
    ensures Mask(i) & (Mask(i) - 1) == 0
  {
    if i > 0 {
      MaskSingle(i - 1);
      Doubled(Mask(i - 1));
    }
  }

  lemma Doubled(m: bv32)
    requires m & (m - 1) == 0
    ensures (m << 1) & ((m << 1) - 1) == 0
  {
  }

  lemma XorWord(a: bv32, b: bv32)
    ensures WordBits(a ^ b) == Xor(WordBits(a), WordBits(b))
  {
    hide Bit, Mask;
    forall i | 0 <= i < 32
      ensures WordBits(a ^ b)[i] == Xor(WordBits(a), WordBits(b))[i]
    {
      MaskSingle(i);
      MaskXor(a, b, Mask(i));
    }
  }

  // ----- Octets -----

  function LowOctet(v: bv32): (bits: Bits)
    ensures |bits| == 8
  {
    [Bit(v, 0x1), Bit(v, 0x2), Bit(v, 0x4), Bit(v, 0x8), Bit(v, 0x10), Bit(v, 0x20), Bit(v, 0x40), Bit(v, 0x80)]
  }

  /** `n` is the mask `m` one octet higher. */
  predicate OctetUp(m: bv32, n: bv32) {
    m & 0xFF000000 == 0 && n == m << 8
  }

  lemma OctetShift(v: bv32, m: bv32, n: bv32)
    requires OctetUp(m, n)
    ensures Bit(v, n) == Bit(v >> 8, m)
  {
  }

  lemma MaskInThree(i: nat)
    requires i < 24
    ensures Mask(i) & 0xFF000000 == 0
  {
    hide Mask;
    LowMasks();
    if i >= 8 {
      MaskOctet(i - 8);
    }
    if i >= 16 {
      MaskOctet(i - 16);
    }
  }

  lemma MaskOctetUp(i: nat)
    requires i < 24
    ensures OctetUp(Mask(i), Mask(i + 8))
  {
    hide Mask;
    assert Mask(i + 8) == Mask(i) << 8 by {
      MaskOctet(i);
    }
    assert Mask(i) & 0xFF000000 == 0 by {
      MaskInThree(i);
    }
  }

  lemma BitBelow(v: bv32, i: nat)
    requires i < 24
    ensures Bit(v, Mask(i + 8)) == Bit(v >> 8, Mask(i))
  {
    hide Mask, Bit, OctetUp;
    MaskOctetUp(i);
    OctetShift(v, Mask(i), Mask(i + 8));
  }

  lemma LowBits8(v: bv32)
    ensures WordBits(v)[..8] == LowOctet(v)
  {
    hide Mask, Bit;
    LowMasks();
  }

  lemma WordTail(v: bv32)
    ensures WordBits(v)[8..] == WordBits(v >> 8)[..24]
  {
    hide Mask, Bit;
    forall i | 0 <= i < 24
      ensures WordBits(v)[8..][i] == WordBits(v >> 8)[..24][i]
    {
      BitBelow(v, i);
    }
  }

  lemma WordOctets(v: bv32, w: bv32, x: bv32, y: bv32)
    requires w == v >> 8 && x == w >> 8 && y == x >> 8
    ensures WordBits(v) == LowOctet(v) + (LowOctet(w) + (LowOctet(x) + LowOctet(y)))
  {
    hide WordBits, LowOctet;
    LowBits8(v);
    LowBits8(w);
    LowBits8(x);
    LowBits8(y);
    WordTail(v);
    WordTail(w);
    WordTail(x);
    Cascade(WordBits(v), WordBits(w), WordBits(x), WordBits(y));
  }

  lemma Cascade(a: Bits, b: Bits, c: Bits, d: Bits)
    requires |a| == |b| == |c| == |d| == 32
    requires a[8..] == b[..24] && b[8..] == c[..24] && c[8..] == d[..24]
    ensures a == a[..8] + (b[..8] + (c[..8] + d[..8]))
  {
    var w := a[..8] + (b[..8] + (c[..8] + d[..8]));
    forall i | 0 <= i < 32
      ensures a[i] == w[i]
    {
      if i >= 8 {
        assert a[i] == a[8..][i - 8] == b[i - 8];
      }
      if i >= 16 {
        assert b[i - 8] == b[8..][i - 16] == c[i - 16];
      }
      if i >= 24 {
        assert c[i - 16] == c[8..][i - 24] == d[i - 24];
      }
    }
  }

  // ----- Steps -----

  function StepWord(v: bv32): bv32 {
    if v & 1 != 0 then (v >> 1) ^ 0x82F63B78 else v >> 1
  }

  /** `n` is the mask `m` one bit higher. */
  predicate BitUp(m: bv32, n: bv32) {
    m & 0x80000000 == 0 && n == m << 1
  }

  lemma ShiftOne(v: bv32, m: bv32, n: bv32)
    requires BitUp(m, n)
    ensures Bit(v, n) == Bit(v >> 1, m)
  {
  }

  lemma MaskNotTop(i: nat)
    requires i < 31
    ensures Mask(i) & 0x80000000 == 0
  {
    hide Mask;
    if i < 24 {
      MaskInThree(i);
    } else {
      LowMasks();
      MaskOctet(i - 24);
      MaskOctet(i - 16);
      MaskOctet(i - 8);
    }
  }

  lemma MaskBitUp(i: nat)
    requires i < 31
    ensures BitUp(Mask(i), Mask(i + 1))
  {
    hide Mask;
    assert Mask(i + 1) == Mask(i) << 1 by {
      MaskNext(i);
    }
    assert Mask(i) & 0x80000000 == 0 by {
      MaskNotTop(i);
    }
  }

  lemma TopMask()
    ensures Mask(31) == 0x80000000
  {
    hide Mask;
    LowMasks();
    MaskOctet(7);
    MaskOctet(15);
    MaskOctet(23);
  }

  lemma TopShifted(v: bv32)
    ensures !Bit(v >> 1, 0x80000000)
  {
  }

  lemma BitShifted(v: bv32, i: nat)
    requires i < 31
    ensures Bit(v, Mask(i + 1)) == Bit(v >> 1, Mask(i))
  {
    hide Mask, Bit, BitUp;
    MaskBitUp(i);
    ShiftOne(v, Mask(i), Mask(i + 1));
  }

  lemma TopBit(v: bv32)
    ensures !Bit(v >> 1, Mask(31))
  {
    hide Mask, Bit;
    TopMask();
    TopShifted(v);
  }

  lemma ShrBit(v: bv32, i: nat)
    requires i < 32
    ensures WordBits(v >> 1)[i] == (i < 31 && WordBits(v)[i + 1])
  {
    hide Bit, Mask;
    if i < 31 {
      BitShifted(v, i);
    } else {
      TopBit(v);
    }
  }

  lemma ShrWord(v: bv32)
    ensures WordBits(v >> 1) == Shr(WordBits(v), 1)
  {
    hide WordBits;
    var shifted, bits := WordBits(v >> 1), WordBits(v);
    forall i | 0 <= i < 32
      ensures shifted[i] == Shr(bits, 1)[i]
    {
      ShrBit(v, i);
    }
  }

  lemma PolynomialWord()
    ensures WordBits(0x82F63B78) == POLYNOMIAL
  {
    hide POLYNOMIAL, WordBits;
    PolynomialOctets();
    WordOctets(0x82F63B78, 0x82F63B, 0x82F6, 0x82);
  }

  lemma LowestBit(v: bv32)
    ensures WordBits(v)[0] == (v & 1 != 0)
  {
    MaskZero();
  }

  lemma StepWordAdvances(v: bv32)
    ensures Advance(WordBits(v)) == WordBits(StepWord(v))
  {
    hide WordBits, POLYNOMIAL;
    XorWord(v >> 1, 0x82F63B78);
    ShrWord(v);
    PolynomialWord();
    LowestBit(v);
    assert Reducer(32) == POLYNOMIAL;
  }

  function EightWord(v: bv32): bv32 {
    StepWord(StepWord(StepWord(StepWord(StepWord(StepWord(StepWord(StepWord(v))))))))
  }

  lemma StepsOne(r: Register, n: nat)
    requires n > 0
    ensures Steps(r, n) == Steps(Advance(r), n - 1)
  {
  }

  lemma StepsNone(r: Register)
    ensures Steps(r, 0) == r
  {
  }

  lemma FourSteps(v: bv32, n: nat)
    requires n >= 4
    ensures Steps(WordBits(v), n) == Steps(WordBits(StepWord(StepWord(StepWord(StepWord(v))))), n - 4)
  {
    hide Steps, WordBits, StepWord;
    var a := StepWord(v);
    var b := StepWord(a);
    var c := StepWord(b);
    StepWordAdvances(v);
    StepWordAdvances(a);
    StepWordAdvances(b);
    StepWordAdvances(c);
    StepsOne(WordBits(v), n);
    StepsOne(WordBits(a), n - 1);
    StepsOne(WordBits(b), n - 2);
    StepsOne(WordBits(c), n - 3);
  }

  lemma EightSteps(v: bv32)
    ensures Steps(WordBits(v), 8) == WordBits(EightWord(v))
  {
    hide Steps, WordBits, StepWord;
    FourSteps(v, 8);
    FourSteps(StepWord(StepWord(StepWord(StepWord(v)))), 4);
    StepsNone(WordBits(EightWord(v)));
  }

  lemma OnesWord()
    ensures WordBits(0xFFFFFFFF) == Ones(32)
  {
    hide WordBits;
    WordOctets(0xFFFFFFFF, 0xFFFFFF, 0xFFFF, 0xFF);
  }

  // ----- The residue -----

  lemma ResidueSteps()
    ensures EightWord(0xFFFFFFFF) == 0xAD82ACAE && EightWord(0xAD82ACAE) == 0x0E9E882D
    ensures EightWord(0x0E9E882D) == 0x9F9B5C85 && EightWord(0x9F9B5C85) == 0xB798B438
  {
  }

  lemma StepsSplit(r: Register, m: nat, n: nat)
    ensures Steps(r, m + n) == Steps(Steps(r, m), n)
    decreases m
  {
    if m > 0 {
      StepsSplit(Advance(r), m - 1, n);
    }
  }

  lemma OnesThirtyTwo()
    ensures Steps(Ones(32), 32) == WordBits(0xB798B438)
  {
    hide Steps, WordBits, EightWord, Ones;
    OnesWord();
    ResidueSteps();
    EightSteps(0xFFFFFFFF);
    EightSteps(0xAD82ACAE);
    EightSteps(0x0E9E882D);
    EightSteps(0x9F9B5C85);
    StepsSplit(Ones(32), 8, 24);
    StepsSplit(WordBits(0xAD82ACAE), 8, 16);
    StepsSplit(WordBits(0x0E9E882D), 8, 8);
  }

  /** A message followed by the bits of its own checksum always leaves the same register. */
  lemma Residue(data: seq<byte>)
    ensures FeedBits(INITIAL_STATE, MessageBits(data) + Checksum(data)) == WordBits(0xB798B438)
  {
    hide FeedBits, Steps, Update, MessageBits, WordBits;
    var state := Update(INITIAL_STATE, data);
    UpdateIsBitSerial(INITIAL_STATE, data);
    FeedBitsConcat(INITIAL_STATE, MessageBits(data), Checksum(data));
    WordFed(state, Checksum(data));
    assert Xor(state, Checksum(data)) == Ones(32);
    OnesThirtyTwo();
  }

  // ----- The check value -----

  // The bits of the digits' character codes, as number and as word.

  lemma LowDigits()
    ensures LowOctet(0x31) == ByteBits(0x31)
    ensures LowOctet(0x32) == ByteBits(0x32)
    ensures LowOctet(0x33) == ByteBits(0x33)
  {
    hide FromNat;
    FromNatNothing();
    OctetOf(0, 0x31, 8);
    OctetOf(0, 0x32, 8);
    OctetOf(0, 0x33, 8);
  }

  lemma MiddleDigits()
    ensures LowOctet(0x34) == ByteBits(0x34)
    ensures LowOctet(0x35) == ByteBits(0x35)
    ensures LowOctet(0x36) == ByteBits(0x36)
  {
    hide FromNat;
    FromNatNothing();
    OctetOf(0, 0x34, 8);
    OctetOf(0, 0x35, 8);
    OctetOf(0, 0x36, 8);
  }

  lemma HighDigits()
    ensures LowOctet(0x37) == ByteBits(0x37)
    ensures LowOctet(0x38) == ByteBits(0x38)
    ensures LowOctet(0x39) == ByteBits(0x39)
  {
    hide FromNat;
    FromNatNothing();
    OctetOf(0, 0x37, 8);
    OctetOf(0, 0x38, 8);
    OctetOf(0, 0x39, 8);
  }

  lemma HighOctetsZero(w: bv32)
    requires w & 0xFFFFFF00 == 0
    ensures WordBits(w) == LowOctet(w) + Zeros(24)
  {
    hide WordBits;
    assert w >> 8 == 0;
    WordOctets(w, 0, 0, 0);
    assert LowOctet(0) == Zeros(8);
    assert Zeros(8) + (Zeros(8) + Zeros(8)) == Zeros(24);
  }

  /** Feeding byte `b`, which is the word `w`. */
  lemma ByteFed(v: bv32, b: byte, w: bv32)
    requires LowOctet(w) == ByteBits(b) && w & 0xFFFFFF00 == 0
    ensures ByteStep(WordBits(v), b) == WordBits(EightWord(v ^ w))
  {
    hide WordBits, LowOctet, Steps, EightWord, ByteBits;
    HighOctetsZero(w);
    XorWord(v, w);
    EightSteps(v ^ w);
  }

  lemma CheckSteps()
    ensures EightWord(0xFFFFFFFF ^ 0x31) == 0x6F0A661C
    ensures EightWord(0x6F0A661C ^ 0x32) == 0x8CAA3B9F
    ensures EightWord(0x8CAA3B9F ^ 0x33) == 0xEF84D04D
    ensures EightWord(0xEF84D04D ^ 0x34) == 0x09C50B11
    ensures EightWord(0x09C50B11 ^ 0x35) == 0xE72EDCCA
    ensures EightWord(0xE72EDCCA ^ 0x36) == 0xBECA8E79
    ensures EightWord(0xBECA8E79 ^ 0x37) == 0xEDBD6815
    ensures EightWord(0xEDBD6815 ^ 0x38) == 0x9F787F65
    ensures EightWord(0x9F787F65 ^ 0x39) == 0x1CF96D7C
  {
  }

  lemma UpdatePrefix(r: Register, data: seq<byte>, i: nat)
    requires i < |data|
    ensures Update(r, data[..i + 1]) == ByteStep(Update(r, data[..i]), data[i])
  {
    assert data[..i + 1][..i] == data[..i];
  }

  const DIGITS: seq<byte> := [0x31, 0x32, 0x33, 0x34, 0x35, 0x36, 0x37, 0x38, 0x39]

  lemma DigitsUpdate()
    ensures Update(INITIAL_STATE, DIGITS) == WordBits(0x1CF96D7C)
  {
    hide WordBits, EightWord, Update, ByteStep, LowOctet, ByteBits;
    OnesWord();
    LowDigits();
    MiddleDigits();
    HighDigits();
    CheckSteps();
    ByteFed(0xFFFFFFFF, 0x31, 0x31);
    ByteFed(0x6F0A661C, 0x32, 0x32);
    ByteFed(0x8CAA3B9F, 0x33, 0x33);
    ByteFed(0xEF84D04D, 0x34, 0x34);
    ByteFed(0x09C50B11, 0x35, 0x35);
    ByteFed(0xE72EDCCA, 0x36, 0x36);
    ByteFed(0xBECA8E79, 0x37, 0x37);
    ByteFed(0xEDBD6815, 0x38, 0x38);
    ByteFed(0x9F787F65, 0x39, 0x39);
    UpdateEmpty(INITIAL_STATE);
    UpdatePrefix(INITIAL_STATE, DIGITS, 0);
    UpdatePrefix(INITIAL_STATE, DIGITS, 1);
    UpdatePrefix(INITIAL_STATE, DIGITS, 2);
    UpdatePrefix(INITIAL_STATE, DIGITS, 3);
    UpdatePrefix(INITIAL_STATE, DIGITS, 4);
    UpdatePrefix(INITIAL_STATE, DIGITS, 5);
    UpdatePrefix(INITIAL_STATE, DIGITS, 6);
    UpdatePrefix(INITIAL_STATE, DIGITS, 7);
    UpdatePrefix(INITIAL_STATE, DIGITS, 8);
    assert DIGITS[..0] == [] && DIGITS[..9] == DIGITS;
  }

  lemma CheckHigh()
    ensures FromNat(0xE306, 16) == LowOctet(0x06) + (LowOctet(0xE3) + [])
  {
    hide FromNat;
    OctetOf(0xE3, 0x06, 16);
    OctetOf(0, 0xE3, 8);
    FromNatNothing();
  }

  lemma CheckLow()
    ensures FromNat(0xE3069283, 32) == LowOctet(0x83) + (LowOctet(0x92) + FromNat(0xE306, 16))
  {
    hide FromNat;
    OctetOf(0xE30692, 0x83, 32);
    OctetOf(0xE306, 0x92, 24);
  }

  lemma OctetOnly(v: bv32, w: bv32)
    requires v & 0xFF == w & 0xFF
    ensures LowOctet(v) == LowOctet(w)
  {
  }

  /** The check value as a number. */
  lemma CheckNumber()
    ensures ToNat(WordBits(0xE3069283)) == 0xE3069283
  {
    hide FromNat, ToNat, WordBits, LowOctet, Pow2;
    WordOctets(0xE3069283, 0xE30692, 0xE306, 0xE3);
    OctetOnly(0xE3069283, 0x83);
    OctetOnly(0xE30692, 0x92);
    OctetOnly(0xE306, 0x06);
    CheckLow();
    CheckHigh();
    assert LowOctet(0xE3) + [] == LowOctet(0xE3);
    Pow2Word();
    ToFromNat(0xE3069283, 32);
  }

  /** The check value of the Castagnoli code: "123456789" has the checksum 0xE3069283; nothing has zero. */
  lemma CheckValue()
    ensures ToNat(Checksum(DIGITS)) == 0xE3069283 && Checksum([]) == Zeros(32)
  {
    hide WordBits, Update, ToNat;
    UpdateEmpty(INITIAL_STATE);
    DigitsUpdate();
    OnesWord();
    XorWord(0x1CF96D7C, 0xFFFFFFFF);
    CheckNumber();
  }
}
