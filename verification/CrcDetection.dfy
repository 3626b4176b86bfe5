/**
  What a CRC32C mismatch is guaranteed to catch: every burst of up to 32 consecutive bits, hence
  every change confined to four consecutive bytes, and every change of an odd number of bits.
 */
module CrcDetection {
  import opened Common
  import opened Crc32c

  // ----- Bursts -----

  ghost predicate DifferFrom(r: Bits, q: Bits, k: nat)
    requires |r| == |q|
  {
    exists i :: k <= i < |r| && r[i] != q[i]
  }

  /** The step bit by bit: the bit shifted out comes back as the top bit. */
  lemma AdvanceBits(r: Register)
    requires |r| == 32
    ensures |POLYNOMIAL| == 32 && Advance(r)[31] == r[0]
    ensures forall i :: 0 <= i < 31 ==> Advance(r)[i] == (r[i + 1] != (r[0] && POLYNOMIAL[i]))
  {
    TopTerm();
    hide POLYNOMIAL;
    assert Reducer(32) == POLYNOMIAL;
    if r[0] {
      assert forall i :: 0 <= i < 31 ==> Shr(r, 1)[i] == r[i + 1];
      assert !Shr(r, 1)[31];
    }
  }

  /** The step keeps a difference: its lowest bit comes back as the top bit, the others move down. */
  lemma FeedKeepsDifference(r: Register, q: Register, a: bool, b: bool, k: nat)
    requires |r| == |q| == 32 && 1 <= k < 32 && DifferFrom(r, q, k)
    ensures DifferFrom(Feed(r, a), Feed(q, b), k - 1)
  {
    hide Advance, POLYNOMIAL;
    var i :| k <= i < 32 && r[i] != q[i];
    var r1, q1 := XorBit(r, a), XorBit(q, b);
    AdvanceBits(r1);
    AdvanceBits(q1);
    if r1[0] != q1[0] {
      assert Feed(r, a)[31] != Feed(q, b)[31];
    } else {
      assert r1[i] != q1[i];
      assert Feed(r, a)[i - 1] != Feed(q, b)[i - 1];
    }
  }

  lemma {:induction false} DifferenceSurvives(r: Register, q: Register, x: Bits, y: Bits, k: nat)
    requires |r| == |q| == 32 && |x| == |y| <= k < 32 && DifferFrom(r, q, k)
    ensures FeedBits(r, x) != FeedBits(q, y)
    decreases |x|
  {
    hide Feed;
    if x != [] {
      FeedKeepsDifference(r, q, x[0], y[0], k);
      DifferenceSurvives(Feed(r, x[0]), Feed(q, y[0]), x[1..], y[1..], k - 1);
    }
  }

  lemma AdvanceInjective(r: Register, q: Register)
    requires |r| == |q| == 32 && Advance(r) == Advance(q)
    ensures r == q
  {
    hide Advance, POLYNOMIAL;
    AdvanceBits(r);
    AdvanceBits(q);
    forall i | 1 <= i < 32
      ensures r[i] == q[i]
    {
      assert Advance(r)[i - 1] == Advance(q)[i - 1];
    }
  }

  lemma FeedInjective(r: Register, q: Register, b: bool)
    requires |r| == |q| == 32 && Feed(r, b) == Feed(q, b)
    ensures r == q
  {
    hide Advance;
    AdvanceInjective(XorBit(r, b), XorBit(q, b));
    forall i | 0 <= i < 32
      ensures r[i] == q[i]
    {
      assert XorBit(r, b)[i] == XorBit(q, b)[i];
    }
  }

  /** Feeding a fixed message is a bijection on states: no later data can hide a difference. */
  lemma {:induction false} FeedBitsInjective(r: Register, q: Register, bits: Bits)
    requires |r| == |q| == 32 && FeedBits(r, bits) == FeedBits(q, bits)
    ensures r == q
    decreases |bits|
  {
    hide Feed;
    if bits != [] {
      FeedBitsInjective(Feed(r, bits[0]), Feed(q, bits[0]), bits[1..]);
      FeedInjective(r, q, bits[0]);
    }
  }

  ghost predicate AgreeOutside<T>(x: seq<T>, y: seq<T>, lo: int, hi: int)
    requires |x| == |y|
  {
    forall p :: 0 <= p < |x| && !(lo <= p < hi) ==> x[p] == y[p]
  }

  lemma FirstStepDiffers(r: Register, a: bool, b: bool)
    requires |r| == 32 && a != b
    ensures DifferFrom(Feed(r, a), Feed(r, b), 31)
  {
    hide Advance, POLYNOMIAL;
    AdvanceBits(XorBit(r, a));
    AdvanceBits(XorBit(r, b));
    assert Feed(r, a)[31] != Feed(r, b)[31];
  }

  lemma FirstBitDiffers(r: Register, x: Bits, y: Bits)
    requires |r| == 32 && |x| == |y| > 0 && x[0] != y[0] && AgreeOutside(x, y, 0, 32)
    ensures FeedBits(r, x) != FeedBits(r, y)
  {
    hide Feed, DifferFrom;
    var r1, q1 := Feed(r, x[0]), Feed(r, y[0]);
    FirstStepDiffers(r, x[0], y[0]);
    var m := if |x| < 32 then |x| else 32;
    var a, b, tail := x[1..m], y[1..m], x[m..];
    assert x[1..] == a + tail;
    assert y[1..] == b + tail;
    assert FeedBits(r, x) == FeedBits(r1, a + tail) && FeedBits(r, y) == FeedBits(q1, b + tail);
    SplitDiffers(r1, q1, a, b, tail);
  }

  lemma SplitDiffers(r: Register, q: Register, a: Bits, b: Bits, tail: Bits)
    requires |r| == |q| == 32 && |a| == |b| <= 31 && DifferFrom(r, q, 31)
    ensures FeedBits(r, a + tail) != FeedBits(q, b + tail)
  {
    hide Feed, DifferFrom, FeedBits;
    DifferenceSurvives(r, q, a, b, 31);
    FeedBitsConcat(r, a, tail);
    FeedBitsConcat(q, b, tail);
    if FeedBits(r, a + tail) == FeedBits(q, b + tail) {
      FeedBitsInjective(FeedBits(r, a), FeedBits(q, b), tail);
    }
  }

  /** Two messages of equal length that differ only inside 32 consecutive bits end in different states. */
  lemma {:induction false} BitBurstDetected(r: Register, x: Bits, y: Bits, lo: int)
    requires |r| == 32 && |x| == |y| && x != y && AgreeOutside(x, y, lo, lo + 32)
    ensures FeedBits(r, x) != FeedBits(r, y)
    decreases |x|
  {
    if x[0] != y[0] {
      assert AgreeOutside(x, y, 0, 32);
      FirstBitDiffers(r, x, y);
    } else {
      assert x == [x[0]] + x[1..] && y == [y[0]] + y[1..];
      BitBurstDetected(Feed(r, x[0]), x[1..], y[1..], lo - 1);
    }
  }

  lemma {:induction false} MessageBitAt(data: seq<byte>, p: nat)
    requires p < 8 * |data|
    ensures MessageBits(data)[p] == ByteBits(data[p / 8])[p % 8]
    decreases |data|
  {
    hide ByteBits;
    if p >= 8 {
      MessageBitAt(data[1..], p - 8);
      assert MessageBits(data)[p] == MessageBits(data[1..])[p - 8];
      assert (p - 8) / 8 == p / 8 - 1 && (p - 8) % 8 == p % 8;
      assert data[1..][p / 8 - 1] == data[p / 8];
    }
  }

  lemma {:induction false} MessageBitsInjective(a: seq<byte>, b: seq<byte>)
    requires |a| == |b| && MessageBits(a) == MessageBits(b)
    ensures a == b
    decreases |a|
  {
    if a != [] {
      assert MessageBits(a)[..8] == ByteBits(a[0]) && MessageBits(b)[..8] == ByteBits(b[0]);
      assert MessageBits(a)[8..] == MessageBits(a[1..]) && MessageBits(b)[8..] == MessageBits(b[1..]);
      Pow2Word();
      ToFromNat(a[0], 8);
      ToFromNat(b[0], 8);
      MessageBitsInjective(a[1..], b[1..]);
      assert a == [a[0]] + a[1..] && b == [b[0]] + b[1..];
    }
  }

  lemma FinalizeInjective(r: Register, q: Register)
    requires |r| == |q| && Finalize(r) == Finalize(q)
    ensures r == q
  {
    forall i | 0 <= i < |r|
      ensures r[i] == q[i]
    {
      assert Finalize(r)[i] == Finalize(q)[i];
    }
  }

  /** No change confined to four consecutive bytes keeps the checksum. */
  lemma ByteBurstDetected(a: seq<byte>, b: seq<byte>, lo: int)
    requires |a| == |b| && a != b && AgreeOutside(a, b, lo, lo + 4)
    ensures Checksum(a) != Checksum(b)
  {
    var x, y := MessageBits(a), MessageBits(b);
    forall p | 0 <= p < |x| && !(8 * lo <= p < 8 * lo + 32)
      ensures x[p] == y[p]
    {
      MessageBitAt(a, p);
      MessageBitAt(b, p);
      assert !(lo <= p / 8 < lo + 4);
    }
    if x == y {
      MessageBitsInjective(a, b);
    }
    BitBurstDetected(INITIAL_STATE, x, y, 8 * lo);
    BitwiseDetected(a, b);
  }

  lemma BitwiseDetected(a: seq<byte>, b: seq<byte>)
    requires FeedBits(INITIAL_STATE, MessageBits(a)) != FeedBits(INITIAL_STATE, MessageBits(b))
    ensures Checksum(a) != Checksum(b)
  {
    UpdateIsBitSerial(INITIAL_STATE, a);
    UpdateIsBitSerial(INITIAL_STATE, b);
    if Checksum(a) == Checksum(b) {
      FinalizeInjective(Update(INITIAL_STATE, a), Update(INITIAL_STATE, b));
      assert false;
    }
  }

  // ----- Odd numbers of flipped bits -----

  function Parity(bits: Bits): bool
    decreases |bits|
  {
    if bits == [] then false else bits[0] != Parity(bits[1..])
  }

  function Flips(x: Bits, y: Bits): nat
    requires |x| == |y|
    decreases |x|
  {
    if x == [] then 0 else (if x[0] != y[0] then 1 else 0) + Flips(x[1..], y[1..])
  }

  lemma {:induction false} FlipsParity(x: Bits, y: Bits)
    requires |x| == |y|
    ensures Flips(x, y) % 2 == 1 <==> Parity(x) != Parity(y)
    decreases |x|
  {
    if x != [] {
      FlipsParity(x[1..], y[1..]);
    }
  }

  lemma {:induction false} ParityConcat(a: Bits, b: Bits)
    ensures Parity(a + b) == (Parity(a) != Parity(b))
    decreases |a|
  {
    if a == [] {
      assert a + b == b;
    } else {
      assert (a + b)[1..] == a[1..] + b;
      ParityConcat(a[1..], b);
    }
  }

  lemma {:induction false} ParityXor(a: Bits, b: Bits)
    requires |a| == |b|
    ensures Parity(Xor(a, b)) == (Parity(a) != Parity(b))
    decreases |a|
  {
    if a != [] {
      assert Xor(a, b)[1..] == Xor(a[1..], b[1..]);
      ParityXor(a[1..], b[1..]);
    }
  }

  /** The generator has an odd number of terms below its leading one: it is divisible by x + 1. */
  lemma PolynomialParity()
    ensures Parity(POLYNOMIAL)
  {
    hide Parity, POLYNOMIAL;
    PolynomialOctets();
    ParityByte(false, false, false, true, true, true, true, false);
    ParityByte(true, true, false, true, true, true, false, false);
    ParityByte(false, true, true, false, true, true, true, true);
    ParityByte(false, true, false, false, false, false, false, true);
    ParityRight([false, false, false, true, true, true, true, false],
                [true, true, false, true, true, true, false, false],
                [false, true, true, false, true, true, true, true],
                [false, true, false, false, false, false, false, true]);
  }

  lemma ParityRight(a: Bits, b: Bits, c: Bits, d: Bits)
    ensures Parity(a + (b + (c + (d + [])))) == (((Parity(a) != Parity(b)) != Parity(c)) != Parity(d))
  {
    hide Parity;
    assert a + (b + (c + (d + []))) == a + b + c + d;
    ParityFour(a, b, c, d);
  }

  lemma ParityPair(a: bool, b: bool)
    ensures Parity([a, b]) == (a != b)
  {
    assert [a, b][1..] == [b] && [b][1..] == [];
    assert Parity([b]) == b;
  }

  lemma ParityByte(a: bool, b: bool, c: bool, d: bool, e: bool, f: bool, g: bool, h: bool)
    ensures Parity([a, b, c, d, e, f, g, h]) == ((((a != b) != (c != d)) != (e != f)) != (g != h))
  {
    hide Parity;
    ParityPair(a, b);
    ParityPair(c, d);
    ParityPair(e, f);
    ParityPair(g, h);
    ParityFour([a, b], [c, d], [e, f], [g, h]);
    assert [a, b, c, d, e, f, g, h] == [a, b] + [c, d] + [e, f] + [g, h];
  }

  lemma ParityFour(a: Bits, b: Bits, c: Bits, d: Bits)
    ensures Parity(a + b + c + d) == (((Parity(a) != Parity(b)) != Parity(c)) != Parity(d))
  {
    hide Parity;
    ParityConcat(a, b);
    ParityConcat(a + b, c);
    ParityConcat(a + b + c, d);
  }

  lemma ShrParity(s: Register)
    ensures Parity(Shr(s, 1)) == (Parity(s) != s[0])
  {
    ParityConcat(s[1..], Zeros(1));
    assert Zeros(1)[1..] == [] && !Parity(Zeros(1));
  }

  lemma FeedParity(r: Register, b: bool)
    requires |r| == 32
    ensures Parity(Feed(r, b)) == (Parity(r) != b)
  {
    hide Shr, Xor, POLYNOMIAL;
    var s := XorBit(r, b);
    assert s[1..] == r[1..];
    ShrParity(s);
    if s[0] {
      assert Reducer(32) == POLYNOMIAL;
      PolynomialParity();
      ParityXor(Shr(s, 1), POLYNOMIAL);
    }
  }

  /** The register's parity tracks the parity of everything fed to it. */
  lemma {:induction false} FeedBitsParity(r: Register, bits: Bits)
    requires |r| == 32
    ensures Parity(FeedBits(r, bits)) == (Parity(r) != Parity(bits))
    decreases |bits|
  {
    hide Feed;
    if bits != [] {
      FeedParity(r, bits[0]);
      FeedBitsParity(Feed(r, bits[0]), bits[1..]);
    }
  }

  /** No change of an odd number of bits keeps the checksum. */
  lemma OddFlipsDetected(a: seq<byte>, b: seq<byte>)
    requires |a| == |b| && Flips(MessageBits(a), MessageBits(b)) % 2 == 1
    ensures Checksum(a) != Checksum(b)
  {
    FlipsParity(MessageBits(a), MessageBits(b));
    FeedBitsParity(INITIAL_STATE, MessageBits(a));
    FeedBitsParity(INITIAL_STATE, MessageBits(b));
    BitwiseDetected(a, b);
  }
}
