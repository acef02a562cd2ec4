/** What the checksum detects: every change confined to 32 consecutive bits, and so every change
    confined to four consecutive bytes. */
module Crc32Detection {
  import opened Crc32

  lemma {:induction false} LowBitsInjective(n: nat, x: bv32, y: bv32)
    requires Vanishes(n, x) && Vanishes(n, y) && LowBits(n, x) == LowBits(n, y)
    ensures x == y
  {
    hide Half, Odd;
    if n > 0 {
      assert LowBits(n, x)[0] == LowBits(n, y)[0];
      assert LowBits(n, x)[1..] == LowBits(n - 1, Half(x)) && LowBits(n, y)[1..] == LowBits(n - 1, Half(y));
      LowBitsInjective(n - 1, Half(x), Half(y));
      Reassemble(x);
      Reassemble(y);
    }
  }

  lemma {:induction false} BitsDetermineData(a: seq<bv8>, b: seq<bv8>)
    requires |a| == |b| && BitsOf(a) == BitsOf(b)
    ensures a == b
    decreases |a|
  {
    hide LowBits;
    if a != [] {
      assert BitsOf(a)[..8] == BitsOfByte(a[0]) && BitsOf(b)[..8] == BitsOfByte(b[0]);
      assert BitsOf(a)[8..] == BitsOf(a[1..]) && BitsOf(b)[8..] == BitsOf(b[1..]);
      BitsDetermineData(a[1..], b[1..]);
      BitsDetermineByte(a[0], b[0]);
      assert a == [a[0]] + a[1..] && b == [b[0]] + b[1..];
    }
  }

  lemma BitsDetermineByte(a: bv8, b: bv8)
    requires BitsOfByte(a) == BitsOfByte(b)
    ensures a == b
  {
    hide LowBits, Vanishes, ShiftByte;
    ByteHasNoHighPart(a);
    ByteHasNoHighPart(b);
    ByteVanishes(a as bv32);
    ByteVanishes(b as bv32);
    LowBitsInjective(8, a as bv32, b as bv32);
    SameByte(a, b);
  }

  lemma SameByte(a: bv8, b: bv8)
    requires a as bv32 == b as bv32
    ensures a == b
  {
  }

  /** Up to 32 bits between a common start and a common end leave their mark on the register. */
  lemma BurstChangesRegister(c: bv32, start: seq<bool>, xs: seq<bool>, ys: seq<bool>, end: seq<bool>)
    requires |xs| == |ys| <= 32
    requires FeedBits(c, start + xs + end) == FeedBits(c, start + ys + end)
    ensures xs == ys
  {
    hide FeedBits, Steps, Packed, Xor;
    var s := FeedBits(c, start);
    FeedAppend(c, start + xs, end);
    FeedAppend(c, start + ys, end);
    FeedAppend(c, start, xs);
    FeedAppend(c, start, ys);
    FeedInjective(FeedBits(s, xs), FeedBits(s, ys), end);
    FeedIsSteps(s, xs);
    FeedIsSteps(s, ys);
    StepsInjective(|xs|, Xor(s, Packed(xs)), Xor(s, Packed(ys)));
    XorCommutes(s, Packed(xs));
    XorCommutes(s, Packed(ys));
    XorCancels(Packed(xs), s);
    XorCancels(Packed(ys), s);
    PackedInjective(xs, ys);
  }

  /** Two different messages of the same length that agree outside n <= 32 consecutive bits have
      different checksums. */
  lemma {:induction false} BurstDetected(a: seq<bv8>, b: seq<bv8>, lo: nat, n: nat)
    requires |a| == |b| && n <= 32 && lo + n <= 8 * |a|
    requires BitsOf(a)[..lo] == BitsOf(b)[..lo] && BitsOf(a)[lo + n..] == BitsOf(b)[lo + n..]
    requires a != b
    ensures Crc(a) != Crc(b)
  {
    if Crc(a) == Crc(b) {
      hide FeedBits, BitsOf, Xor;
      var p, q := BitsOf(a), BitsOf(b);
      XorCancels(FeedBits(0xFFFF_FFFF, p), 0xFFFF_FFFF);
      XorCancels(FeedBits(0xFFFF_FFFF, q), 0xFFFF_FFFF);
      assert p == p[..lo] + p[lo..lo + n] + p[lo + n..];
      assert q == q[..lo] + q[lo..lo + n] + q[lo + n..];
      BurstChangesRegister(0xFFFF_FFFF, p[..lo], p[lo..lo + n], q[lo..lo + n], p[lo + n..]);
      BitsDetermineData(a, b);
    }
  }

  lemma {:induction false} BitsOfConcat(a: seq<bv8>, b: seq<bv8>)
    ensures BitsOf(a + b) == BitsOf(a) + BitsOf(b)
    decreases |a|
  {
    hide BitsOfByte;
    if a == [] {
      assert a + b == b;
    } else {
      assert (a + b)[1..] == a[1..] + b;
      BitsOfConcat(a[1..], b);
    }
  }

  /** Four consecutive bytes, fewer at the end of the message. */
  lemma FourBytesDetected(a: seq<bv8>, b: seq<bv8>, at: nat, n: nat)
    requires |a| == |b| && n <= 4 && at + n <= |a|
    requires a[..at] == b[..at] && a[at + n..] == b[at + n..] && a != b
    ensures Crc(a) != Crc(b)
  {
    hide BitsOf;
    assert a == a[..at] + a[at..] && b == b[..at] + b[at..];
    assert a == a[..at + n] + a[at + n..] && b == b[..at + n] + b[at + n..];
    BitsOfConcat(a[..at], a[at..]);
    BitsOfConcat(b[..at], b[at..]);
    BitsOfConcat(a[..at + n], a[at + n..]);
    BitsOfConcat(b[..at + n], b[at + n..]);
    BurstDetected(a, b, 8 * at, 8 * n);
  }

  function Zeros(n: nat): (r: seq<bool>)
    ensures |r| == n
  {
    if n == 0 then [] else [false] + Zeros(n - 1)
  }

  lemma {:induction false} PackedZeros(n: nat)
    ensures Packed(Zeros(n)) == 0
  {
    if n > 0 {
      PackedZeros(n - 1);
      assert Zeros(n)[1..] == Zeros(n - 1);
    }
  }

  lemma PolynomialVanishes()
    ensures Vanishes(32, POLYNOMIAL)
  {
    hide Vanishes;
    var x1 := ShiftByte(POLYNOMIAL);
    var x2 := ShiftByte(x1);
    var x3 := ShiftByte(x2);
    ByteVanishes(x3);
    VanishesEightLater(8, x2);
    VanishesEightLater(16, x1);
    VanishesEightLater(24, POLYNOMIAL);
  }

  /** 32 is the limit: a set bit followed by the polynomial's 32 bits goes unnoticed from every
      state, so whatever comes before and after, it can replace 33 zero bits. */
  lemma LongerBurstMissed(c: bv32)
    ensures FeedBits(c, [true] + LowBits(32, POLYNOMIAL)) == FeedBits(c, [false] + Zeros(32))
  {
    hide LowBits, Vanishes, Packed, Steps, Zeros, BitStep, Xor;
    var bits := LowBits(32, POLYNOMIAL);
    var even, odd := FeedBit(c, false), FeedBit(c, true);
    assert ([true] + bits)[1..] == bits && ([false] + Zeros(32))[1..] == Zeros(32);
    PolynomialVanishes();
    PackedLowBits(32, POLYNOMIAL);
    PackedZeros(32);
    FeedIsSteps(odd, bits);
    FeedIsSteps(even, Zeros(32));
    StepIsLinear(c, 1);
    StepOfOne();
    XorZero(c);
    XorZero(even);
    XorCancels(even, POLYNOMIAL);
  }

  lemma StepOfOne()
    ensures BitStep(1) == POLYNOMIAL
  {
  }

  /** Feeding different bytes to different registers: the difference goes through the steps. */
  lemma DifferenceOfByte(a: bv32, b: bv32, x: bv8, y: bv8, d: bv32)
    requires Xor(a, b) == d
    ensures Xor(FeedBits(a, BitsOfByte(x)), FeedBits(b, BitsOfByte(y))) == Steps(8, Xor(d, Xor(x as bv32, y as bv32)))
  {
    hide Xor, FeedBits, LowBits, Vanishes, Packed, Steps, ShiftByte;
    ByteIsSteps(a, x);
    ByteIsSteps(b, y);
    StepsAreLinear(8, Xor(a, x as bv32), Xor(b, y as bv32));
    XorRegroups(a, b, x as bv32, y as bv32);
  }

  lemma ByteIsSteps(c: bv32, x: bv8)
    ensures FeedBits(c, BitsOfByte(x)) == Steps(8, Xor(c, x as bv32))
  {
    hide Xor, FeedBits, LowBits, Vanishes, Packed, Steps, ShiftByte;
    ByteHasNoHighPart(x);
    ByteVanishes(x as bv32);
    PackedLowBits(8, x as bv32);
    FeedIsSteps(c, BitsOfByte(x));
  }

  lemma XorRegroups(a: bv32, b: bv32, x: bv32, y: bv32)
    ensures Xor(Xor(a, x), Xor(b, y)) == Xor(Xor(a, b), Xor(x, y))
  {
    hide Xor;
    XorAssociates(a, x, Xor(b, y));
    XorAssociates(x, b, y);
    XorCommutes(x, b);
    XorAssociates(b, x, y);
    XorAssociates(a, b, Xor(x, y));
  }

  lemma {:induction false} FeedBytes(c: bv32, data: seq<bv8>)
    requires data != []
    ensures FeedBits(c, BitsOf(data)) == FeedBits(FeedBits(c, BitsOfByte(data[0])), BitsOf(data[1..]))
  {
    hide FeedBits, BitsOfByte;
    FeedAppend(c, BitsOfByte(data[0]), BitsOf(data[1..]));
  }

  const MISSED: seq<bv8> := [0x41, 0x06, 0x71, 0xDB, 0x01]
  const ZERO: seq<bv8> := [0, 0, 0, 0, 0]

  /** The steps of the difference between the two messages. */
  lemma DifferenceVanishes()
    ensures Steps(8, 0x41) == 0x1DB_7106 && Steps(8, 0x1DB_7100) == 0x1_DB71 && Steps(8, 0x1_DB00) == 0x1DB
    ensures Steps(8, 0x100) == 1 && Steps(8, 0) == 0
  {
    assert Steps(4, 0x1DB7_1060) == 0x1DB_7106 && Steps(4, 0x1D_B710) == 0x1_DB71 && Steps(4, 0x1DB0) == 0x1DB;
    assert Steps(4, 0x10) == 1 && Steps(4, 0) == 0;
  }

  lemma FiveBytes(c: bv32, m: seq<bv8>)
    requires |m| == 5
    ensures FeedBits(c, BitsOf(m)) ==
      FeedBits(FeedBits(FeedBits(FeedBits(FeedBits(c, BitsOfByte(m[0])), BitsOfByte(m[1])), BitsOfByte(m[2])), BitsOfByte(m[3])), BitsOfByte(m[4]))
  {
    hide FeedBits, BitsOfByte, BitsOf;
    var c1 := FeedBits(c, BitsOfByte(m[0]));
    var c2 := FeedBits(c1, BitsOfByte(m[1]));
    var c3 := FeedBits(c2, BitsOfByte(m[2]));
    var c4 := FeedBits(c3, BitsOfByte(m[3]));
    FeedBytes(c, m);
    FeedBytes(c1, m[1..]);
    FeedBytes(c2, m[2..]);
    FeedBytes(c3, m[3..]);
    FeedBytes(c4, m[4..]);
    assert m[1..][1..] == m[2..] && m[2..][1..] == m[3..] && m[3..][1..] == m[4..] && m[4..][1..] == [];
    NoBits();
    FeedNothing(FeedBits(c4, BitsOfByte(m[4])));
  }

  lemma NoBits()
    ensures BitsOf([]) == []
  {
  }

  /** Two messages of one length that differ only in their first 33 bits and have the same
      checksum. */
  lemma SameChecksum()
    ensures |MISSED| == |ZERO| && MISSED != ZERO && BitsOf(MISSED)[33..] == BitsOf(ZERO)[33..]
    ensures Crc(MISSED) == Crc(ZERO)
  {
    hide FeedBits, BitsOfByte, BitsOf, Xor, Steps;
    assert MISSED[0] != ZERO[0];
    LastBitsAgree();
    var a, b := MISSED, ZERO;
    var c: bv32 := 0xFFFF_FFFF;
    FiveBytes(c, a);
    FiveBytes(c, b);
    var a1, b1 := FeedBits(c, BitsOfByte(a[0])), FeedBits(c, BitsOfByte(b[0]));
    var a2, b2 := FeedBits(a1, BitsOfByte(a[1])), FeedBits(b1, BitsOfByte(b[1]));
    var a3, b3 := FeedBits(a2, BitsOfByte(a[2])), FeedBits(b2, BitsOfByte(b[2]));
    var a4, b4 := FeedBits(a3, BitsOfByte(a[3])), FeedBits(b3, BitsOfByte(b[3]));
    var a5, b5 := FeedBits(a4, BitsOfByte(a[4])), FeedBits(b4, BitsOfByte(b[4]));
    DifferenceVanishes();
    ByteDifferences();
    XorSelf(c);
    DifferenceOfByte(c, c, a[0], b[0], 0);
    DifferenceOfByte(a1, b1, a[1], b[1], 0x1DB_7106);
    DifferenceOfByte(a2, b2, a[2], b[2], 0x1_DB71);
    DifferenceOfByte(a3, b3, a[3], b[3], 0x1DB);
    DifferenceOfByte(a4, b4, a[4], b[4], 1);
    NoDifference(a5, b5);
  }

  lemma ByteDifferences()
    ensures Xor(0, Xor(0x41, 0)) == 0x41 && Xor(0x1DB_7106, Xor(0x06, 0)) == 0x1DB_7100
    ensures Xor(0x1_DB71, Xor(0x71, 0)) == 0x1_DB00 && Xor(0x1DB, Xor(0xDB, 0)) == 0x100 && Xor(1, Xor(1, 0)) == 0
  {
  }

  lemma XorSelf(c: bv32)
    ensures Xor(c, c) == 0
  {
  }

  lemma NoDifference(a: bv32, b: bv32)
    requires Xor(a, b) == 0
    ensures a == b
  {
  }

  lemma LastBitsAgree()
    ensures BitsOf(MISSED)[33..] == BitsOf(ZERO)[33..]
  {
    hide BitsOf;
    LastByteBits(MISSED);
    LastByteBits(ZERO);
    assert LowBits(8, 1)[1..] == LowBits(7, Half(1)) && LowBits(8, 0)[1..] == LowBits(7, Half(0));
    assert Half(1) == Half(0);
  }

  lemma LastByteBits(m: seq<bv8>)
    requires |m| == 5
    ensures BitsOf(m)[33..] == BitsOfByte(m[4])[1..]
  {
    hide BitsOfByte;
    assert m == m[..4] + [m[4]];
    BitsOfConcat(m[..4], [m[4]]);
    assert BitsOf([m[4]]) == BitsOfByte(m[4]) + BitsOf([]);
    assert BitsOf(m)[32..] == BitsOfByte(m[4]);
    assert BitsOf(m)[33..] == BitsOf(m)[32..][1..];
  }
}
