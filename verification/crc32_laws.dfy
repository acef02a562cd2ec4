/** The two ends of the checksum: what the starting register and the final complement amount to, the
    residue of a message with its checksum behind it, and the standard check value. */
module Crc32Laws {
  import opened Crc32
  import opened Crc32Detection

  // ----- the starting register

  function Flip(bits: seq<bool>): (r: seq<bool>)
    ensures |r| == |bits|
  {
    seq(|bits|, i requires 0 <= i < |bits| => !bits[i])
  }

  function Ones(n: nat): (r: seq<bool>)
    ensures |r| == n
  {
    seq(n, _ => true)
  }

  lemma FlipOne(b: bool)
    ensures Bit(!b) == Xor(Bit(b), 1)
  {
  }

  lemma {:induction false} PackedFlip(bits: seq<bool>)
    ensures Packed(Flip(bits)) == Xor(Packed(bits), Packed(Ones(|bits|)))
    decreases |bits|
  {
    hide Xor, Double, Bit;
    if bits == [] {
      XorZero(0);
    } else {
      var x, y := Packed(bits[1..]), Packed(Ones(|bits| - 1));
      PackedFlip(bits[1..]);
      assert Flip(bits)[1..] == Flip(bits[1..]) && Ones(|bits|)[1..] == Ones(|bits| - 1);
      FlipOne(bits[0]);
      DoubleOfXor(x, y);
      XorRegroups(Double(x), Bit(bits[0]), Double(y), 1);
      OneBit();
    }
  }

  lemma OneBit()
    ensures Bit(true) == 1
  {
  }

  lemma {:induction false} PackedOnes(n: nat)
    ensures n > 0 ==> Packed(Ones(n)) == Xor(Double(Packed(Ones(n - 1))), 1)
  {
    hide Xor, Double;
    if n > 0 {
      assert Ones(n)[1..] == Ones(n - 1);
      OneBit();
    }
  }

  lemma FourOnes(n: nat, x: bv32)
    requires Packed(Ones(n)) == x
    ensures Packed(Ones(n + 4)) == Xor(Double(Xor(Double(Xor(Double(Xor(Double(x), 1)), 1)), 1)), 1)
  {
    hide Xor, Double, Ones, Packed;
    PackedOnes(n + 1);
    PackedOnes(n + 2);
    PackedOnes(n + 3);
    PackedOnes(n + 4);
  }

  lemma AllOnes()
    ensures Packed(Ones(32)) == 0xFFFF_FFFF
  {
    hide Packed, Ones;
    NoOnes();
    FourOnes(0, 0);
    FourOnes(4, 0xF);
    FourOnes(8, 0xFF);
    FourOnes(12, 0xFFF);
    FourOnes(16, 0xFFFF);
    FourOnes(20, 0xF_FFFF);
    FourOnes(24, 0xFF_FFFF);
    FourOnes(28, 0xFFF_FFFF);
  }

  lemma NoOnes()
    ensures Packed(Ones(0)) == 0
  {
  }

  /** Feeding 32 bits to a register of ones is feeding their complement to a register of zeros. */
  lemma OnesAreComplement(bits: seq<bool>)
    requires |bits| == 32
    ensures FeedBits(0xFFFF_FFFF, bits) == FeedBits(0, Flip(bits))
  {
    hide FeedBits, Xor, Packed, Steps;
    FeedIsSteps(0xFFFF_FFFF, bits);
    FeedIsSteps(0, Flip(bits));
    PackedFlip(bits);
    AllOnes();
    XorCommutes(0xFFFF_FFFF, Packed(bits));
    XorZero(Packed(Flip(bits)));
    XorCommutes(0, Packed(Flip(bits)));
  }

  /** For messages of at least four bytes the checksum is the complement of the plain division, from
      a register of zeros, of the message whose first 32 bits are complemented. */
  lemma ComplementedDivision(data: seq<bv8>)
    requires |data| >= 4
    ensures Crc(data) == Xor(FeedBits(0, Flip(BitsOf(data)[..32]) + BitsOf(data)[32..]), 0xFFFF_FFFF)
  {
    hide FeedBits, BitsOf, Xor;
    var first, rest := BitsOf(data)[..32], BitsOf(data)[32..];
    assert BitsOf(data) == first + rest;
    FeedAppend(0xFFFF_FFFF, first, rest);
    FeedAppend(0, Flip(first), rest);
    OnesAreComplement(first);
  }

  // ----- the final complement

  /** The bytes of a word as they are stored, lowest first. */
  function AsByte(x: bv32): bv8 { LowByte(x) as bv8 }

  function Stored(x: bv32): (r: seq<bv8>)
    ensures |r| == 4
  {
    var x1 := ShiftByte(x);
    var x2 := ShiftByte(x1);
    [AsByte(x), AsByte(x1), AsByte(x2), AsByte(ShiftByte(x2))]
  }

  lemma AsByteBack(x: bv32)
    ensures AsByte(x) as bv32 == LowByte(x)
  {
  }

  predicate SameBelow(x: bv32, y: bv32, mask: bv32) { Clear(Xor(x, y), mask) }

  lemma LowByteIsSame(x: bv32)
    ensures SameBelow(LowByte(x), x, 0xFF)
  {
  }

  lemma SameStep(x: bv32, y: bv32, mask: bv32)
    requires SameBelow(x, y, (mask << 1) | 1)
    ensures Odd(x) == Odd(y) && SameBelow(Half(x), Half(y), mask)
  {
  }

  lemma FourSame(x: bv32, y: bv32, mask: bv32)
    requires SameBelow(x, y, (mask << 4) | 15) && mask <= 15
    ensures LowBits(4, x) == LowBits(4, y) && SameBelow(Half(Half(Half(Half(x)))), Half(Half(Half(Half(y)))), mask)
  {
    hide Odd, Half, SameBelow;
    FourMasks(mask);
    SameStep(x, y, (mask << 3) | 7);
    SameStep(Half(x), Half(y), (mask << 2) | 3);
    SameStep(Half(Half(x)), Half(Half(y)), (mask << 1) | 1);
    SameStep(Half(Half(Half(x))), Half(Half(Half(y))), mask);
    FourBits(x);
    FourBits(y);
  }

  lemma FourMasks(mask: bv32)
    requires mask <= 15
    ensures (((mask << 3) | 7) << 1) | 1 == (mask << 4) | 15
    ensures (((mask << 2) | 3) << 1) | 1 == (mask << 3) | 7
    ensures (((mask << 1) | 1) << 1) | 1 == (mask << 2) | 3
  {
  }

  lemma FourBits(x: bv32)
    ensures LowBits(4, x) == [Odd(x), Odd(Half(x)), Odd(Half(Half(x))), Odd(Half(Half(Half(x))))]
  {
    hide Odd, Half;
    var x1 := Half(x);
    var x2 := Half(x1);
    var x3 := Half(x2);
    assert LowBits(1, x3) == [Odd(x3)] + LowBits(0, Half(x3));
    assert LowBits(2, x2) == [Odd(x2)] + LowBits(1, x3);
    assert LowBits(3, x1) == [Odd(x1)] + LowBits(2, x2);
    assert LowBits(4, x) == [Odd(x)] + LowBits(3, x1);
  }

  function Halves(n: nat, x: bv32): bv32 { if n == 0 then x else Halves(n - 1, Half(x)) }

  lemma {:induction false} LowBitsSplit(n: nat, m: nat, x: bv32)
    ensures LowBits(n + m, x) == LowBits(n, x) + LowBits(m, Halves(n, x))
  {
    hide Odd, Half;
    if n > 0 {
      LowBitsSplit(n - 1, m, Half(x));
    }
  }

  lemma TwoHalves(n: nat, x: bv32)
    ensures Halves(n + 2, x) == Halves(n, Half(Half(x)))
  {
    hide Half;
    assert Halves(n + 1, Half(x)) == Halves(n, Half(Half(x)));
  }

  lemma EightIsShift(x: bv32)
    ensures Halves(8, x) == ShiftByte(x) && Halves(4, x) == Half(Half(Half(Half(x))))
  {
    hide Half, ShiftByte;
    EightHalves(x);
    var x4 := Half(Half(Half(Half(x))));
    TwoHalves(2, x);
    TwoHalves(0, Half(Half(x)));
    TwoHalves(6, x);
    TwoHalves(4, Half(Half(x)));
    TwoHalves(2, x4);
    TwoHalves(0, Half(Half(x4)));
  }

  /** A stored byte carries the low eight bits. */
  lemma StoredBits(x: bv32)
    ensures BitsOfByte(AsByte(x)) == LowBits(8, x)
  {
    hide Odd, Half, LowBits, SameBelow, Halves;
    var y := LowByte(x);
    AsByteBack(x);
    LowByteIsSame(x);
    FourSame(y, x, 15);
    var x4, y4 := Half(Half(Half(Half(x)))), Half(Half(Half(Half(y))));
    FourSame(y4, x4, 0);
    EightIsShift(x);
    EightIsShift(y);
    LowBitsSplit(4, 4, x);
    LowBitsSplit(4, 4, y);
  }

  lemma BitsOfStored(x: bv32)
    ensures BitsOf(Stored(x)) == LowBits(32, x)
  {
    hide LowBits, ShiftByte, AsByte, BitsOfByte;
    var x1 := ShiftByte(x);
    var x2 := ShiftByte(x1);
    var x3 := ShiftByte(x2);
    StoredBits(x);
    StoredBits(x1);
    StoredBits(x2);
    StoredBits(x3);
    EightIsShift(x);
    EightIsShift(x1);
    EightIsShift(x2);
    LowBitsSplit(8, 24, x);
    LowBitsSplit(8, 16, x1);
    LowBitsSplit(8, 8, x2);
    FourBytes(AsByte(x), AsByte(x1), AsByte(x2), AsByte(x3));
  }

  lemma FourBytes(a: bv8, b: bv8, c: bv8, d: bv8)
    ensures BitsOf([a, b, c, d]) == BitsOfByte(a) + (BitsOfByte(b) + (BitsOfByte(c) + BitsOfByte(d)))
  {
    hide BitsOfByte;
    assert [a, b, c, d][1..] == [b, c, d] && [b, c, d][1..] == [c, d] && [c, d][1..] == [d] && [d][1..] == [];
    assert BitsOf([d]) == BitsOfByte(d) + BitsOf([]);
    assert BitsOf([c, d]) == BitsOfByte(c) + BitsOf([d]);
    assert BitsOf([b, c, d]) == BitsOfByte(b) + BitsOf([c, d]);
    assert BitsOf([a, b, c, d]) == BitsOfByte(a) + BitsOf([b, c, d]);
  }

  lemma WordVanishes(x: bv32)
    ensures Vanishes(32, x)
  {
    hide Vanishes, ShiftByte;
    var x1 := ShiftByte(x);
    var x2 := ShiftByte(x1);
    var x3 := ShiftByte(x2);
    AllShifted(x);
    ByteVanishes(x3);
    VanishesEightLater(8, x2);
    VanishesEightLater(16, x1);
    VanishesEightLater(24, x);
  }

  lemma AllShifted(x: bv32)
    ensures ShiftByte(ShiftByte(ShiftByte(ShiftByte(x)))) == 0
  {
  }

  /** Feeding a stored word. */
  lemma FeedStored(c: bv32, x: bv32)
    ensures FeedBits(c, BitsOf(Stored(x))) == Steps(32, Xor(c, x))
  {
    hide FeedBits, BitsOf, Stored, LowBits, Packed, Steps, Xor, Vanishes;
    BitsOfStored(x);
    WordVanishes(x);
    PackedLowBits(32, x);
    FeedIsSteps(c, LowBits(32, x));
  }

  /** What is left of 32 ones. */
  const RESIDUE: bv32 := 0xDEBB_20E3

  lemma {:induction false} StepsAdd(n: nat, m: nat, c: bv32)
    ensures Steps(n + m, c) == Steps(m, Steps(n, c))
  {
    hide BitStep;
    if n > 0 {
      StepsAdd(n - 1, m, BitStep(c));
    }
  }

  lemma FourSteps(c: bv32, c1: bv32, c2: bv32, c3: bv32, c4: bv32)
    requires BitStep(c) == c1 && BitStep(c1) == c2 && BitStep(c2) == c3 && BitStep(c3) == c4
    ensures Steps(4, c) == c4
  {
    hide BitStep;
    assert Steps(1, c3) == c4;
    assert Steps(2, c2) == c4;
    assert Steps(3, c1) == c4;
  }

  lemma FirstHalf()
    ensures Steps(16, 0xFFFF_FFFF) == 0xBE26ED00
  {
    FourSteps(0xFFFFFFFF, 0x92477CDF, 0xA49B3D4F, 0xBFF51D87, 0xB2420DE3);
    FourSteps(0xB2420DE3, 0xB49985D1, 0xB7F441C8, 0x5BFA20E4, 0x2DFD1072);
    FourSteps(0x2DFD1072, 0x16FE8839, 0xE6C7C73C, 0x7363E39E, 0x39B1F1CF);
    FourSteps(0x39B1F1CF, 0xF1607BC7, 0x9508BEC3, 0xA73CDC41, 0xBE26ED00);
    hide Steps;
    StepsAdd(4, 12, 0xFFFFFFFF);
    StepsAdd(4, 8, 0xB2420DE3);
    StepsAdd(4, 4, 0x2DFD1072);
  }

  lemma SecondHalf()
    ensures Steps(16, 0xBE26ED00) == RESIDUE
  {
    FourSteps(0xBE26ED00, 0x5F137680, 0x2F89BB40, 0x17C4DDA0, 0xBE26ED0);
    FourSteps(0xBE26ED0, 0x5F13768, 0x2F89BB4, 0x17C4DDA, 0xBE26ED);
    FourSteps(0xBE26ED, 0xEDE79056, 0x76F3C82B, 0xD6C16735, 0x86D830BA);
    FourSteps(0x86D830BA, 0x436C185D, 0xCC0E8F0E, 0x66074787, 0xDEBB20E3);
    hide Steps;
    StepsAdd(4, 12, 0xBE26ED00);
    StepsAdd(4, 8, 0xBE26ED0);
    StepsAdd(4, 4, 0xBE26ED);
  }

  lemma StepsOfOnes()
    ensures Steps(32, 0xFFFF_FFFF) == RESIDUE
  {
    hide Steps;
    FirstHalf();
    SecondHalf();
    StepsAdd(16, 16, 0xFFFF_FFFF);
  }

  lemma ComplementMeets(c: bv32)
    ensures Xor(c, Xor(c, 0xFFFF_FFFF)) == 0xFFFF_FFFF
  {
  }

  /** Dividing a message with four bytes behind it leaves the residue, the same for every message, if
      and only if the four bytes are its checksum. */
  lemma Residue(data: seq<bv8>, tail: seq<bv8>)
    requires |tail| == 4
    ensures FeedBits(0xFFFF_FFFF, BitsOf(data + tail)) == RESIDUE <==> tail == Stored(Crc(data))
    ensures Crc(data + tail) == 0x2144_DF1C <==> tail == Stored(Crc(data))
  {
    hide FeedBits, BitsOf, Stored, Steps, Xor, Packed;
    var c, sum := FeedBits(0xFFFF_FFFF, BitsOf(data)), Stored(Crc(data));
    BitsOfConcat(data, tail);
    FeedAppend(0xFFFF_FFFF, BitsOf(data), BitsOf(tail));
    FeedStored(c, Crc(data));
    ComplementMeets(c);
    StepsOfOnes();
    if FeedBits(c, BitsOf(tail)) == FeedBits(c, BitsOf(sum)) {
      BurstFed(c, BitsOf(tail), BitsOf(sum));
      BitsDetermineData(tail, sum);
    }
    ResidueComplemented(FeedBits(0xFFFF_FFFF, BitsOf(data + tail)));
  }

  lemma BurstFed(c: bv32, xs: seq<bool>, ys: seq<bool>)
    requires |xs| == |ys| <= 32 && FeedBits(c, xs) == FeedBits(c, ys)
    ensures xs == ys
  {
    hide FeedBits;
    assert [] + xs + [] == xs && [] + ys + [] == ys;
    BurstChangesRegister(c, [], xs, ys, []);
  }

  lemma ResidueComplemented(c: bv32)
    ensures c == RESIDUE <==> Xor(c, 0xFFFF_FFFF) == 0x2144_DF1C
  {
  }

  // ----- the check value

  /** One byte of a message, with the numbers of its table lookup. */
  lemma OneByte(c: bv32, b: bv8, index: bv32, half: bv32, entry: bv32, next: bv32)
    requires LowByte(Xor(c, b as bv32)) == index && Xor(ShiftByte(c), entry) == next
    requires Steps(4, index) == half && Steps(4, half) == entry
    ensures FeedBits(c, BitsOfByte(b)) == next
  {
    hide LowByte, Xor, ShiftByte, Steps, FeedBits, BitsOfByte;
    StepsAdd(4, 4, index);
    TableStepIsEightBits(c, b);
  }

  const DIGITS: seq<bv8> := [0x31, 0x32, 0x33, 0x34, 0x35, 0x36, 0x37, 0x38, 0x39]

  lemma {:induction false} FeedData(c: bv32, data: seq<bv8>, i: nat)
    requires i < |data|
    ensures FeedBits(c, BitsOf(data[..i + 1])) == FeedBits(FeedBits(c, BitsOf(data[..i])), BitsOfByte(data[i]))
  {
    hide FeedBits, BitsOf, BitsOfByte;
    BitsOfAppend(data, i);
    FeedAppend(c, BitsOf(data[..i]), BitsOfByte(data[i]));
  }

  /** The checksum of the nine digits, and of a single zero byte. */
  lemma CheckValue()
    ensures Crc(DIGITS) == 0xCBF4_3926 && Crc([0]) == 0xD202_EF8D
  {
    NineBytes();
    SingleZero();
  }

  lemma FirstThree()
    ensures FeedBits(FeedBits(FeedBits(0xFFFFFFFF, BitsOfByte(0x31)), BitsOfByte(0x32)), BitsOfByte(0x33)) == 0x77B79C2D
  {
    hide FeedBits, BitsOfByte;
    OneByte(0xFFFFFFFF, 0x31, 0xCE, 0xA00AE274, 0x7CDCEFB7, 0x7C231048);
    OneByte(0x7C231048, 0x32, 0x7A, 0xD6D6A3EF, 0xB0D09822, 0xB0ACBB32);
    OneByte(0xB0ACBB32, 0x33, 0x1, 0x1DB71064, 0x77073096, 0x77B79C2D);
  }

  lemma NextThree()
    ensures FeedBits(FeedBits(FeedBits(0x77B79C2D, BitsOfByte(0x34)), BitsOfByte(0x35)), BitsOfByte(0x36)) == 0xF68D2C9E
  {
    hide FeedBits, BitsOfByte;
    OneByte(0x77B79C2D, 0x34, 0x19, 0xF00F9345, 0x646BA8C0, 0x641C1F5C);
    OneByte(0x641C1F5C, 0x35, 0x69, 0xF00F9342, 0x346ED9FC, 0x340AC5E3);
    OneByte(0x340AC5E3, 0x36, 0xD5, 0x6B6B51F9, 0xF6B9265B, 0xF68D2C9E);
  }

  lemma LastThree()
    ensures FeedBits(FeedBits(FeedBits(0xF68D2C9E, BitsOfByte(0x37)), BitsOfByte(0x38)), BitsOfByte(0x39)) == 0x340BC6D9
  {
    hide FeedBits, BitsOfByte;
    OneByte(0xF68D2C9E, 0x37, 0xA9, 0xF00F934E, 0xAF0A1B4C, 0xAFFC9660);
    OneByte(0xAFFC9660, 0x38, 0x58, 0xEDB88325, 0x65B0D9C6, 0x651F2550);
    OneByte(0x651F2550, 0x39, 0x69, 0xF00F9342, 0x346ED9FC, 0x340BC6D9);
  }

  lemma NineBytes()
    ensures Crc(DIGITS) == 0xCBF4_3926
  {
    hide FeedBits, BitsOf, BitsOfByte, Xor;
    NoBits();
    FeedNothing(0xFFFF_FFFF);
    assert DIGITS[..0] == [] && DIGITS[..9] == DIGITS;
    FeedData(0xFFFF_FFFF, DIGITS, 0);
    FeedData(0xFFFF_FFFF, DIGITS, 1);
    FeedData(0xFFFF_FFFF, DIGITS, 2);
    FeedData(0xFFFF_FFFF, DIGITS, 3);
    FeedData(0xFFFF_FFFF, DIGITS, 4);
    FeedData(0xFFFF_FFFF, DIGITS, 5);
    FeedData(0xFFFF_FFFF, DIGITS, 6);
    FeedData(0xFFFF_FFFF, DIGITS, 7);
    FeedData(0xFFFF_FFFF, DIGITS, 8);
    FirstThree();
    NextThree();
    LastThree();
    Complement(0x340BC6D9);
  }

  lemma Complement(c: bv32)
    ensures c == 0x340BC6D9 ==> Xor(c, 0xFFFF_FFFF) == 0xCBF4_3926
  {
  }

  lemma SingleZero()
    ensures Crc([0]) == 0xD202_EF8D
  {
    OneByte(0xFFFF_FFFF, 0, 0xFF, 0xBDBDF213, 0x2D02EF8D, 0x2DFD1072);
    hide FeedBits, BitsOf, BitsOfByte;
    NoBits();
    FeedNothing(0xFFFF_FFFF);
    assert [0 as bv8][..0] == [] && [0 as bv8][..1] == [0];
    FeedData(0xFFFF_FFFF, [0], 0);
  }
}
