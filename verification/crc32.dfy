/** memx_crc32: table construction and the table-driven loop, against bit-at-a-time reflected
    division by the CRC-32 polynomial (RFC 1952, section 8), and what the checksum detects. */
module Crc32 {

  const POLYNOMIAL: bv32 := 0xEDB8_8320

  // ----- bit at a time

  predicate Odd(c: bv32) { c & 1 == 1 }

  function Half(c: bv32): bv32 { c >> 1 }

  function Xor(a: bv32, b: bv32): bv32 { a ^ b }

  /** One step of the reflected division: shift out the low bit, and subtract the polynomial if it
      was set. */
  function BitStep(c: bv32): bv32 { if Odd(c) then Xor(Half(c), POLYNOMIAL) else Half(c) }

  function Bit(b: bool): bv32 { if b then 1 else 0 }

  function FeedBit(c: bv32, b: bool): bv32 { BitStep(Xor(c, Bit(b))) }

  /** The division register after a message, each byte fed lowest bit first. */
  function FeedBits(c: bv32, bits: seq<bool>): bv32
    decreases |bits|
  {
    if bits == [] then c else FeedBits(FeedBit(c, bits[0]), bits[1..])
  }

  function LowBits(n: nat, x: bv32): (r: seq<bool>)
    ensures |r| == n
  {
    if n == 0 then [] else [Odd(x)] + LowBits(n - 1, Half(x))
  }

  function BitsOfByte(b: bv8): (r: seq<bool>)
    ensures |r| == 8
  {
    LowBits(8, b as bv32)
  }

  function BitsOf(data: seq<bv8>): (r: seq<bool>)
    ensures |r| == 8 * |data|
  {
    if data == [] then [] else BitsOfByte(data[0]) + BitsOf(data[1..])
  }

  /** The checksum by its definition. */
  function Crc(data: seq<bv8>): bv32 { Xor(FeedBits(0xFFFF_FFFF, BitsOf(data)), 0xFFFF_FFFF) }

  // ----- exclusive or

  lemma XorCancels(a: bv32, b: bv32)
    ensures Xor(Xor(a, b), b) == a
  {
  }

  lemma XorAssociates(a: bv32, b: bv32, c: bv32)
    ensures Xor(Xor(a, b), c) == Xor(a, Xor(b, c))
  {
  }

  lemma XorCommutes(a: bv32, b: bv32)
    ensures Xor(a, b) == Xor(b, a)
  {
  }

  lemma XorZero(a: bv32)
    ensures Xor(a, 0) == a
  {
  }

  lemma HalfOfXor(a: bv32, b: bv32)
    ensures Half(Xor(a, b)) == Xor(Half(a), Half(b))
  {
  }

  lemma OddOfXor(a: bv32, b: bv32)
    ensures Odd(Xor(a, b)) == (Odd(a) != Odd(b))
  {
  }

  // ----- algebra of the step

  function Steps(n: nat, c: bv32): bv32 {
    if n == 0 then c else Steps(n - 1, BitStep(c))
  }

  /** The inverse of a step: the polynomial has its top bit set, so the top bit tells what
      happened. */
  function StepBack(c: bv32): bv32 { if TopBit(c) then DoubleOdd(Xor(c, POLYNOMIAL)) else Double(c) }

  predicate TopBit(c: bv32) { c & 0x8000_0000 != 0 }

  function Double(c: bv32): bv32 { c << 1 }

  function DoubleOdd(c: bv32): bv32 { (c << 1) | 1 }

  lemma Halves(c: bv32)
    ensures !TopBit(Half(c))
    ensures Odd(c) ==> DoubleOdd(Half(c)) == c
    ensures !Odd(c) ==> Double(Half(c)) == c
  {
  }

  lemma Doubles(c: bv32)
    ensures !Odd(Double(c)) && Odd(DoubleOdd(c))
    ensures !TopBit(c) ==> Half(Double(c)) == c && Half(DoubleOdd(c)) == c
  {
    hide *;
    LowBitOfDouble(c);
    LowBitOfDoubleOdd(c);
    if !TopBit(c) {
      HalfOfDouble(c);
      HalfOfDoubleOdd(c);
    }
  }

  lemma LowBitOfDouble(c: bv32)
    ensures !Odd(Double(c))
  {
  }

  lemma LowBitOfDoubleOdd(c: bv32)
    ensures Odd(DoubleOdd(c))
  {
  }

  lemma HalfOfDouble(c: bv32)
    requires !TopBit(c)
    ensures Half(Double(c)) == c
  {
  }

  lemma HalfOfDoubleOdd(c: bv32)
    requires !TopBit(c)
    ensures Half(DoubleOdd(c)) == c
  {
  }

  lemma PolynomialFlipsTop(c: bv32)
    ensures TopBit(Xor(c, POLYNOMIAL)) != TopBit(c)
  {
  }

  /** Each step is a bijection on the 32-bit state. */
  lemma StepIsBijection(c: bv32)
    ensures StepBack(BitStep(c)) == c
    ensures BitStep(StepBack(c)) == c
  {
    hide Odd, Half, Xor, TopBit, Double, DoubleOdd;
    Halves(c);
    Doubles(c);
    PolynomialFlipsTop(c);
    PolynomialFlipsTop(Half(c));
    Doubles(Xor(c, POLYNOMIAL));
    XorCancels(Half(c), POLYNOMIAL);
    XorCancels(c, POLYNOMIAL);
  }

  lemma {:induction false} StepsInjective(n: nat, a: bv32, b: bv32)
    requires Steps(n, a) == Steps(n, b)
    ensures a == b
  {
    hide BitStep, StepBack;
    if n > 0 {
      StepsInjective(n - 1, BitStep(a), BitStep(b));
      StepIsBijection(a);
      StepIsBijection(b);
    }
  }

  /** Feeding the same bits to different states gives different states. */
  lemma {:induction false} FeedInjective(a: bv32, b: bv32, bits: seq<bool>)
    requires FeedBits(a, bits) == FeedBits(b, bits)
    ensures a == b
    decreases |bits|
  {
    hide BitStep, StepBack, Xor, Bit;
    if bits != [] {
      FeedInjective(FeedBit(a, bits[0]), FeedBit(b, bits[0]), bits[1..]);
      StepIsBijection(Xor(a, Bit(bits[0])));
      StepIsBijection(Xor(b, Bit(bits[0])));
      XorCancels(a, Bit(bits[0]));
      XorCancels(b, Bit(bits[0]));
    }
  }

  lemma {:induction false} FeedAppend(c: bv32, xs: seq<bool>, ys: seq<bool>)
    ensures FeedBits(c, xs + ys) == FeedBits(FeedBits(c, xs), ys)
    decreases |xs|
  {
    hide FeedBit;
    if xs == [] {
      assert xs + ys == ys;
    } else {
      assert (xs + ys)[1..] == xs[1..] + ys;
      FeedAppend(FeedBit(c, xs[0]), xs[1..], ys);
    }
  }

  // ----- a block of up to 32 bits at once

  /** The number whose low bits are the given ones, the first bit lowest. */
  function Packed(bits: seq<bool>): bv32
    decreases |bits|
  {
    if bits == [] then 0 else Xor(Double(Packed(bits[1..])), Bit(bits[0]))
  }

  /** The top k bits are clear. */
  predicate Room(x: bv32, k: nat)
    decreases k
  {
    k == 0 || (!TopBit(x) && Room(Double(x), k - 1))
  }

  lemma {:induction false} RoomOfXor(a: bv32, b: bv32, k: nat)
    requires Room(a, k) && Room(b, k)
    ensures Room(Xor(a, b), k)
    decreases k
  {
    hide TopBit, Double, Xor;
    if k > 0 {
      TopOfXor(a, b);
      DoubleOfXor(a, b);
      RoomOfXor(Double(a), Double(b), k - 1);
    }
  }

  lemma TopOfXor(a: bv32, b: bv32)
    ensures !TopBit(a) && !TopBit(b) ==> !TopBit(Xor(a, b))
  {
  }

  lemma DoubleOfXor(a: bv32, b: bv32)
    ensures Double(Xor(a, b)) == Xor(Double(a), Double(b))
  {
  }

  lemma RoomOfBit(b: bool, k: nat)
    requires k <= 31
    ensures Room(Bit(b), k)
  {
    hide TopBit, Double;
    if b {
      RoomOfOne();
      RoomShrinks(1, 31, k);
    } else {
      RoomOfZero(k);
    }
  }

  lemma RoomOfOne()
    ensures Room(1, 31)
  {
    assert Room(0x40000000, 1);
    assert Room(0x20000000, 2);
    assert Room(0x10000000, 3);
    assert Room(0x8000000, 4);
    assert Room(0x4000000, 5);
    assert Room(0x2000000, 6);
    assert Room(0x1000000, 7);
    assert Room(0x800000, 8);
    assert Room(0x400000, 9);
    assert Room(0x200000, 10);
    assert Room(0x100000, 11);
    assert Room(0x80000, 12);
    assert Room(0x40000, 13);
    assert Room(0x20000, 14);
    assert Room(0x10000, 15);
    assert Room(0x8000, 16);
    assert Room(0x4000, 17);
    assert Room(0x2000, 18);
    assert Room(0x1000, 19);
    assert Room(0x800, 20);
    assert Room(0x400, 21);
    assert Room(0x200, 22);
    assert Room(0x100, 23);
    assert Room(0x80, 24);
    assert Room(0x40, 25);
    assert Room(0x20, 26);
    assert Room(0x10, 27);
    assert Room(0x8, 28);
    assert Room(0x4, 29);
    assert Room(0x2, 30);
    assert Room(0x1, 31);
  }

  lemma {:induction false} RoomOfZero(k: nat)
    ensures Room(0, k)
  {
    if k > 0 {
      RoomOfZero(k - 1);
    }
  }

  lemma {:induction false} RoomShrinks(x: bv32, k: nat, j: nat)
    requires Room(x, k) && j <= k
    ensures Room(x, j)
    decreases k
  {
    hide TopBit, Double;
    if j > 0 {
      RoomShrinks(Double(x), k - 1, j - 1);
    }
  }

  lemma {:induction false} PackedHasRoom(bits: seq<bool>)
    requires |bits| <= 32
    ensures Room(Packed(bits), 32 - |bits|)
    decreases |bits|
  {
    hide Xor, Double, TopBit, Bit;
    if bits == [] {
      RoomOfZero(32);
    } else {
      PackedHasRoom(bits[1..]);
      RoomOfBit(bits[0], 32 - |bits|);
      RoomOfXor(Double(Packed(bits[1..])), Bit(bits[0]), 32 - |bits|);
    }
  }

  /** The first bit is the lowest, and the rest sits above it. */
  lemma PackedParts(bits: seq<bool>)
    requires 1 <= |bits| <= 32
    ensures !TopBit(Packed(bits[1..]))
    ensures Odd(Packed(bits)) == bits[0] && Half(Packed(bits)) == Packed(bits[1..])
  {
    hide Xor, Double, TopBit, Bit, Odd, Half;
    var y := Packed(bits[1..]);
    PackedHasRoom(bits[1..]);
    Doubles(y);
    BitParts(bits[0]);
    OddOfXor(Double(y), Bit(bits[0]));
    HalfOfXor(Double(y), Bit(bits[0]));
    XorZero(y);
  }

  lemma BitParts(b: bool)
    ensures Odd(Bit(b)) == b && Half(Bit(b)) == 0
  {
  }

  lemma {:induction false} PackedInjective(xs: seq<bool>, ys: seq<bool>)
    requires |xs| == |ys| <= 32 && Packed(xs) == Packed(ys)
    ensures xs == ys
    decreases |xs|
  {
    hide Packed, Odd, Half;
    if xs != [] {
      PackedParts(xs);
      PackedParts(ys);
      PackedInjective(xs[1..], ys[1..]);
      assert xs == [xs[0]] + xs[1..] && ys == [ys[0]] + ys[1..];
    }
  }

  lemma XorExchange(a: bv32, p: bv32, b: bv32)
    ensures Xor(Xor(a, p), b) == Xor(Xor(a, b), p)
  {
    hide Xor;
    XorAssociates(a, p, b);
    XorAssociates(a, b, p);
    XorCommutes(b, p);
  }

  lemma XorBoth(a: bv32, b: bv32, p: bv32)
    ensures Xor(Xor(a, p), Xor(b, p)) == Xor(a, b)
  {
    hide Xor;
    XorAssociates(Xor(a, p), b, p);
    XorExchange(a, p, b);
    XorCancels(Xor(a, b), p);
  }

  lemma StepIsLinear(a: bv32, b: bv32)
    ensures BitStep(Xor(a, b)) == Xor(BitStep(a), BitStep(b))
  {
    hide Odd, Half, Xor;
    OddOfXor(a, b);
    HalfOfXor(a, b);
    XorBoth(Half(a), Half(b), POLYNOMIAL);
    XorExchange(Half(a), POLYNOMIAL, Half(b));
    XorAssociates(Half(a), Half(b), POLYNOMIAL);
  }

  lemma {:induction false} StepsAreLinear(n: nat, a: bv32, b: bv32)
    ensures Steps(n, Xor(a, b)) == Xor(Steps(n, a), Steps(n, b))
  {
    hide BitStep, Xor;
    if n > 0 {
      StepIsLinear(a, b);
      StepsAreLinear(n - 1, BitStep(a), BitStep(b));
    }
  }

  /** Bits above the lowest only move down in a step. */
  lemma StepShiftsIn(x: bv32, y: bv32)
    requires !TopBit(y)
    ensures BitStep(Xor(x, Double(y))) == Xor(BitStep(x), y)
  {
    hide Odd, Half, Xor, Double, TopBit;
    Doubles(y);
    OddOfXor(x, Double(y));
    HalfOfXor(x, Double(y));
    XorExchange(Half(x), POLYNOMIAL, y);
  }

  /** Feeding up to 32 bits is adding them to the register and then stepping once for each. */
  lemma {:induction false} FeedIsSteps(c: bv32, bits: seq<bool>)
    requires |bits| <= 32
    ensures FeedBits(c, bits) == Steps(|bits|, Xor(c, Packed(bits)))
    decreases |bits|
  {
    hide Odd, Half, Xor, Double, TopBit, Bit, BitStep;
    if bits == [] {
      XorZero(c);
    } else {
      var y := Packed(bits[1..]);
      PackedParts(bits);
      FeedIsSteps(FeedBit(c, bits[0]), bits[1..]);
      StepShiftsIn(Xor(c, Bit(bits[0])), y);
      XorAssociates(c, Double(y), Bit(bits[0]));
      XorExchange(c, Bit(bits[0]), Double(y));
    }
  }

  // ----- one byte at a time

  predicate Vanishes(n: nat, x: bv32) { if n == 0 then x == 0 else Vanishes(n - 1, Half(x)) }

  lemma {:induction false} PackedLowBits(n: nat, x: bv32)
    requires Vanishes(n, x)
    ensures Packed(LowBits(n, x)) == x
  {
    hide Odd, Half, Xor, Double, Bit;
    if n > 0 {
      PackedLowBits(n - 1, Half(x));
      assert LowBits(n, x)[1..] == LowBits(n - 1, Half(x));
      Reassemble(x);
    }
  }

  lemma Reassemble(x: bv32)
    ensures Xor(Double(Half(x)), Bit(Odd(x))) == x
  {
  }

  /** Eight halvings. */
  function ShiftByte(x: bv32): bv32 { x >> 8 }

  lemma EightHalves(x: bv32)
    ensures Half(Half(Half(Half(Half(Half(Half(Half(x)))))))) == ShiftByte(x)
  {
  }

  lemma VanishesEightLater(n: nat, x: bv32)
    requires Vanishes(n, ShiftByte(x))
    ensures Vanishes(n + 8, x)
  {
    hide Half, ShiftByte;
    EightHalves(x);
    var x2 := Half(Half(x));
    var x4 := Half(Half(x2));
    var x6 := Half(Half(x4));
    assert Vanishes(n + 1, Half(x6));
    assert Vanishes(n + 2, x6);
    assert Vanishes(n + 4, x4);
    assert Vanishes(n + 6, x2);
  }

  lemma ByteVanishes(x: bv32)
    requires ShiftByte(x) == 0
    ensures Vanishes(8, x)
  {
    VanishesEightLater(0, x);
  }

  function LowByte(x: bv32): bv32 { x & 0xFF }

  function HighPart(x: bv32): bv32 { x & 0xFFFF_FF00 }

  lemma SplitByte(x: bv32)
    ensures Xor(HighPart(x), LowByte(x)) == x
    ensures ShiftByte(HighPart(x)) == ShiftByte(x)
  {
  }

  predicate Clear(x: bv32, mask: bv32) { x & mask == 0 }

  lemma EvenStep(x: bv32, mask: bv32)
    requires Clear(x, (mask << 1) | 1)
    ensures BitStep(x) == Half(x) && Clear(Half(x), mask)
  {
  }

  /** With the low byte clear, eight steps are a plain shift. */
  lemma EightEvenSteps(x: bv32)
    requires Clear(x, 0xFF)
    ensures Steps(8, x) == ShiftByte(x)
  {
    hide BitStep, Half, Clear, ShiftByte;
    var x1 := Half(x);
    var x2 := Half(x1);
    var x3 := Half(x2);
    var x4 := Half(x3);
    var x5 := Half(x4);
    var x6 := Half(x5);
    var x7 := Half(x6);
    EvenStep(x, 0x7F);
    EvenStep(x1, 0x3F);
    EvenStep(x2, 0x1F);
    EvenStep(x3, 0xF);
    EvenStep(x4, 7);
    EvenStep(x5, 3);
    EvenStep(x6, 1);
    EvenStep(x7, 0);
    EightHalves(x);
    assert Steps(1, x7) == Half(x7);
    assert Steps(2, x6) == Half(x7);
    assert Steps(4, x4) == Half(x7);
    assert Steps(6, x2) == Half(x7);
  }

  /** The loop body of the table-driven form. */
  function TableStep(c: bv32, b: bv8): bv32 { Xor(ShiftByte(c), Steps(8, LowByte(Xor(c, b as bv32)))) }

  lemma HighPartIsClear(x: bv32)
    ensures Clear(HighPart(x), 0xFF)
  {
  }

  lemma ByteHasNoHighPart(b: bv8)
    ensures ShiftByte(b as bv32) == 0
  {
  }

  lemma ShiftIgnoresByte(c: bv32, x: bv32)
    requires ShiftByte(x) == 0
    ensures ShiftByte(Xor(c, x)) == ShiftByte(c)
  {
  }

  /** One table lookup does the work of eight single-bit steps. */
  lemma TableStepIsEightBits(c: bv32, b: bv8)
    ensures TableStep(c, b) == FeedBits(c, BitsOfByte(b))
  {
    hide Xor, ShiftByte, LowByte, HighPart, Steps, FeedBits, LowBits, Vanishes, Packed, Clear;
    var x := Xor(c, b as bv32);
    ByteHasNoHighPart(b);
    ByteVanishes(b as bv32);
    PackedLowBits(8, b as bv32);
    FeedIsSteps(c, BitsOfByte(b));
    SplitByte(x);
    StepsAreLinear(8, HighPart(x), LowByte(x));
    HighPartIsClear(x);
    EightEvenSteps(HighPart(x));
    ShiftIgnoresByte(c, b as bv32);
  }

  lemma {:induction false} BitsOfAppend(data: seq<bv8>, i: nat)
    requires i < |data|
    ensures BitsOf(data[..i + 1]) == BitsOf(data[..i]) + BitsOfByte(data[i])
  {
    hide BitsOfByte;
    if i == 0 {
      assert data[..1] == [data[0]];
      assert BitsOf([data[0]]) == BitsOfByte(data[0]) + BitsOf([]);
    } else {
      BitsOfAppend(data[1..], i - 1);
      assert data[..i + 1][1..] == data[1..][..i] && data[..i][1..] == data[1..][..i - 1];
    }
  }

  // ----- the method

  /** The inner loop: one table entry. */
  method TableEntry(index: bv32) returns (crc: bv32)
    ensures crc == Steps(8, index)
  {
    hide Xor, Odd, Half;
    crc := index;
    var j := 8;
    while j > 0
      invariant 0 <= j
      invariant Steps(j, crc) == Steps(8, index)
    {
      crc := BitStep(crc);
      j := j - 1;
    }
  }

  predicate Entry(k: nat, word: bv32)
    requires k < 256
  {
    word == Steps(8, k as bv32)
  }

  predicate IsTable(table: array<bv32>)
    reads table
  {
    table.Length == 256 && forall k :: 0 <= k < 256 ==> Entry(k, table[k])
  }

  method FillTable(table: array<bv32>)
    requires table.Length == 256
    modifies table
    ensures IsTable(table)
  {
    hide Steps;
    for i := 0 to 256
      invariant forall k :: 0 <= k < i ==> Entry(k, table[k])
    {
      table[i] := TableEntry(i as bv32);
    }
  }

  method LookUp(table: array<bv32>, x: bv32) returns (word: bv32)
    requires IsTable(table)
    ensures word == Steps(8, LowByte(x))
  {
    hide Steps, LowByte;
    var index := LowByte(x);
    ByteIndex(index, x);
    word := table[index as int];
    assert Entry(index as int, table[index as int]);
  }

  /** memx_crc32; without memory for the table the result is 0. */
  method MemxCrc32(data: seq<bv8>, granted: bool) returns (r: bv32)
    ensures r == if granted then Crc(data) else 0
  {
    if !granted {
      return 0;
    }
    hide Xor, ShiftByte, Steps, FeedBits, BitsOfByte, LowByte;
    var crcTable := new bv32[256];
    FillTable(crcTable);
    var crc32 := 0xFFFF_FFFF;
    assert FeedBits(crc32, []) == crc32 by { FeedNothing(crc32); }
    for i := 0 to |data|
      invariant crc32 == FeedBits(0xFFFF_FFFF, BitsOf(data[..i]))
      invariant IsTable(crcTable)
    {
      ghost var before := crc32;
      var entry := LookUp(crcTable, Xor(crc32, data[i] as bv32));
      crc32 := Xor(ShiftByte(crc32), entry);
      TableStepIsEightBits(before, data[i]);
      BitsOfAppend(data, i);
      FeedAppend(0xFFFF_FFFF, BitsOf(data[..i]), BitsOfByte(data[i]));
    }
    assert data[..|data|] == data;
    r := Xor(crc32, 0xFFFF_FFFF);
  }

  lemma FeedNothing(c: bv32)
    ensures FeedBits(c, []) == c
  {
  }

  lemma ByteIndex(index: bv32, x: bv32)
    requires index == LowByte(x)
    ensures index as int < 256 && (index as int) as bv32 == index
  {
  }
}
