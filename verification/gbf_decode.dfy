/** gbf_decode in its three forms. Each form unpacks a ten-byte packet in its own way; all of
    them are shown to produce the words of DecodeGroup. */
module GbfDecoder {
  import opened Float32
  import opened GbfLane
  import opened GbfPacket
  import opened GbfCodec
  import opened Slices

  datatype Form = Portable | Neon | Avx2

  // ----- the two little-endian loads every form starts with

  function Low64(b: seq<bv8>): bv64
    requires |b| == 10
  {
    (b[0] as bv64) | (b[1] as bv64 << 8) | (b[2] as bv64 << 16) | (b[3] as bv64 << 24)
    | (b[4] as bv64 << 32) | (b[5] as bv64 << 40) | (b[6] as bv64 << 48) | (b[7] as bv64 << 56)
  }

  function High16(b: seq<bv8>): bv16
    requires |b| == 10
  {
    (b[8] as bv16) | (b[9] as bv16 << 8)
  }

  function SharedExponent(hi: bv16): bv8 { (hi >> 8) as bv8 }

  // ----- scalar extraction (portable and NEON)

  function ScalarMantissas(lo: bv64, hi: bv16): (t: seq<bv8>)
    ensures |t| == 8
  {
    [(lo & 0xFF) as bv8, ((lo >> 9) & 0xFF) as bv8, ((lo >> 18) & 0xFF) as bv8, ((lo >> 27) & 0xFF) as bv8,
     ((lo >> 36) & 0xFF) as bv8, ((lo >> 45) & 0xFF) as bv8, ((lo >> 54) & 0xFF) as bv8, LastMantissa(lo, hi)]
  }

  function LastMantissa(lo: bv64, hi: bv16): bv8 {
    ((((hi & 0x7F) << 1) | ((lo >> 63) & 1) as bv16) & 0xFF) as bv8
  }

  function ScalarSigns(lo: bv64, hi: bv16): (s: seq<bv1>)
    ensures |s| == 8
  {
    [((lo >> 8) & 1) as bv1, ((lo >> 17) & 1) as bv1, ((lo >> 26) & 1) as bv1, ((lo >> 35) & 1) as bv1,
     ((lo >> 44) & 1) as bv1, ((lo >> 53) & 1) as bv1, ((lo >> 62) & 1) as bv1, ((hi >> 7) & 1) as bv1]
  }

  /** The portable lane: table lookup, saturating subtraction, shift and mask. */
  function PortableWord(sign: bv1, exp: bv8, t: bv8): bv32 {
    var e := DecodedExponent(exp, t);
    var m := DecodedMantissa(t);
    (sign as bv32 << 31) | (e as bv32 << 23) | (m as bv32 << 16)
  }

  // ----- NEON lane operations

  /** vclz_u8, by the position of the first set bit. */
  function VectorClz(t: bv8): (d: bv8)
    ensures d <= 8
  {
    if t & 0x80 != 0 then 0 else if t & 0x40 != 0 then 1 else if t & 0x20 != 0 then 2 else if t & 0x10 != 0 then 3
    else if t & 8 != 0 then 4 else if t & 4 != 0 then 5 else if t & 2 != 0 then 6 else if t & 1 != 0 then 7 else 8
  }

  /** vqsub_u8, and _mm_subs_epu8: unsigned saturating subtraction. */
  function VectorSubtract(a: bv8, b: bv8): bv8 { if a >= b then a - b else 0 }

  function NeonExponent(exp: bv8, d: bv8): bv8 {
    var mask := if d == 8 then 0xFF else 0;
    VectorSubtract(exp, d) & !mask
  }

  function NeonMantissa(t: bv8, d: bv8): bv8
    requires d <= 8
  {
    (t << d) & 0x7F
  }

  /** The two words stored, then the sign or-ed in. */
  function NeonMerge(e: bv8, m: bv8, sign: bv1): bv32 {
    ((e as bv32 << 23) | (m as bv32 << 16)) | (sign as bv32 << 31)
  }

  function NeonWord(sign: bv1, exp: bv8, t: bv8): bv32 {
    var d := VectorClz(t);
    NeonMerge(NeonExponent(exp, d), NeonMantissa(t, d), sign)
  }

  // ----- AVX2: PEXT extraction

  function BitOf(x: bv64, i: nat): bv64
    requires i < 64
  {
    (x >> i) & 1
  }

  /** _pext_u64 from bit i on: the bits of x selected by the mask, gathered at the low end. */
  function Pext(x: bv64, mask: bv64, i: nat): bv64
    requires i <= 64
    decreases 64 - i
  {
    if i == 64 then 0
    else
      var rest := Pext(x, mask, i + 1);
      if BitOf(mask, i) == 1 then BitOf(x, i) | (rest << 1) else rest
  }

  /** 0xFF at bits 0, 9, 18, 27, 36, 45 and 54. */
  const MANTISSA_MASK: bv64 := 0x3FDF_EFF7_FBFD_FEFF

  /** Bits 8, 17, 26, 35, 44, 53 and 62. */
  const SIGN_MASK: bv64 := 0x4020_1008_0402_0100

  function Avx2Mantissas(lo: bv64, hi: bv16): (t: seq<bv8>)
    ensures |t| == 8
  {
    var x := Pext(lo, MANTISSA_MASK, 0);
    [(x & 0xFF) as bv8, ((x >> 8) & 0xFF) as bv8, ((x >> 16) & 0xFF) as bv8, ((x >> 24) & 0xFF) as bv8,
     ((x >> 32) & 0xFF) as bv8, ((x >> 40) & 0xFF) as bv8, ((x >> 48) & 0xFF) as bv8, LastMantissa(lo, hi)]
  }

  function Avx2Signs(lo: bv64, hi: bv16): (s: seq<bv1>)
    ensures |s| == 8
  {
    var x := Pext(lo, SIGN_MASK, 0);
    [(x & 1) as bv1, ((x >> 1) & 1) as bv1, ((x >> 2) & 1) as bv1, ((x >> 3) & 1) as bv1,
     ((x >> 4) & 1) as bv1, ((x >> 5) & 1) as bv1, ((x >> 6) & 1) as bv1, ((hi >> 7) & 1) as bv1]
  }

  // ----- AVX2 lane operations

  /** PSHUFB on the table LZ4, for an index below 16. */
  function NibbleZeros(n: bv8): bv8 {
    if n == 0 then 4 else if n == 1 then 3 else if n < 4 then 2 else if n < 8 then 1 else 0
  }

  /** PSHUFB on POW2_LO and POW2_HI: the two bytes of the factor. For d = 7 they are 128 and 1. */
  function FactorLow(d: bv8): bv8 {
    if d == 0 then 1 else if d == 1 then 2 else if d == 2 then 4 else if d == 3 then 8 else if d == 4 then 16
    else if d == 5 then 32 else if d == 6 then 64 else if d == 7 then 128 else 0
  }

  function FactorHigh(d: bv8): bv8 { if d == 7 then 1 else 0 }

  /** A 16-bit shift right by 4 of the pair of bytes a lane sits in, cut back to its nibble. */
  function HighNibble(t: seq<bv8>, k: nat): bv8
    requires k < |t| == 8
  {
    var pair := (t[k / 2 * 2] as bv16) | (t[k / 2 * 2 + 1] as bv16 << 8);
    var shifted := pair >> 4;
    (if k % 2 == 0 then (shifted & 0xFF) as bv8 else (shifted >> 8) as bv8) & 0x0F
  }

  function Avx2Zeros(t: bv8, high: bv8): bv8 {
    var low := t & 0x0F;
    var d := if high > 0 then NibbleZeros(high) else 4 + NibbleZeros(low);
    if t == 0 then 8 else d
  }

  function Avx2Exponent(exp: bv8, d: bv8): bv8 {
    var mask := if d == 8 then 0xFF else 0;
    !mask & VectorSubtract(exp, d)
  }

  function Factor(d: bv8): bv16 { (FactorLow(d) as bv16) | (FactorHigh(d) as bv16 << 8) }

  function Avx2Mantissa(t: bv8, d: bv8): bv16 { (t as bv16 * Factor(d)) & 0x7F }

  /** The widened fields of one 32-bit lane. */
  function Avx2Merge(sign: bv1, e: bv8, m: bv16): bv32 {
    (sign as bv32 << 31) | ((e as bv32 << 23) | (m as bv32 << 16))
  }

  function Avx2Word(sign: bv1, exp: bv8, t: bv8, high: bv8): bv32 {
    var d := Avx2Zeros(t, high);
    Avx2Merge(sign, Avx2Exponent(exp, d), Avx2Mantissa(t, d))
  }

  /** The eight words each form stores for a packet. */
  function GroupWords(form: Form, b: seq<bv8>): (ws: seq<bv32>)
    requires |b| == 10
    ensures |ws| == 8
  {
    var lo, hi := Low64(b), High16(b);
    var exp := SharedExponent(hi);
    match form
    case Portable =>
      var t, s := ScalarMantissas(lo, hi), ScalarSigns(lo, hi);
      seq(8, k requires 0 <= k < 8 => PortableWord(s[k], exp, t[k]))
    case Neon =>
      var t, s := ScalarMantissas(lo, hi), ScalarSigns(lo, hi);
      seq(8, k requires 0 <= k < 8 => NeonWord(s[k], exp, t[k]))
    case Avx2 =>
      var t, s := Avx2Mantissas(lo, hi), Avx2Signs(lo, hi);
      seq(8, k requires 0 <= k < 8 => Avx2Word(s[k], exp, t[k], HighNibble(t, k)))
  }

  // ----- extraction yields the lanes of the packet

  lemma ScalarLanes0(b: seq<bv8>)
    requires |b| == 10
    ensures var t, s := ScalarMantissas(Low64(b), High16(b)), ScalarSigns(Low64(b), High16(b));
            var p := FromBytes(b);
            && LaneOf(p, 0) == Lane(t[0], s[0]) && LaneOf(p, 1) == Lane(t[1], s[1])
            && LaneOf(p, 2) == Lane(t[2], s[2]) && LaneOf(p, 3) == Lane(t[3], s[3])
  {
  }

  lemma ScalarLanes4(b: seq<bv8>)
    requires |b| == 10
    ensures var t, s := ScalarMantissas(Low64(b), High16(b)), ScalarSigns(Low64(b), High16(b));
            LaneOf(FromBytes(b), 4) == Lane(t[4], s[4]) && LaneOf(FromBytes(b), 5) == Lane(t[5], s[5])
  {
  }

  lemma ScalarLanes6(b: seq<bv8>)
    requires |b| == 10
    ensures var t, s := ScalarMantissas(Low64(b), High16(b)), ScalarSigns(Low64(b), High16(b));
            LaneOf(FromBytes(b), 6) == Lane(t[6], s[6]) && LaneOf(FromBytes(b), 7) == Lane(t[7], s[7])
  {
  }

  lemma ScalarExponent(b: seq<bv8>)
    requires |b| == 10
    ensures SharedExponent(High16(b)) == ExponentOf(FromBytes(b))
  {
  }

  lemma ScalarLanes(b: seq<bv8>, k: nat)
    requires |b| == 10 && k < 8
    ensures LaneOf(FromBytes(b), k)
            == Lane(ScalarMantissas(Low64(b), High16(b))[k], ScalarSigns(Low64(b), High16(b))[k])
  {
    hide *;
    ScalarLanes0(b);
    ScalarLanes4(b);
    ScalarLanes6(b);
    if k == 0 {} else if k == 1 {} else if k == 2 {} else if k == 3 {} else if k == 4 {}
    else if k == 5 {} else if k == 6 {} else {}
  }

  lemma PextStep(x: bv64, mask: bv64, i: nat)
    requires i < 64
    ensures Pext(x, mask, i)
            == if BitOf(mask, i) == 1 then BitOf(x, i) | (Pext(x, mask, i + 1) << 1) else Pext(x, mask, i + 1)
  {
    hide BitOf;
  }

  function EightBits(x: bv64, i: nat): bv64
    requires i <= 55
  {
    (BitOf(x, i + 0) << 0) | (BitOf(x, i + 1) << 1) | (BitOf(x, i + 2) << 2) | (BitOf(x, i + 3) << 3)
    | (BitOf(x, i + 4) << 4) | (BitOf(x, i + 5) << 5) | (BitOf(x, i + 6) << 6) | (BitOf(x, i + 7) << 7)
  }

  /** Eight selected bits and a gap: a mantissa's part of MANTISSA_MASK. */
  predicate SelectsEight(mask: bv64, i: nat)
    requires i <= 55
  {
    && BitOf(mask, i) == 1 && BitOf(mask, i + 1) == 1 && BitOf(mask, i + 2) == 1 && BitOf(mask, i + 3) == 1
    && BitOf(mask, i + 4) == 1 && BitOf(mask, i + 5) == 1 && BitOf(mask, i + 6) == 1 && BitOf(mask, i + 7) == 1
    && BitOf(mask, i + 8) == 0
  }

  /** Eight skipped bits and a selected one: a sign's part of SIGN_MASK. */
  predicate SelectsNinth(mask: bv64, i: nat)
    requires i <= 55
  {
    && BitOf(mask, i) == 0 && BitOf(mask, i + 1) == 0 && BitOf(mask, i + 2) == 0 && BitOf(mask, i + 3) == 0
    && BitOf(mask, i + 4) == 0 && BitOf(mask, i + 5) == 0 && BitOf(mask, i + 6) == 0 && BitOf(mask, i + 7) == 0
    && BitOf(mask, i + 8) == 1
  }

  lemma PextEight(x: bv64, mask: bv64, i: nat)
    requires i <= 55 && SelectsEight(mask, i)
    ensures Pext(x, mask, i) == EightBits(x, i) | (Pext(x, mask, i + 9) << 8)
  {
    hide Pext, BitOf;
    PextStep(x, mask, i);
    PextStep(x, mask, i + 1);
    PextStep(x, mask, i + 2);
    PextStep(x, mask, i + 3);
    PextStep(x, mask, i + 4);
    PextStep(x, mask, i + 5);
    PextStep(x, mask, i + 6);
    PextStep(x, mask, i + 7);
    PextStep(x, mask, i + 8);
  }

  lemma PextNinth(x: bv64, mask: bv64, i: nat)
    requires i <= 55 && SelectsNinth(mask, i)
    ensures Pext(x, mask, i) == BitOf(x, i + 8) | (Pext(x, mask, i + 9) << 1)
  {
    hide Pext, BitOf;
    PextStep(x, mask, i);
    PextStep(x, mask, i + 1);
    PextStep(x, mask, i + 2);
    PextStep(x, mask, i + 3);
    PextStep(x, mask, i + 4);
    PextStep(x, mask, i + 5);
    PextStep(x, mask, i + 6);
    PextStep(x, mask, i + 7);
    PextStep(x, mask, i + 8);
  }

  lemma LowMaskPattern()
    ensures SelectsEight(MANTISSA_MASK, 0) && SelectsEight(MANTISSA_MASK, 9)
    ensures SelectsEight(MANTISSA_MASK, 18) && SelectsEight(MANTISSA_MASK, 27)
  {
  }

  lemma HighMaskPattern()
    ensures SelectsEight(MANTISSA_MASK, 36) && SelectsEight(MANTISSA_MASK, 45)
    ensures SelectsEight(MANTISSA_MASK, 54) && BitOf(MANTISSA_MASK, 63) == 0
  {
  }

  lemma LowSignPattern()
    ensures SelectsNinth(SIGN_MASK, 0) && SelectsNinth(SIGN_MASK, 9)
    ensures SelectsNinth(SIGN_MASK, 18) && SelectsNinth(SIGN_MASK, 27)
  {
  }

  lemma HighSignPattern()
    ensures SelectsNinth(SIGN_MASK, 36) && SelectsNinth(SIGN_MASK, 45)
    ensures SelectsNinth(SIGN_MASK, 54) && BitOf(SIGN_MASK, 63) == 0
  {
  }

  lemma PextEnd(x: bv64, mask: bv64)
    requires BitOf(mask, 63) == 0
    ensures Pext(x, mask, 63) == 0
  {
    hide BitOf;
  }

  lemma PextLowMantissas(lo: bv64)
    ensures Pext(lo, MANTISSA_MASK, 0)
            == EightBits(lo, 0) | ((EightBits(lo, 9) | ((EightBits(lo, 18) | ((EightBits(lo, 27)
               | (Pext(lo, MANTISSA_MASK, 36) << 8)) << 8)) << 8)) << 8)
  {
    hide *;
    LowMaskPattern();
    PextEight(lo, MANTISSA_MASK, 0);
    PextEight(lo, MANTISSA_MASK, 9);
    PextEight(lo, MANTISSA_MASK, 18);
    PextEight(lo, MANTISSA_MASK, 27);
  }

  lemma PextHighMantissas(lo: bv64)
    ensures Pext(lo, MANTISSA_MASK, 36)
            == EightBits(lo, 36) | ((EightBits(lo, 45) | ((EightBits(lo, 54) | (0 << 8)) << 8)) << 8)
  {
    hide *;
    HighMaskPattern();
    PextEight(lo, MANTISSA_MASK, 36);
    PextEight(lo, MANTISSA_MASK, 45);
    PextEight(lo, MANTISSA_MASK, 54);
    PextEnd(lo, MANTISSA_MASK);
  }

  lemma PextLowSigns(lo: bv64)
    ensures Pext(lo, SIGN_MASK, 0)
            == BitOf(lo, 8) | ((BitOf(lo, 17) | ((BitOf(lo, 26) | ((BitOf(lo, 35)
               | (Pext(lo, SIGN_MASK, 36) << 1)) << 1)) << 1)) << 1)
  {
    hide *;
    LowSignPattern();
    PextNinth(lo, SIGN_MASK, 0);
    PextNinth(lo, SIGN_MASK, 9);
    PextNinth(lo, SIGN_MASK, 18);
    PextNinth(lo, SIGN_MASK, 27);
  }

  lemma PextHighSigns(lo: bv64)
    ensures Pext(lo, SIGN_MASK, 36)
            == BitOf(lo, 44) | ((BitOf(lo, 53) | ((BitOf(lo, 62) | (0 << 1)) << 1)) << 1)
  {
    hide *;
    HighSignPattern();
    PextNinth(lo, SIGN_MASK, 36);
    PextNinth(lo, SIGN_MASK, 45);
    PextNinth(lo, SIGN_MASK, 54);
    PextEnd(lo, SIGN_MASK);
  }

  lemma EightBitsAre(lo: bv64)
    ensures EightBits(lo, 0) == lo & 0xFF && EightBits(lo, 9) == (lo >> 9) & 0xFF
    ensures EightBits(lo, 18) == (lo >> 18) & 0xFF && EightBits(lo, 27) == (lo >> 27) & 0xFF
    ensures EightBits(lo, 36) == (lo >> 36) & 0xFF && EightBits(lo, 45) == (lo >> 45) & 0xFF
    ensures EightBits(lo, 54) == (lo >> 54) & 0xFF
  {
  }

  lemma PextMantissas(lo: bv64, hi: bv16)
    ensures Avx2Mantissas(lo, hi) == ScalarMantissas(lo, hi)
  {
    hide Pext, EightBits, LastMantissa, BitOf;
    PextLowMantissas(lo);
    PextHighMantissas(lo);
    EightBitsAre(lo);
  }

  lemma PextSigns(lo: bv64, hi: bv16)
    ensures Avx2Signs(lo, hi) == ScalarSigns(lo, hi)
  {
    hide Pext, BitOf;
    PextLowSigns(lo);
    PextHighSigns(lo);
    var low, rest := Pext(lo, SIGN_MASK, 0), Pext(lo, SIGN_MASK, 36);
    SignBitsAre(lo);
    SignBitsApart(BitOf(lo, 8), BitOf(lo, 17), BitOf(lo, 26), BitOf(lo, 35), rest, low);
    SignBitsApart(BitOf(lo, 44), BitOf(lo, 53), BitOf(lo, 62), 0, 0, rest);
    HighSignBits(low, rest);
  }

  /** Single bits packed one above the other come apart again. */
  lemma SignBitsApart(a: bv64, b: bv64, c: bv64, d: bv64, rest: bv64, x: bv64)
    requires a <= 1 && b <= 1 && c <= 1 && d <= 1
    requires x == a | ((b | ((c | ((d | (rest << 1)) << 1)) << 1)) << 1)
    ensures x & 1 == a && (x >> 1) & 1 == b && (x >> 2) & 1 == c && (x >> 3) & 1 == d && x >> 4 == rest & 0x0FFF_FFFF_FFFF_FFFF
  {
  }

  lemma SignBitsAre(lo: bv64)
    ensures BitOf(lo, 8) == (lo >> 8) & 1 && BitOf(lo, 17) == (lo >> 17) & 1 && BitOf(lo, 26) == (lo >> 26) & 1
    ensures BitOf(lo, 35) == (lo >> 35) & 1 && BitOf(lo, 44) == (lo >> 44) & 1 && BitOf(lo, 53) == (lo >> 53) & 1
    ensures BitOf(lo, 62) == (lo >> 62) & 1
    ensures BitOf(lo, 8) <= 1 && BitOf(lo, 17) <= 1 && BitOf(lo, 26) <= 1 && BitOf(lo, 35) <= 1
    ensures BitOf(lo, 44) <= 1 && BitOf(lo, 53) <= 1 && BitOf(lo, 62) <= 1
  {
  }

  lemma HighSignBits(low: bv64, rest: bv64)
    requires low >> 4 == rest & 0x0FFF_FFFF_FFFF_FFFF
    ensures (low >> 4) & 1 == rest & 1 && (low >> 5) & 1 == (rest >> 1) & 1 && (low >> 6) & 1 == (rest >> 2) & 1
  {
  }

  /** The two PEXT extractions give the same mantissas and signs as the scalar shifts. */
  lemma PextIsScalar(lo: bv64, hi: bv16)
    ensures Avx2Mantissas(lo, hi) == ScalarMantissas(lo, hi)
    ensures Avx2Signs(lo, hi) == ScalarSigns(lo, hi)
  {
    hide *;
    PextMantissas(lo, hi);
    PextSigns(lo, hi);
  }

  // ----- lane arithmetic

  lemma ClzIsTable(t: bv8)
    ensures VectorClz(t) == LeadingZeros(t)
  {
  }

  lemma NibblesAreTable(t: bv8)
    ensures Avx2Zeros(t, t >> 4) == LeadingZeros(t)
  {
  }

  lemma SubtractIsTable(exp: bv8, d: bv8)
    requires d <= 8
    ensures NeonExponent(exp, d) == Avx2Exponent(exp, d) == SaturatedSubtract(exp, d) & (if d < 8 then 0xFF else 0)
  {
    hide SaturatedSubtract;
  }

  /** The mantissa as C shifts it. */
  function Shifted(t: bv8, d: bv8): bv8
    requires d <= 8
  {
    (((t as bv32) << d) & 0x7F) as bv8
  }

  lemma ShiftsAgree(t: bv8, d: bv8)
    requires d <= 8
    ensures NeonMantissa(t, d) == Shifted(t, d)
  {
    if d == 0 { } else if d == 1 { } else if d == 2 { } else if d == 3 { } else if d == 4 { }
    else if d == 5 { } else if d == 6 { } else if d == 7 { } else { }
  }

  /** The factors 2^d, except 384 for d = 7 and 0 for d = 8. */
  lemma Factors()
    ensures Factor(0) == 1 && Factor(1) == 2 && Factor(2) == 4 && Factor(3) == 8 && Factor(4) == 16
    ensures Factor(5) == 32 && Factor(6) == 64 && Factor(7) == 384 && Factor(8) == 0
  {
  }

  lemma ProductIsShift(t: bv8, d: bv8)
    requires d <= 8 && (d == 8 ==> t == 0)
    ensures Avx2Mantissa(t, d) == Shifted(t, d) as bv16
  {
    hide Factor;
    Factors();
    if d == 0 { } else if d == 1 { } else if d == 2 { } else if d == 3 { } else if d == 4 { }
    else if d == 5 { } else if d == 6 { } else if d == 7 { } else { }
  }

  lemma DecodedParts(exp: bv8, t: bv8)
    ensures var d := LeadingZeros(t);
      && DecodedExponent(exp, t) == SaturatedSubtract(exp, d) & (if d < 8 then 0xFF else 0)
      && DecodedMantissa(t) == Shifted(t, d)
  {
    hide LeadingZeros, SaturatedSubtract;
  }

  lemma MergesCompose(sign: bv1, e: bv8, m: bv8)
    ensures NeonMerge(e, m, sign) == Compose(sign, e, m)
    ensures Avx2Merge(sign, e, m as bv16) == Compose(sign, e, m)
  {
  }

  lemma NeonIsPortable(sign: bv1, exp: bv8, t: bv8)
    ensures NeonWord(sign, exp, t) == DecodeLane(exp, Lane(t, sign))
  {
    hide VectorClz, LeadingZeros, NeonMerge, Avx2Merge, NeonExponent, Avx2Exponent, NeonMantissa, Shifted, SaturatedSubtract, DecodedExponent, DecodedMantissa, Compose;
    var d := LeadingZeros(t);
    ClzIsTable(t);
    SubtractIsTable(exp, d);
    ShiftsAgree(t, d);
    DecodedParts(exp, t);
    MergesCompose(sign, NeonExponent(exp, d), NeonMantissa(t, d));
  }

  lemma Avx2IsPortable(sign: bv1, exp: bv8, t: bv8)
    ensures Avx2Word(sign, exp, t, t >> 4) == DecodeLane(exp, Lane(t, sign))
  {
    hide Avx2Zeros, LeadingZeros, NeonMerge, Avx2Merge, NeonExponent, Avx2Exponent, Avx2Mantissa, Shifted, SaturatedSubtract, DecodedExponent, DecodedMantissa, Compose;
    var d := LeadingZeros(t);
    NibblesAreTable(t);
    SubtractIsTable(exp, d);
    ProductIsShift(t, d);
    DecodedParts(exp, t);
    MergesCompose(sign, Avx2Exponent(exp, d), Shifted(t, d));
  }

  lemma HighNibbleIs(t: seq<bv8>, k: nat)
    requires k < |t| == 8
    ensures HighNibble(t, k) == t[k] >> 4
  {
  }

  /** Every form stores exactly the words of DecodeGroup, for every ten bytes. */
  lemma FormsAgree(form: Form, b: seq<bv8>)
    requires |b| == 10
    ensures GroupWords(form, b) == DecodeGroup(FromBytes(b))
  {
    hide Pext, Low64, High16, SharedExponent, ScalarMantissas, ScalarSigns, Avx2Mantissas, Avx2Signs, ExponentOf, LaneOf,
         FromBytes, NeonWord, Avx2Word, HighNibble, DecodedExponent, DecodedMantissa;
    var lo, hi := Low64(b), High16(b);
    ScalarExponent(b);
    PextIsScalar(lo, hi);
    forall k | 0 <= k < 8
      ensures GroupWords(form, b)[k] == DecodeGroup(FromBytes(b))[k]
    {
      ScalarLanes(b, k);
      var t, s, exp := ScalarMantissas(lo, hi), ScalarSigns(lo, hi)[k], SharedExponent(hi);
      NeonIsPortable(s, exp, t[k]);
      Avx2IsPortable(s, exp, t[k]);
      HighNibbleIs(t, k);
    }
  }

  // ----- the loop of gbf_decode

  lemma DecodeNext(b: seq<bv8>, n: nat)
    requires 10 * n + 10 <= |b|
    ensures DecodeGroups(b, 0) == []
    ensures DecodeGroups(b, n + 1) == DecodeGroups(b, n) + DecodeGroup(FromBytes(b[10 * n..10 * n + 10]))
  {
    hide FromBytes, DecodeGroup;
  }

  lemma DecodeOne(b: seq<bv8>)
    requires |b| == 10
    ensures Decode(b, 8) == DecodeGroup(FromBytes(b))
  {
    hide FromBytes, DecodeGroup;
    DecodeNext(b, 0);
    assert b[10 * 0..10 * 0 + 10] == b;
  }

  /** The full packets and, when length is not a multiple of 8, the head of one more. */
  lemma DecodeParts(b: seq<bv8>, length: nat)
    requires |b| == 10 * GroupCount(length)
    ensures var g, rest := length / 8, length % 8;
            Decode(b, length) == if rest == 0 then DecodeGroups(b, g)
                                 else DecodeGroups(b, g) + DecodeGroup(FromBytes(b[10 * g..10 * g + 10]))[..rest]
  {
    hide FromBytes, DecodeGroup, DecodeGroups, GroupCount;
    var g, rest := length / 8, length % 8;
    PacketsFor(length);
    if rest == 0 {
      assert DecodeGroups(b, g)[..length] == DecodeGroups(b, g);
    } else {
      DecodeNext(b, g);
      TakeTail(DecodeGroups(b, g), DecodeGroup(FromBytes(b[10 * g..10 * g + 10])), rest);
    }
  }

  lemma PacketsFor(length: nat)
    ensures GroupCount(length) == length / 8 + if length % 8 == 0 then 0 else 1
  {
  }

  lemma TakeTail<T>(s: seq<T>, t: seq<T>, n: nat)
    requires n <= |t|
    ensures (s + t)[..|s| + n] == s + t[..n]
  {
  }

  /** The eight stores of one packet. */
  method StoreWords(flt32: array<bv32>, at: nat, words: seq<bv32>)
    requires |words| == 8 && at + 8 <= flt32.Length
    modifies flt32
    ensures flt32[at..at + 8] == words
    ensures forall j :: 0 <= j < flt32.Length && !(at <= j < at + 8) ==> flt32[j] == old(flt32[j])
  {
    for k := 0 to 8
      invariant flt32[at..at + k] == words[..k]
      invariant forall j :: 0 <= j < flt32.Length && !(at <= j < at + 8) ==> flt32[j] == old(flt32[j])
    {
      flt32[at + k] := words[k];
    }
  }

  /** The last length % 8 words: one more packet, decoded into tmp, of which the live words are copied. */
  method DecodeTail(form: Form, gbf80: array<bv8>, at: nat, flt32: array<bv32>, base: nat, live: nat)
    requires 1 <= live < 8 && at + 10 <= gbf80.Length && base + live <= flt32.Length
    modifies flt32
    ensures flt32[base..base + live] == DecodeGroup(FromBytes(gbf80[at..at + 10]))[..live]
    ensures forall j :: 0 <= j < flt32.Length && !(base <= j < base + live) ==> flt32[j] == old(flt32[j])
    decreases live, 0
  {
    hide FromBytes, DecodeGroup;
    var tmp := new bv32[8](_ => 0);
    GbfDecode(form, gbf80, at, tmp, 0, 8);
    ghost var words := DecodeGroup(FromBytes(gbf80[at..at + 10]));
    DecodeOne(gbf80[at..at + 10]);
    assert tmp[..] == words;
    for r := 0 to live
      invariant flt32[base..base + r] == words[..r]
      invariant forall j :: 0 <= j < flt32.Length && !(base <= j < base + live) ==> flt32[j] == old(flt32[j])
      invariant tmp[..] == words
    {
      flt32[base + r] := tmp[r];
    }
  }

  lemma DecodeStarts(b: seq<bv8>)
    ensures DecodeGroups(b, 0) == []
  {
  }

  /** The main loop: one packet of eight words while at least eight are wanted. */
  method DecodeFullPackets(form: Form, gbf80: array<bv8>, at: nat, flt32: array<bv32>, base: nat, length: nat)
    returns (flt32Offset: nat, gbf80Offset: nat)
    requires at + 10 * GroupCount(length) <= gbf80.Length && base + length <= flt32.Length
    modifies flt32
    ensures flt32Offset == length / 8 * 8 && gbf80Offset == length / 8 * 10
    ensures flt32[base..base + flt32Offset] == DecodeGroups(gbf80[at..at + 10 * GroupCount(length)], length / 8)
    ensures forall j :: 0 <= j < flt32.Length && !(base <= j < base + flt32Offset) ==> flt32[j] == old(flt32[j])
  {
    hide FromBytes, DecodeGroup, GroupWords, DecodeGroups;
    ghost var input := gbf80[at..at + 10 * GroupCount(length)];
    ghost var g := 0;
    assert DecodeGroups(input, 0) == [] by {
      DecodeStarts(input);
    }
    flt32Offset, gbf80Offset := 0, 0;
    while flt32Offset + 8 <= length
      invariant flt32Offset == 8 * g <= length && gbf80Offset == 10 * g
      invariant flt32[base..base + flt32Offset] == DecodeGroups(input, g)
      invariant forall j :: 0 <= j < flt32.Length && !(base <= j < base + flt32Offset) ==> flt32[j] == old(flt32[j])
      decreases length - flt32Offset
    {
      ghost var before := flt32[..];
      var words := GroupWords(form, gbf80[at + gbf80Offset..at + gbf80Offset + 10]);
      assert g + 1 <= GroupCount(length);
      SliceOfSlice(gbf80[..], at, |input|, 10 * g, 10 * g + 10);
      FormsAgree(form, input[10 * g..10 * g + 10]);
      DecodeNext(input, g);
      StoreWords(flt32, base + flt32Offset, words);
      Appended(before, flt32[..], base, flt32Offset, 8, DecodeGroups(input, g), words);
      flt32Offset := flt32Offset + 8;
      gbf80Offset := gbf80Offset + 10;
      g := g + 1;
    }
    assert g == length / 8;
  }

  /** gbf_decode in the given form. The tail decodes one more packet into a scratch array by
      calling itself with length 8, so the recursion is bounded by length % 8. */
  method GbfDecode(form: Form, gbf80: array<bv8>, at: nat, flt32: array<bv32>, base: nat, length: nat)
    requires at + 10 * GroupCount(length) <= gbf80.Length && base + length <= flt32.Length
    modifies flt32
    ensures flt32[base..base + length] == Decode(gbf80[at..at + 10 * GroupCount(length)], length)
    ensures forall j :: 0 <= j < flt32.Length && !(base <= j < base + length) ==> flt32[j] == old(flt32[j])
    decreases length % 8, 1
  {
    hide FromBytes, DecodeGroup, GroupWords, DecodeGroups, Decode, GroupCount;
    ghost var input, g := gbf80[at..at + 10 * GroupCount(length)], length / 8;
    PacketsFor(length);
    var flt32Offset, gbf80Offset := DecodeFullPackets(form, gbf80, at, flt32, base, length);
    DecodeParts(input, length);
    if flt32Offset < length {
      var live := length - flt32Offset;
      assert live == length % 8 && 10 * g + 10 <= |input|;
      ghost var before := flt32[..];
      DecodeTail(form, gbf80, at + gbf80Offset, flt32, base + flt32Offset, live);
      SliceOfSlice(gbf80[..], at, |input|, 10 * g, 10 * g + 10);
      ghost var tail := DecodeGroup(FromBytes(input[10 * g..10 * g + 10]))[..live];
      Appended(before, flt32[..], base, flt32Offset, live, DecodeGroups(input, g), tail);
    }
  }

  /** Where the NEON form, which counts in 32 bits, looks for a packet. */
  function NeonPacketOffset(packet: nat): nat { 10 * packet % 0x1_0000_0000 }

  /** Its offsets are the true ones up to this length, whose loop guard does not wrap around either,
      and for no longer buffer. */
  lemma NeonOffsets(length: nat)
    ensures (forall k: nat :: k < GroupCount(length) ==> NeonPacketOffset(k) == 10 * k) <==> length <= 3_435_973_840
    ensures length <= 3_435_973_840 ==> length / 8 * 8 + 8 < 0x1_0000_0000
  {
    if length > 3_435_973_840 {
      assert 429_496_730 < GroupCount(length);
      assert NeonPacketOffset(429_496_730) != 10 * 429_496_730;
    }
  }
}
