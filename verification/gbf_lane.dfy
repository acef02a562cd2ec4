/** One lane of a GBF80 group: aligning a rounded float to the group exponent, and back. */
module GbfLane {
  import opened ByteNumbers
  import opened Float32

  /** What a packet stores for one lane: an 8-bit mantissa (hidden bit included) and a sign. */
  datatype Lane = Lane(man: bv8, sign: bv1)

  const ZERO_LANE := Lane(0, 0)

  /** The shift count of the encoder; C defines the shift of the promoted mantissa up to 31. */
  predicate ShiftDefined(exp: bv8, w: bv32) {
    Exponent(w) <= exp && exp - Exponent(w) <= 31
  }

  /** _SET_MANTISSA_SHIFT_WITH_ROUNDING. */
  function AlignedMantissa(w: bv32, shift: bv8): bv8
    requires shift <= 31
  {
    var m := Mantissa(w);
    if shift == 0 then
      if m == 0x7F then 0x80 | m else (0x80 | m) + ((Low16(w) >> 15) & 1) as bv8
    else
      (((0x80 | m as bv32) >> shift) & 0xFF) as bv8 + ((m as bv32 >> (shift - 1)) & 1) as bv8
  }

  function EncodeLane(exp: bv8, w: bv32): Lane
    requires ShiftDefined(exp, w)
  {
    var man := AlignedMantissa(w, exp - Exponent(w));
    Lane(man, if man != 0 then Sign(w) else 0)
  }

  /** The lookup table lzcnt_lut, read off as the runs of equal entries it consists of. */
  function LeadingZeros(t: bv8): (d: bv8)
    ensures d <= 8
    ensures d == 8 <==> t == 0
  {
    if t >= 0x80 then 0
    else if t >= 0x40 then 1
    else if t >= 0x20 then 2
    else if t >= 0x10 then 3
    else if t >= 8 then 4
    else if t >= 4 then 5
    else if t >= 2 then 6
    else if t == 1 then 7
    else 8
  }

  /** saturated_subtract8: the difference modulo 256, masked to zero when it wrapped. */
  function SaturatedSubtract(a: bv8, b: bv8): (r: bv8)
    ensures r == if b <= a then a - b else 0
  {
    var res := a - b;
    res & (if res <= a then 0xFF else 0)
  }

  function DecodedExponent(exp: bv8, t: bv8): bv8 {
    var d := LeadingZeros(t);
    SaturatedSubtract(exp, d) & (if d < 8 then 0xFF else 0)
  }

  /** The shifted mantissa with its hidden bit cleared (C shifts the promoted value). */
  function DecodedMantissa(t: bv8): (m: bv8)
    ensures m < 0x80
  {
    (((t as bv32) << LeadingZeros(t)) & 0x7F) as bv8
  }

  function DecodeLane(exp: bv8, lane: Lane): bv32 {
    Compose(lane.sign, DecodedExponent(exp, lane.man), DecodedMantissa(lane.man))
  }

  // ----- numbers behind the bit patterns

  function Pow2(n: nat): (r: nat)
    ensures r >= 1
  {
    if n == 0 then 1 else 2 * Pow2(n - 1)
  }

  lemma Pow2Values()
    ensures Pow2(0) == 1 && Pow2(1) == 2 && Pow2(2) == 4 && Pow2(3) == 8 && Pow2(4) == 16
    ensures Pow2(5) == 32 && Pow2(6) == 64 && Pow2(7) == 128 && Pow2(8) == 256
  {
    assert Pow2(4) == 16;
  }

  /** x rounded to a multiple of unit, ties upwards. */
  function RoundHalfUp(x: nat, unit: nat): nat
    requires unit > 0
  {
    (x + unit / 2) / unit * unit
  }

  function Shift(exp: bv8, w: bv32): nat
    requires Exponent(w) <= exp
  {
    NumOrder(Exponent(w), exp);
    Num(exp) - Num(Exponent(w))
  }

  /** What a lane comes back as: the sign is kept and the code is rounded to a multiple of
      2^shift while the shift is at most 7; beyond that the lane is flushed to the zero word. */
  ghost predicate RoundTripped(exp: bv8, w: bv32, r: bv32)
    requires Exponent(w) <= exp
  {
    var s := Shift(exp, w);
    if s <= 7 then
      Sign(r) == Sign(w) && Code(r) == RoundHalfUp(Code(w), Pow2(s)) && IsRounded(r)
    else
      r == 0
  }

  // ----- the encoder's mantissa

  lemma SmallShift(w: bv32, s: bv8)
    requires 1 <= s <= 7
    ensures AlignedMantissa(w, s) == ((0x80 | Mantissa(w)) >> s) + ((Mantissa(w) >> (s - 1)) & 1)
  {
  }

  lemma LargeShift(w: bv32, s: bv8)
    requires 8 <= s <= 31
    ensures AlignedMantissa(w, s) == 0
  {
  }

  lemma QuotientSmall(m: bv8, t: bv8)
    requires m < 0x80
    ensures t == ((0x80 | m) >> 1) + (m & 1) ==> t as nat == (m as nat + 129) / 2
    ensures t == ((0x80 | m) >> 2) + ((m >> 1) & 1) ==> t as nat == (m as nat + 130) / 4
    ensures t == ((0x80 | m) >> 3) + ((m >> 2) & 1) ==> t as nat == (m as nat + 132) / 8
  {
  }

  lemma QuotientLarge(m: bv8, t: bv8)
    requires m < 0x80
    ensures t == ((0x80 | m) >> 4) + ((m >> 3) & 1) ==> t as nat == (m as nat + 136) / 16
    ensures t == ((0x80 | m) >> 5) + ((m >> 4) & 1) ==> t as nat == (m as nat + 144) / 32
    ensures t == ((0x80 | m) >> 6) + ((m >> 5) & 1) ==> t as nat == (m as nat + 160) / 64
    ensures t == ((0x80 | m) >> 7) + ((m >> 6) & 1) ==> t as nat == (m as nat + 192) / 128
  {
  }

  function QuotientTable(m: nat, s: nat): nat
    requires 1 <= s <= 7
  {
    if s == 1 then (m + 129) / 2 else if s == 2 then (m + 130) / 4 else if s == 3 then (m + 132) / 8
    else if s == 4 then (m + 136) / 16 else if s == 5 then (m + 144) / 32 else if s == 6 then (m + 160) / 64
    else (m + 192) / 128
  }

  lemma QuotientTableMeaning(m: nat, s: nat)
    requires 1 <= s <= 7
    ensures QuotientTable(m, s) == (128 + m + Pow2(s) / 2) / Pow2(s)
  {
    Pow2Values();
    if s == 1 {} else if s == 2 {} else if s == 3 {} else if s == 4 {} else if s == 5 {} else if s == 6 {} else {}
  }

  lemma QuotientOfValue(m: bv8, s: bv8, t: bv8)
    requires m < 0x80 && 1 <= s <= 7 && t == ((0x80 | m) >> s) + ((m >> (s - 1)) & 1)
    ensures 1 <= Num(s) <= 7 && t as nat == QuotientTable(m as nat, Num(s))
  {
    hide Num;
    SmallNumbers();
    if s == 1 { QuotientSmall(m, t); } else if s == 2 { QuotientSmall(m, t); } else if s == 3 { QuotientSmall(m, t); }
    else if s == 4 { QuotientLarge(m, t); } else if s == 5 { QuotientLarge(m, t); } else if s == 6 { QuotientLarge(m, t); }
    else { QuotientLarge(m, t); }
  }

  lemma SmallShiftNonzero(w: bv32, s: bv8)
    requires 1 <= s <= 7
    ensures AlignedMantissa(w, s) != 0
  {
    hide AlignedMantissa;
    SmallShift(w, s);
  }

  /** For a shift of 1 to 7 the stored mantissa is the significand 128 + m divided by 2^s,
      rounded half up. */
  lemma AlignedIsQuotient(w: bv32, s: bv8)
    requires 1 <= s <= 7
    ensures Num(AlignedMantissa(w, s)) == (128 + Num(Mantissa(w)) + Pow2(Num(s)) / 2) / Pow2(Num(s))
    ensures AlignedMantissa(w, s) != 0
  {
    hide *;
    SmallShift(w, s);
    SmallShiftNonzero(w, s);
    NumIsValue(Mantissa(w));
    NumIsValue(AlignedMantissa(w, s));
    QuotientOfValue(Mantissa(w), s, AlignedMantissa(w, s));
    QuotientTableMeaning(Num(Mantissa(w)), Num(s));
  }

  // ----- the decoder's normalisation

  lemma NormalisedValue(t: bv8)
    requires t != 0
    ensures var d, v, m := LeadingZeros(t), t as nat, DecodedMantissa(t) as nat;
            if d == 0 then m + 128 == v else if d == 1 then m + 128 == v * 2 else if d == 2 then m + 128 == v * 4
            else if d == 3 then m + 128 == v * 8 else if d == 4 then m + 128 == v * 16
            else if d == 5 then m + 128 == v * 32 else if d == 6 then m + 128 == v * 64 else m + 128 == v * 128
  {
  }

  lemma NormalisedMantissa(t: bv8)
    requires t != 0
    ensures var d := LeadingZeros(t);
            Num(d) <= 7 && 128 + Num(DecodedMantissa(t)) == Scaled(Num(t), Num(d)) < 256
  {
    Pow2Values();
    SmallNumbers();
    NormalisedValue(t);
    NumIsValue(t);
    NumIsValue(DecodedMantissa(t));
    NumIsValue(0x80);
    NumOrder(0x80, DecodedMantissa(t));
    var d := LeadingZeros(t);
    if d == 0 {} else if d == 1 {} else if d == 2 {} else if d == 3 {} else if d == 4 {}
    else if d == 5 {} else if d == 6 {} else {}
  }

  // ----- encode, then decode

  /** The units 2^s and their cofactors 2^(7-s). */
  predicate UnitPair(unit: nat, k: nat) {
    (unit, k) in {(2, 64), (4, 32), (8, 16), (16, 8), (32, 4), (64, 2), (128, 1)}
  }

  lemma DivisionShift(e: nat, x: nat, unit: nat, k: nat)
    requires UnitPair(unit, k)
    ensures (e * 128 + x) / unit == e * k + x / unit
    ensures unit * k == 128
  {
    if unit == 2 {} else if unit == 4 {} else if unit == 8 {} else if unit == 16 {} else if unit == 32 {}
    else if unit == 64 {} else {}
  }

  lemma Distribute(e: nat, k: nat, q: nat, unit: nat)
    requires unit * k == 128
    ensures (e * k + q) * unit == e * 128 + q * unit
  {
    assert (e * k + q) * unit == e * (unit * k) + q * unit;
  }

  lemma AtMost128(x: nat, unit: nat, k: nat)
    requires unit > 0 && x < 128 + unit && unit * k == 128
    ensures x / unit * unit <= 128
  {
    var q := x / unit;
    if q >= k + 1 {
      MulMonotone(k + 1, q, unit);
      assert false;
    }
    MulMonotone(q, k, unit);
  }

  lemma MulMonotone(a: nat, b: nat, unit: nat)
    requires a <= b
    ensures a * unit <= b * unit
  {
  }

  /** Rounding a code to a multiple of the unit only rounds its significand 128 + m. */
  lemma RoundSignificand(e: nat, m: nat, unit: nat, half: nat, k: nat)
    requires m < 128 && UnitPair(unit, k) && half == unit / 2
    ensures (e * 128 + m + half) / unit * unit + 128 == e * 128 + (128 + m + half) / unit * unit
    ensures 128 <= (128 + m + half) / unit * unit <= 256
  {
    var x := m + half;
    DivisionShift(e, x, unit, k);
    DivisionShift(1, x, unit, k);
    Distribute(e, k, x / unit, unit);
    Distribute(1, k, x / unit, unit);
    AtMost128(x, unit, k);
  }

  /** t shifted left by d. */
  function Scaled(t: nat, d: nat): nat { t * Pow2(d) }

  lemma QuotientTimesUnit(e: nat, m: nat, s: nat, t: nat)
    requires m < 128 && 1 <= s <= 7 && t == (128 + m + Pow2(s) / 2) / Pow2(s)
    ensures RoundHalfUp(e * 128 + m, Pow2(s)) + 128 == e * 128 + Scaled(t, s)
    ensures 128 <= Scaled(t, s) <= 256
  {
    var unit, k := Pow2(s), Pow2(7 - s);
    assert UnitPair(unit, k) by {
      Pow2Values();
      if s == 1 {} else if s == 2 {} else if s == 3 {} else if s == 4 {} else if s == 5 {} else if s == 6 {} else {}
    }
    RoundSignificand(e, m, unit, unit / 2, k);
  }

  /** Normalising the rounded quotient shifts by s, or by s - 1 when rounding carried. */
  lemma NormalisingShift(t: nat, s: nat, d: nat)
    requires 1 <= s <= 7 && d <= 7
    requires 128 <= Scaled(t, s) <= 256 && 128 <= Scaled(t, d) < 256
    ensures d == s || (d == s - 1 && Scaled(t, s) == 256 && Scaled(t, d) == 128)
  {
    Pow2Values();
    if s == 1 {} else if s == 2 {} else if s == 3 {} else if s == 4 {} else if s == 5 {} else if s == 6 {} else {}
  }

  lemma DecodedFields(exp: bv8, lane: Lane)
    ensures var r := DecodeLane(exp, lane);
            Sign(r) == lane.sign && IsRounded(r)
            && Mantissa(r) == DecodedMantissa(lane.man) && Exponent(r) == DecodedExponent(exp, lane.man)
    ensures var d := LeadingZeros(lane.man);
            DecodedExponent(exp, lane.man) == if d < 8 && d <= exp then exp - d else 0
  {
    FieldsOfCompose(lane.sign, DecodedExponent(exp, lane.man), DecodedMantissa(lane.man));
  }

  lemma DecodedExponentNumber(exp: bv8, lane: Lane)
    requires lane.man != 0 && LeadingZeros(lane.man) <= exp
    ensures Num(Exponent(DecodeLane(exp, lane))) == Num(exp) - Num(LeadingZeros(lane.man))
  {
    hide *;
    DecodedFields(exp, lane);
    NumDifference(exp, LeadingZeros(lane.man));
  }

  lemma DecodedMantissaNumber(exp: bv8, lane: Lane)
    requires lane.man != 0
    ensures 128 + Num(Mantissa(DecodeLane(exp, lane))) == Scaled(Num(lane.man), Num(LeadingZeros(lane.man)))
  {
    hide *;
    DecodedFields(exp, lane);
    NormalisedMantissa(lane.man);
  }

  /** A shift of 1 to 7, in numbers: t is the stored mantissa, d its leading zeros. */
  lemma RoundedLaneNumbers(exp: bv8, w: bv32)
    requires ShiftDefined(exp, w) && 1 <= exp - Exponent(w) <= 7
    ensures EncodeLane(exp, w).man == AlignedMantissa(w, exp - Exponent(w)) != 0
    ensures EncodeLane(exp, w).sign == Sign(w)
    ensures var s, t := Shift(exp, w), Num(EncodeLane(exp, w).man);
            var d := Num(LeadingZeros(EncodeLane(exp, w).man));
            && 1 <= s <= 7 && d <= 7 && s == Num(exp - Exponent(w))
            && t == (128 + Num(Mantissa(w)) + Pow2(s) / 2) / Pow2(s)
            && 128 <= Scaled(t, d) < 256
  {
    hide Num, Pow2, Scaled, AlignedMantissa, LeadingZeros, Sign, Exponent, Mantissa;
    var s := exp - Exponent(w);
    AlignedIsQuotient(w, s);
    ShiftNumber(exp, w);
    NormalisedMantissa(EncodeLane(exp, w).man);
  }

  lemma ShiftNumber(exp: bv8, w: bv32)
    requires Exponent(w) <= exp
    ensures var s := exp - Exponent(w);
            Shift(exp, w) == Num(s)
            && (s == 0 <==> Num(s) == 0) && (s <= 7 <==> Num(s) <= 7) && (s <= 31 <==> Num(s) <= 31)
  {
    hide Exponent, Num;
    NumDifference(exp, Exponent(w));
    Thresholds(exp - Exponent(w));
  }

  lemma Thresholds(s: bv8)
    ensures (s == 0 <==> Num(s) == 0) && (s <= 7 <==> Num(s) <= 7) && (s <= 31 <==> Num(s) <= 31)
  {
    hide *;
    NumOrder(s, 0);
    NumOrder(s, 7);
    NumOrder(s, 31);
    NumIsValue(0);
    NumIsValue(7);
    NumIsValue(31);
  }

  lemma RoundedLane(exp: bv8, w: bv32)
    requires ShiftDefined(exp, w) && 1 <= exp - Exponent(w) <= 7
    ensures var lane := EncodeLane(exp, w);
            lane.man != 0 && lane.sign == Sign(w) && LeadingZeros(lane.man) <= exp
            && Code(DecodeLane(exp, lane)) == RoundHalfUp(Code(w), Pow2(Shift(exp, w)))
  {
    hide Num, Pow2, Scaled, RoundHalfUp, EncodeLane, DecodeLane, LeadingZeros, Sign, Exponent, Mantissa;
    var lane := EncodeLane(exp, w);
    RoundedLaneNumbers(exp, w);
    MantissaBound(w);
    RoundedLaneCode(Num(exp), Num(Exponent(w)), Num(Mantissa(w)), Shift(exp, w), Num(lane.man), Num(LeadingZeros(lane.man)));
    NumOrder(LeadingZeros(lane.man), exp);
    DecodedExponentNumber(exp, lane);
    DecodedMantissaNumber(exp, lane);
  }

  lemma RoundedLaneCode(exp: nat, e: nat, m: nat, s: nat, t: nat, d: nat)
    requires 1 <= s <= 7 && d <= 7 && m < 128 && e + s == exp
    requires t == (128 + m + Pow2(s) / 2) / Pow2(s) && 128 <= Scaled(t, d) < 256
    ensures d <= s
    ensures (exp - d) * 128 + (Scaled(t, d) - 128) == RoundHalfUp(e * 128 + m, Pow2(s))
  {
    hide *;
    QuotientTimesUnit(e, m, s, t);
    NormalisingShift(t, s, d);
  }

  lemma MantissaBound(w: bv32)
    ensures Num(Mantissa(w)) < 128
  {
    hide *;
    NumIsValue(0x80);
    NumOrder(0x80, Mantissa(w));
  }

  /** The codec's law for one lane. The decoder's subtraction never saturates on the way. */
  lemma LaneRoundTrip(exp: bv8, w: bv32)
    requires ShiftDefined(exp, w) && IsRounded(w)
    ensures RoundTripped(exp, w, DecodeLane(exp, EncodeLane(exp, w)))
    ensures EncodeLane(exp, w).man != 0 <==> Shift(exp, w) <= 7
    ensures var t := EncodeLane(exp, w).man; t != 0 ==> LeadingZeros(t) <= exp
  {
    hide Num, Pow2, Scaled, RoundHalfUp, AlignedMantissa, LeadingZeros, DecodeLane, Sign, Exponent, Mantissa, Low16;
    var s := exp - Exponent(w);
    ShiftNumber(exp, w);
    if s == 0 {
      Pow2Values();
      ExactLane(exp, w);
    } else if s <= 7 {
      RoundedLane(exp, w);
      DecodedFields(exp, EncodeLane(exp, w));
    } else {
      LargeShift(w, s);
      ZeroLaneDecodes(exp);
    }
  }

  lemma ZeroLaneDecodes(exp: bv8)
    ensures DecodeLane(exp, ZERO_LANE) == 0
  {
  }

  /** The lane that carries the group exponent comes back unchanged. */
  lemma ExactLane(exp: bv8, w: bv32)
    requires IsRounded(w) && Exponent(w) == exp
    ensures EncodeLane(exp, w) == Lane(0x80 | Mantissa(w), Sign(w))
    ensures LeadingZeros(0x80 | Mantissa(w)) == 0
    ensures DecodeLane(exp, EncodeLane(exp, w)) == w
    ensures RoundHalfUp(Code(w), 1) == Code(w)
  {
    hide Num, Pow2, Scaled, AlignedMantissa, LeadingZeros, SaturatedSubtract, DecodedExponent, DecodedMantissa, Compose, Sign, Exponent, Mantissa, Low16;
    ComposeOfFields(w);
    HiddenBit(exp, Mantissa(w));
    RoundedTailIsZero(w);
    assert exp - Exponent(w) == 0;
  }

  lemma RoundedTailIsZero(w: bv32)
    requires IsRounded(w)
    ensures AlignedMantissa(w, 0) == 0x80 | Mantissa(w)
  {
  }

  lemma HiddenBit(exp: bv8, m: bv8)
    requires m < 0x80
    ensures 0x80 | m != 0 && LeadingZeros(0x80 | m) == 0
    ensures DecodedMantissa(0x80 | m) == m && DecodedExponent(exp, 0x80 | m) == exp
  {
  }
}