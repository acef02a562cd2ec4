/** What the packets mean as real numbers, and how far the codec moves a value. */
module GbfError {
  import opened ByteNumbers
  import opened Float32
  import opened GbfLane
  import opened GbfPacket
  import opened GbfCodec
  import opened GbfLaws

  function PowerOfTwo(k: int): (r: real)
    ensures r > 0.0
    decreases if k >= 0 then k else -k
  {
    if k == 0 then 1.0 else if k > 0 then 2.0 * PowerOfTwo(k - 1) else PowerOfTwo(k + 1) / 2.0
  }

  /** n times 2^k. */
  function Weight(n: nat, k: int): real { n as real * PowerOfTwo(k) }

  function Signed(sign: bv1, magnitude: real): real { if sign == 0 then magnitude else -magnitude }

  /** The value of a rounded word (IEEE 754-2019, section 3.4): 2^(e-134) times the
      significand 128 + m, or a multiple of 2^-133 for exponent 0. (At exponent 255, where the
      standard has infinities, the formula is simply continued.) */
  function Value(w: bv32): real {
    var e, m := Num(Exponent(w)), Num(Mantissa(w));
    Signed(Sign(w), if e == 0 then Weight(m, -133) else Weight(128 + m, e - 134))
  }

  /** The unit of a group: the weight of the lowest mantissa bit in its packet. */
  function Unit(exp: bv8): real { Weight(1, Num(exp) - 134) }

  function Distance(x: real, y: real): real { if x < y then y - x else x - y }

  // ----- arithmetic of weights

  lemma WeightDoubles(n: nat, k: int)
    ensures Weight(2 * n, k) == Weight(n, k + 1)
  {
    assert PowerOfTwo(k + 1) == 2.0 * PowerOfTwo(k);
    assert (2 * n) as real == 2.0 * n as real;
  }

  lemma {:induction false} WeightShifts(n: nat, k: int, d: nat)
    ensures Weight(Scaled(n, d), k) == Weight(n, k + d)
    decreases d
  {
    hide Weight;
    if d > 0 {
      WeightShifts(n, k + 1, d - 1);
      assert Scaled(n, d) == 2 * Scaled(n, d - 1);
      WeightDoubles(Scaled(n, d - 1), k);
    }
  }

  lemma WeightOrder(a: nat, b: nat, k: int)
    ensures a < b ==> Weight(a, k) < Weight(b, k)
    ensures Weight(0, k) == 0.0
  {
    hide PowerOfTwo;
    if a < b {
      assert (b - a) as real * PowerOfTwo(k) > 0.0;
      assert b as real == a as real + (b - a) as real;
    }
  }

  lemma WeightSum(a: nat, b: nat, k: int)
    ensures Weight(a + b, k) == Weight(a, k) + Weight(b, k)
  {
    hide PowerOfTwo;
    assert (a + b) as real == a as real + b as real;
  }

  lemma WeightBetween(a: nat, b: nat, unit: nat, k: int)
    requires 2 * a <= 2 * b + unit
    ensures 2.0 * Weight(a, k) <= 2.0 * Weight(b, k) + Weight(unit, k)
  {
    hide Weight;
    WeightSum(a, a, k);
    WeightSum(b, b, k);
    WeightSum(2 * b, unit, k);
    WeightOrder(2 * a, 2 * b + unit, k);
  }

  lemma PowerIsScaledOne(s: nat)
    ensures Scaled(1, s) == Pow2(s)
  {
  }

  // ----- the decoder

  lemma DecodedNumbers(exp: bv8, lane: Lane)
    requires lane.man != 0 && LeadingZeros(lane.man) < exp
    ensures var r, d := DecodeLane(exp, lane), Num(LeadingZeros(lane.man));
            && Sign(r) == lane.sign && Num(Exponent(r)) == Num(exp) - d > 0
            && 128 + Num(Mantissa(r)) == Scaled(Num(lane.man), d)
  {
    hide *;
    DecodedFields(exp, lane);
    NumOrder(exp, LeadingZeros(lane.man));
    DecodedExponentNumber(exp, lane);
    DecodedMantissaNumber(exp, lane);
  }

  lemma NormalValue(exp: bv8, lane: Lane)
    requires lane.man != 0 && LeadingZeros(lane.man) < exp
    ensures Value(DecodeLane(exp, lane)) == Signed(lane.sign, Weight(Num(lane.man), Num(exp) - 134))
  {
    hide Num, Weight, Signed, Scaled, Sign, Exponent, Mantissa, DecodeLane, LeadingZeros;
    var d := Num(LeadingZeros(lane.man));
    DecodedNumbers(exp, lane);
    WeightShifts(Num(lane.man), Num(exp) - d - 134, d);
  }

  lemma SaturatedNumbers(exp: bv8, lane: Lane)
    requires lane.man != 0 && LeadingZeros(lane.man) >= exp
    ensures var r, d := DecodeLane(exp, lane), Num(LeadingZeros(lane.man));
            && Sign(r) == lane.sign && Num(Exponent(r)) == 0 && Num(exp) <= d <= 7
            && 128 + Num(Mantissa(r)) == Scaled(Num(lane.man), d) < 256
  {
    hide Num, Scaled, Sign, Exponent, Mantissa, DecodeLane, LeadingZeros, DecodedExponent, DecodedMantissa;
    DecodedFields(exp, lane);
    NumOrder(exp, LeadingZeros(lane.man));
    DecodedMantissaNumber(exp, lane);
    NormalisedMantissa(lane.man);
    NothingLeft(exp, LeadingZeros(lane.man));
    SmallNumbers();
  }

  lemma NothingLeft(exp: bv8, d: bv8)
    requires d >= exp
    ensures (if d < 8 && d <= exp then exp - d else 0) == 0
  {
  }

  /** A product of a power of two cannot make up for the hidden bit that a saturated lane loses. */
  lemma HiddenBitMissed(m: nat, k: nat)
    requires 1 <= k <= 8 && m < 128
    ensures Scaled(m, k) != 128 + m
  {
    Pow2Values();
    if k == 1 {} else if k == 2 {} else if k == 3 {} else if k == 4 {} else if k == 5 {} else if k == 6 {} else if k == 7 {} else {}
  }

  lemma SaturatedValue(exp: bv8, lane: Lane)
    requires lane.man != 0 && LeadingZeros(lane.man) >= exp
    ensures Value(DecodeLane(exp, lane)) != Signed(lane.sign, Weight(Num(lane.man), Num(exp) - 134))
  {
    hide Num, Weight, Scaled, Sign, Exponent, Mantissa, DecodeLane, LeadingZeros;
    SaturatedNumbers(exp, lane);
    var d, e: int := Num(LeadingZeros(lane.man)), Num(exp);
    var m := Num(Mantissa(DecodeLane(exp, lane)));
    WeightShifts(Num(lane.man), e - 134 - d, d);
    WeightShifts(m, e - 134 - d, d - e + 1);
    HiddenBitMissed(m, d - e + 1);
    WeightOrder(Scaled(m, d - e + 1), 128 + m, e - 134 - d);
    WeightOrder(128 + m, Scaled(m, d - e + 1), e - 134 - d);
  }

  lemma ZeroMantissaValue(exp: bv8, lane: Lane)
    requires lane.man == 0
    ensures Value(DecodeLane(exp, lane)) == Signed(lane.sign, Weight(Num(lane.man), Num(exp) - 134))
  {
    hide Num, PowerOfTwo, Sign, Exponent, Mantissa, DecodeLane, LeadingZeros, DecodedExponent, DecodedMantissa;
    DecodedFields(exp, lane);
    SmallNumbers();
    assert LeadingZeros(0) == 8 by { EightForZero(); }
    assert DecodedMantissa(0) == 0 by { NoMantissa(); }
  }

  lemma EightForZero()
    ensures LeadingZeros(0) == 8
  {
  }

  lemma NoMantissa()
    ensures DecodedMantissa(0) == 0
  {
  }

  /** A decoded lane is worth its signed mantissa times the unit of the packet, if and only if the
      shared exponent exceeds the mantissa's leading zeros or the mantissa is zero. */
  lemma DecodedValue(exp: bv8, lane: Lane)
    ensures Value(DecodeLane(exp, lane)) == Signed(lane.sign, Weight(Num(lane.man), Num(exp) - 134))
            <==> lane.man == 0 || LeadingZeros(lane.man) < exp
  {
    hide Value, Signed, Weight, Num, DecodeLane, LeadingZeros;
    if lane.man == 0 {
      ZeroMantissaValue(exp, lane);
    } else if LeadingZeros(lane.man) < exp {
      NormalValue(exp, lane);
    } else {
      SaturatedValue(exp, lane);
    }
  }

  // ----- the error of one lane

  /** The rounded quotient is at most half a unit away from the significand. */
  lemma HalfUnit(m: nat, s: nat, t: nat)
    requires 1 <= s && t == (128 + m + Pow2(s) / 2) / Pow2(s)
    ensures 2 * Scaled(t, s) <= 2 * (128 + m) + Pow2(s)
    ensures 2 * (128 + m) <= 2 * Scaled(t, s) + Pow2(s)
  {
    assert Pow2(s) == 2 * Pow2(s - 1);
    hide Pow2;
    QuotientBounds(128 + m + Pow2(s - 1), Pow2(s));
  }

  lemma QuotientBounds(x: nat, unit: nat)
    requires unit > 0
    ensures x / unit * unit <= x < x / unit * unit + unit
  {
    assert x == x / unit * unit + x % unit;
  }

  lemma RoundingError(e: nat, m: nat, s: nat, t: nat)
    requires m < 128 && 1 <= s <= 7 && t == (128 + m + Pow2(s) / 2) / Pow2(s)
    ensures Distance(Weight(t, e + s - 134), Weight(128 + m, e - 134)) <= Weight(1, e + s - 134) / 2.0
  {
    hide Weight, Scaled, Pow2;
    HalfUnit(m, s, t);
    WeightBetween(Scaled(t, s), 128 + m, Pow2(s), e - 134);
    WeightBetween(128 + m, Scaled(t, s), Pow2(s), e - 134);
    PowerIsScaledOne(s);
    WeightShifts(1, e - 134, s);
    WeightShifts(t, e - 134, s);
  }

  lemma SameSign(sign: bv1, x: real, y: real)
    ensures Distance(Signed(sign, x), Signed(sign, y)) == Distance(x, y)
  {
  }

  lemma PositiveExponent(exp: bv8, w: bv32)
    requires ShiftDefined(exp, w) && 1 <= exp - Exponent(w) <= 7 && 1 <= Exponent(w)
    ensures Num(Exponent(w)) >= 1 && LeadingZeros(EncodeLane(exp, w).man) < exp
  {
    hide Num, Scaled, Sign, Exponent, Mantissa, EncodeLane, LeadingZeros, RoundHalfUp, Pow2;
    var lane := EncodeLane(exp, w);
    RoundedLaneNumbers(exp, w);
    MantissaBound(w);
    RoundedLaneCode(Num(exp), Num(Exponent(w)), Num(Mantissa(w)), Shift(exp, w), Num(lane.man), Num(LeadingZeros(lane.man)));
    SmallNumbers();
    NumOrder(1, Exponent(w));
    NumOrder(exp, LeadingZeros(lane.man));
  }

  lemma RoundedError(exp: bv8, w: bv32)
    requires ShiftDefined(exp, w) && 1 <= exp - Exponent(w) <= 7 && 1 <= Exponent(w)
    ensures Distance(Value(DecodeLane(exp, EncodeLane(exp, w))), Value(w)) <= Unit(exp) / 2.0
  {
    hide Num, Weight, Signed, Distance, Scaled, Pow2, Sign, Exponent, Mantissa, DecodeLane, EncodeLane, LeadingZeros;
    var e: int := Num(Exponent(w));
    var m, s, t := Num(Mantissa(w)), Shift(exp, w), Num(EncodeLane(exp, w).man);
    RoundedLaneNumbers(exp, w);
    MantissaBound(w);
    PositiveExponent(exp, w);
    DecodedValue(exp, EncodeLane(exp, w));
    RoundingError(e, m, s, t);
    SameSign(Sign(w), Weight(t, Num(exp) - 134), Weight(128 + m, e - 134));
  }

  lemma FlushedIsZero(exp: bv8, w: bv32)
    requires ShiftDefined(exp, w) && 8 <= exp - Exponent(w)
    ensures DecodeLane(exp, EncodeLane(exp, w)) == 0 && Value(0) == 0.0
  {
    hide AlignedMantissa, Exponent, DecodeLane;
    LargeShift(w, exp - Exponent(w));
    ZeroLaneDecodes(exp);
    ZeroValue();
  }

  lemma ZeroValue()
    ensures Value(0) == 0.0
  {
    hide PowerOfTwo;
  }

  lemma FlushedError(exp: bv8, w: bv32)
    requires ShiftDefined(exp, w) && 8 <= exp - Exponent(w) && 1 <= Exponent(w)
    ensures Distance(0.0, Value(w)) < Unit(exp)
  {
    hide Num, Weight, Scaled, Sign, Exponent, Mantissa;
    var e: int := Num(Exponent(w));
    var m, s := Num(Mantissa(w)), Shift(exp, w);
    ShiftNumber(exp, w);
    MantissaBound(w);
    SmallNumbers();
    NumOrder(1, Exponent(w));
    PowerAtLeast256(s);
    PowerIsScaledOne(s);
    WeightShifts(1, e - 134, s);
    WeightOrder(128 + m, Pow2(s), e - 134);
    WeightOrder(0, 128 + m, e - 134);
  }

  lemma {:induction false} PowerAtLeast256(s: nat)
    requires s >= 8
    ensures Pow2(s) >= 256
  {
    if s == 8 {
      Pow2Values();
    } else {
      PowerAtLeast256(s - 1);
    }
  }

  /** How close the word r that comes back is to w: equal when unshifted, within half the group's
      unit up to shift 7, and beyond that zero and within less than a unit. */
  ghost predicate Close(exp: bv8, w: bv32, r: bv32)
    requires Exponent(w) <= exp
  {
    var s := Shift(exp, w);
    && (s == 0 ==> Value(r) == Value(w))
    && (1 <= s <= 7 ==> Distance(Value(r), Value(w)) <= Unit(exp) / 2.0)
    && (8 <= s ==> Value(r) == 0.0 && Distance(Value(r), Value(w)) < Unit(exp))
  }

  /** The error of one normal lane (exponent at least 1). */
  lemma LaneError(exp: bv8, w: bv32)
    requires ShiftDefined(exp, w) && IsRounded(w) && 1 <= Exponent(w)
    ensures Close(exp, w, DecodeLane(exp, EncodeLane(exp, w)))
  {
    hide Num, Sign, Exponent, Mantissa, DecodeLane, EncodeLane, LeadingZeros, Low16, Value, Unit, Distance;
    ShiftNumber(exp, w);
    if exp - Exponent(w) == 0 {
      ExactLane(exp, w);
    } else if exp - Exponent(w) <= 7 {
      RoundedError(exp, w);
    } else {
      FlushedIsZero(exp, w);
      FlushedError(exp, w);
    }
  }

  /** The same bounds for every normal word of a buffer, in units of its own group. */
  lemma CodecError(ws: seq<bv32>, i: nat)
    requires i < |ws| && Defined(ws) && AllRounded(ws) && 1 <= Exponent(ws[i])
    ensures var exp := GroupExponent(Group(ws, i / 8));
            Exponent(ws[i]) <= exp && Close(exp, ws[i], Decode(Encode(ws), |ws|)[i])
  {
    hide Close, Exponent, GroupExponent, EncodeLane, DecodeLane, IsRounded, Decode, Encode, Group, ShiftDefined, GroupDefined;
    WordIsInItsGroup(ws, i);
    DecodedWord(ws, i);
    RoundedWord(ws, i);
    LaneError(GroupExponent(Group(ws, i / 8)), ws[i]);
  }

  lemma RoundedWord(ws: seq<bv32>, i: nat)
    requires i < |ws| && AllRounded(ws)
    ensures IsRounded(ws[i])
  {
  }

  lemma DecodedWord(ws: seq<bv32>, i: nat)
    requires i < |ws| && Defined(ws) && ShiftDefined(GroupExponent(Group(ws, i / 8)), ws[i])
    ensures var exp := GroupExponent(Group(ws, i / 8));
            Decode(Encode(ws), |ws|)[i] == DecodeLane(exp, EncodeLane(exp, ws[i]))
  {
    hide Exponent, GroupExponent, EncodeLane, DecodeLane, DecodeGroup, EncodeGroup, PacketAt, Group, ShiftDefined, Encode;
    EncodeStarts(ws);
    PacketsOfEncode(ws, GroupCount(|ws|), i / 8);
    WordsOfDecode(Encode(ws), GroupCount(|ws|), i);
    WordIsInItsGroup(ws, i);
    LaneOfGroup(Group(ws, i / 8), i % 8);
  }

  lemma WordIsInItsGroup(ws: seq<bv32>, i: nat)
    requires i < |ws| && Defined(ws)
    ensures var group := Group(ws, i / 8);
            && i % 8 < |group| && group[i % 8] == ws[i] && GroupDefined(group)
            && ShiftDefined(GroupExponent(group), ws[i]) && Exponent(ws[i]) <= GroupExponent(group)
  {
    hide Exponent, GroupExponent;
    assert Group(ws, i / 8)[i % 8] == ws[i] && ws[i] in Group(ws, i / 8);
    GroupExponentBounds(Group(ws, i / 8));
  }

  lemma LaneOfGroup(group: seq<bv32>, k: nat)
    requires k < |group| <= 8 && GroupDefined(group)
    ensures group[k] in group
    ensures DecodeGroup(EncodeGroup(group))[k] == DecodeLane(GroupExponent(group), EncodeLane(GroupExponent(group), group[k]))
  {
    hide Exponent, GroupExponent, EncodeLane, DecodeLane, Pack, ExponentOf, LaneOf;
    FieldsOfPack(GroupExponent(group), EncodeLanes(group));
  }
}
