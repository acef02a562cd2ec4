/** The 32-bit float word the codec reads and writes, with the bit-field layout of
    MemxGbfFloat32Map: 16 low bits that are zero after rounding, a 7-bit mantissa, an 8-bit
    exponent and a sign (the binary32 layout of IEEE 754-2019, section 3.4, cut to 16 bits). */
module Float32 {
  import opened ByteNumbers

  function Sign(w: bv32): bv1 { (w >> 31) as bv1 }

  function Exponent(w: bv32): bv8 { ((w >> 23) & 0xFF) as bv8 }

  function Mantissa(w: bv32): (m: bv8)
    ensures m < 0x80
  {
    ((w >> 16) & 0x7F) as bv8
  }

  function Low16(w: bv32): bv16 { (w & 0xFFFF) as bv16 }

  /** The word the decoders assemble from its three fields. */
  function Compose(sign: bv1, exponent: bv8, mantissa: bv8): bv32 {
    ((sign as bv32) << 31) | ((exponent as bv32) << 23) | ((mantissa as bv32) << 16)
  }

  predicate IsRounded(w: bv32) { Low16(w) == 0 }

  predicate AllRounded(ws: seq<bv32>) { forall w <- ws :: IsRounded(w) }

  /** The exponent and the mantissa read as one 15-bit number: consecutive codes are
      consecutive magnitudes, so a carry out of the mantissa moves into the exponent. */
  function Code(w: bv32): nat { Num(Exponent(w)) * 128 + Num(Mantissa(w)) }

  function PlusHalf(w: bv32): bv32 { w + 0x8000 }

  function HighHalf(w: bv32): bv32 { w & 0xFFFF_0000 }

  /** The encoder's in-place rounding of one word (32-bit wrap-around included). */
  function Round16(w: bv32): bv32 { HighHalf(PlusHalf(w)) }

  function RoundAll(ws: seq<bv32>): (r: seq<bv32>)
    ensures |r| == |ws|
  {
    seq(|ws|, i requires 0 <= i < |ws| => Round16(ws[i]))
  }

  lemma FieldsOfCompose(sign: bv1, exponent: bv8, mantissa: bv8)
    requires mantissa < 0x80
    ensures var w := Compose(sign, exponent, mantissa);
            Sign(w) == sign && Exponent(w) == exponent && Mantissa(w) == mantissa && IsRounded(w)
  {
  }

  lemma ComposeOfFields(w: bv32)
    requires IsRounded(w)
    ensures Compose(Sign(w), Exponent(w), Mantissa(w)) == w
  {
  }

  lemma RoundingFields(w: bv32)
    ensures var r := Round16(w);
            if Low16(w) < 0x8000 then
              Sign(r) == Sign(w) && Exponent(r) == Exponent(w) && Mantissa(r) == Mantissa(w)
            else if Mantissa(w) < 0x7F then
              Sign(r) == Sign(w) && Exponent(r) == Exponent(w) && Mantissa(r) == Mantissa(w) + 1
            else if Exponent(w) < 0xFF then
              Sign(r) == Sign(w) && Exponent(r) == Exponent(w) + 1 && Mantissa(r) == 0
            else
              Sign(r) != Sign(w) && Exponent(r) == 0 && Mantissa(r) == 0
  {
  }

  lemma RoundedStays(w: bv32)
    ensures IsRounded(Round16(w))
    ensures IsRounded(w) ==> Round16(w) == w
  {
  }

  /** Rounding adds one to the code when the dropped half is at least 0x8000. Only the largest
      code overflows: it wraps to code 0 and flips the sign bit. */
  lemma RoundingMeaning(w: bv32)
    ensures Low16(w) < 0x8000 ==> Code(Round16(w)) == Code(w) && Sign(Round16(w)) == Sign(w)
    ensures Low16(w) >= 0x8000 && Code(w) < 0x7FFF ==> Code(Round16(w)) == Code(w) + 1 && Sign(Round16(w)) == Sign(w)
    ensures Low16(w) >= 0x8000 && Code(w) == 0x7FFF ==> Code(Round16(w)) == 0 && Sign(Round16(w)) != Sign(w)
  {
    hide Num, Round16, Sign, Exponent, Mantissa, Low16;
    RoundingFields(w);
    var e, m := Exponent(w), Mantissa(w);
    TopOfCode(e, m);
    if m != 0x7F {
      NumSuccessor(m);
    } else if e != 0xFF {
      NumSuccessor(e);
    }
  }

  lemma TopOfCode(e: bv8, m: bv8)
    requires m < 0x80
    ensures Num(e) * 128 + Num(m) == 0x7FFF <==> e == 0xFF && m == 0x7F
    ensures Num(0x7F) == 0x7F && Num(0) == 0 && Num(e) <= 0xFF && Num(m) <= 0x7F
  {
    hide Num;
    NumOrder(m, 0x7F);
    NumOrder(e, 0xFF);
    NumIsValue(0);
    NumIsValue(0x7F);
    NumIsValue(0xFF);
  }
}
