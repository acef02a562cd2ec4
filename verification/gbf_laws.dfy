/** What the codec promises as a whole: the round trip of every buffer, and when encoding
    undoes decoding. */
module GbfLaws {
  import opened Float32
  import opened GbfLane
  import opened GbfPacket
  import opened GbfCodec

  // ----- the group exponent is the maximum

  lemma {:induction false} GroupExponentBounds(ws: seq<bv32>)
    ensures forall w <- ws :: Exponent(w) <= GroupExponent(ws)
    ensures |ws| > 0 ==> exists k :: 0 <= k < |ws| && Exponent(ws[k]) == GroupExponent(ws)
  {
    hide Exponent;
    if |ws| > 0 {
      var n := |ws| - 1;
      GroupExponentBounds(ws[..n]);
      assert ws == ws[..n] + [ws[n]];
      if Exponent(ws[n]) == GroupExponent(ws) {
      } else {
        var k :| 0 <= k < n && Exponent(ws[..n][k]) == GroupExponent(ws[..n]);
        assert Exponent(ws[k]) == GroupExponent(ws);
      }
    }
  }

  lemma GroupExponentIs(ws: seq<bv32>, exp: bv8, k: nat)
    requires k < |ws| && Exponent(ws[k]) == exp
    requires forall w <- ws :: Exponent(w) <= exp
    ensures GroupExponent(ws) == exp
  {
    hide Exponent, GroupExponent;
    GroupExponentBounds(ws);
    assert ws[k] in ws;
  }

  /** A group with a positive zero in it has an encoding that C defines if and only if none of its
      exponents exceeds 31. */
  lemma ZeroInGroup(ws: seq<bv32>)
    requires 0 in ws
    ensures GroupDefined(ws) <==> GroupExponent(ws) <= 31
  {
    hide GroupExponent, Exponent;
    GroupExponentBounds(ws);
    ZeroExponent();
    forall w | w in ws
      ensures ShiftDefined(GroupExponent(ws), w) <==> GroupExponent(ws) - Exponent(w) <= 31
      ensures GroupExponent(ws) <= 31 ==> GroupExponent(ws) - Exponent(w) <= 31
    {
      LessIsSmaller(GroupExponent(ws), Exponent(w));
    }
    LessIsSmaller(GroupExponent(ws), 0);
  }

  lemma ZeroExponent()
    ensures Exponent(0) == 0
  {
  }

  lemma LessIsSmaller(a: bv8, b: bv8)
    requires b <= a
    ensures a - b <= a && (b == 0 ==> a - b == a)
  {
  }

  /** Such a group: 0.0 beside 1.0. */
  lemma ZeroBesideOne()
    ensures !GroupDefined([0, 0x3F80_0000])
  {
    hide GroupExponent, Exponent;
    var ws: seq<bv32> := [0, 0x3F80_0000];
    ExponentOfOne();
    GroupExponentBounds(ws);
    assert ws[1] in ws;
    ZeroInGroup(ws);
  }

  lemma ExponentOfOne()
    ensures Exponent(0x3F80_0000) == 127
  {
  }

  // ----- round trip

  lemma GroupRoundTrip(ws: seq<bv32>, k: nat)
    requires |ws| <= 8 && GroupDefined(ws) && AllRounded(ws) && k < 8
    ensures var r := DecodeGroup(EncodeGroup(ws));
            if k < |ws| then Exponent(ws[k]) <= GroupExponent(ws) && RoundTripped(GroupExponent(ws), ws[k], r[k])
            else r[k] == 0
  {
    hide GroupExponent, Exponent, EncodeLane, DecodeLane, RoundTripped, Pack, ExponentOf, LaneOf, IsRounded;
    FieldsOfPack(GroupExponent(ws), EncodeLanes(ws));
    if k < |ws| {
      assert ws[k] in ws;
      GroupExponentBounds(ws);
      LaneRoundTrip(GroupExponent(ws), ws[k]);
    } else {
      ZeroLaneDecodes(GroupExponent(ws));
    }
  }

  lemma {:induction false} PacketsOfEncode(ws: seq<bv32>, n: nat, g: nat)
    requires Defined(ws) && g < n <= GroupCount(|ws|)
    ensures PacketAt(EncodeGroups(ws, n), g) == EncodeGroup(Group(ws, g))
  {
    hide EncodeGroup, Bytes, FromBytes, GroupDefined, EncodeGroups;
    EncodeNext(ws, n - 1);
    var b, last := EncodeGroups(ws, n - 1), Bytes(EncodeGroup(Group(ws, n - 1)));
    if g == n - 1 {
      assert (b + last)[10 * g..10 * g + 10] == last;
      BytesRoundTrip(EncodeGroup(Group(ws, g)));
    } else {
      PacketsOfEncode(ws, n - 1, g);
      assert (b + last)[10 * g..10 * g + 10] == b[10 * g..10 * g + 10];
    }
  }

  lemma {:induction false} WordsOfDecode(b: seq<bv8>, n: nat, i: nat)
    requires i < 8 * n && 10 * n <= |b|
    ensures DecodeGroups(b, n)[i] == DecodeGroup(PacketAt(b, i / 8))[i % 8]
  {
    hide DecodeGroup, PacketAt;
    if i / 8 < n - 1 {
      WordsOfDecode(b, n - 1, i);
    }
  }

  /** The codec's law for a whole buffer: every lane comes back rounded to its group's unit. */
  lemma CodecRoundTrip(ws: seq<bv32>)
    requires Defined(ws) && AllRounded(ws)
    ensures var r := Decode(Encode(ws), |ws|);
            forall i :: 0 <= i < |ws| ==>
              var group := Group(ws, i / 8);
              Exponent(ws[i]) <= GroupExponent(group) && RoundTripped(GroupExponent(group), ws[i], r[i])
  {
    hide Exponent, GroupExponent, RoundTripped, DecodeGroup, EncodeGroup, GroupDefined, IsRounded, PacketAt;
    var b := Encode(ws);
    forall i | 0 <= i < |ws|
      ensures var group := Group(ws, i / 8);
              Exponent(ws[i]) <= GroupExponent(group) && RoundTripped(GroupExponent(group), ws[i], Decode(b, |ws|)[i])
    {
      var group := Group(ws, i / 8);
      assert group[i % 8] == ws[i] && ws[i] in group;
      assert forall w <- group :: w in ws;
      GroupExponentBounds(group);
      PacketsOfEncode(ws, GroupCount(|ws|), i / 8);
      WordsOfDecode(b, GroupCount(|ws|), i);
      GroupRoundTrip(group, i % 8);
    }
  }

  /** The lanes after the end of the buffer decode to zero. */
  lemma PaddingDecodesToZero(ws: seq<bv32>, i: nat)
    requires Defined(ws) && AllRounded(ws) && |ws| <= i < 8 * GroupCount(|ws|)
    ensures DecodeGroups(Encode(ws), GroupCount(|ws|))[i] == 0
  {
    hide Exponent, GroupExponent, RoundTripped, DecodeGroup, EncodeGroup, GroupDefined, IsRounded, PacketAt;
    var group := Group(ws, i / 8);
    assert forall w <- group :: w in ws;
    PacketsOfEncode(ws, GroupCount(|ws|), i / 8);
    WordsOfDecode(Encode(ws), GroupCount(|ws|), i);
    GroupRoundTrip(group, i % 8);
  }

  // ----- when encoding undoes decoding: one lane

  /** The lanes an encoder can have written for a given group exponent. */
  predicate CanonicalLane(exp: bv8, lane: Lane) {
    if lane.man != 0 then LeadingZeros(lane.man) <= exp else lane.sign == 0 && exp >= 8
  }

  lemma Realign(t: bv8)
    requires t != 0
    ensures var d, m := LeadingZeros(t), DecodedMantissa(t);
            if d == 0 then 0x80 | m == t else ((0x80 | m) >> d) + ((m >> (d - 1)) & 1) == t
  {
  }

  /** A saturated exponent leaves too small a shift, and the mantissa moves. */
  lemma Misalign(t: bv8, exp: bv8)
    requires t != 0 && exp < LeadingZeros(t)
    ensures var m := DecodedMantissa(t);
            if exp == 0 then 0x80 | m != t else ((0x80 | m) >> exp) + ((m >> (exp - 1)) & 1) != t
  {
  }

  lemma DecodedShift(exp: bv8, lane: Lane)
    ensures var r := DecodeLane(exp, lane);
            Exponent(r) <= exp
            && exp - Exponent(r) == if lane.man != 0 && LeadingZeros(lane.man) <= exp then LeadingZeros(lane.man) else exp
  {
    hide DecodeLane, LeadingZeros, Exponent;
    DecodedFields(exp, lane);
    ShiftBack(exp, LeadingZeros(lane.man));
  }

  lemma ShiftBack(exp: bv8, d: bv8)
    ensures d <= exp ==> exp - (exp - d) == d && exp - d <= exp
  {
  }

  lemma ReencodedFields(exp: bv8, lane: Lane)
    requires ShiftDefined(exp, DecodeLane(exp, lane))
    ensures var r, again := DecodeLane(exp, lane), EncodeLane(exp, DecodeLane(exp, lane));
            && again.man == AlignedMantissa(r, exp - Exponent(r))
            && again.sign == (if again.man != 0 then lane.sign else 0)
            && IsRounded(r) && Mantissa(r) == DecodedMantissa(lane.man)
  {
    hide DecodeLane, AlignedMantissa, Exponent, Mantissa, Sign, IsRounded;
    DecodedFields(exp, lane);
  }

  lemma ReencodeNormal(exp: bv8, lane: Lane)
    requires ShiftDefined(exp, DecodeLane(exp, lane)) && lane.man != 0 && LeadingZeros(lane.man) <= exp
    ensures EncodeLane(exp, DecodeLane(exp, lane)).man == lane.man
  {
    hide *;
    ReencodedFields(exp, lane);
    DecodedShift(exp, lane);
    AlignedCases(DecodeLane(exp, lane), LeadingZeros(lane.man));
    Realign(lane.man);
  }

  lemma ReencodeSaturated(exp: bv8, lane: Lane)
    requires ShiftDefined(exp, DecodeLane(exp, lane)) && lane.man != 0 && LeadingZeros(lane.man) > exp
    ensures EncodeLane(exp, DecodeLane(exp, lane)).man != lane.man
  {
    hide *;
    ReencodedFields(exp, lane);
    DecodedShift(exp, lane);
    AlignedCases(DecodeLane(exp, lane), exp);
    Misalign(lane.man, exp);
  }

  lemma ReencodeZero(exp: bv8, lane: Lane)
    requires ShiftDefined(exp, DecodeLane(exp, lane)) && lane.man == 0 && exp <= 31
    ensures EncodeLane(exp, DecodeLane(exp, lane)).man == 0 <==> exp >= 8
  {
    hide *;
    ReencodedFields(exp, lane);
    DecodedShift(exp, lane);
    AlignedCases(DecodeLane(exp, lane), exp);
    ZeroMantissa(exp);
  }

  /** Re-encoding a decoded lane under its own exponent gives the lane back exactly when it is
      canonical. */
  lemma LaneReencodes(exp: bv8, lane: Lane)
    requires ShiftDefined(exp, DecodeLane(exp, lane))
    ensures EncodeLane(exp, DecodeLane(exp, lane)) == lane <==> CanonicalLane(exp, lane)
  {
    hide DecodeLane, EncodeLane, LeadingZeros;
    ReencodedFields(exp, lane);
    if lane.man == 0 {
      DecodedShift(exp, lane);
      ReencodeZero(exp, lane);
    } else if LeadingZeros(lane.man) <= exp {
      ReencodeNormal(exp, lane);
    } else {
      ReencodeSaturated(exp, lane);
    }
  }

  lemma AlignedCases(w: bv32, s: bv8)
    requires s <= 31 && IsRounded(w)
    ensures s == 0 ==> AlignedMantissa(w, s) == 0x80 | Mantissa(w)
    ensures 1 <= s <= 7 ==> AlignedMantissa(w, s) == ((0x80 | Mantissa(w)) >> s) + ((Mantissa(w) >> (s - 1)) & 1)
    ensures 8 <= s ==> AlignedMantissa(w, s) == 0
  {
    hide *;
    if s == 0 {
      RoundedTailIsZero(w);
    } else if s <= 7 {
      SmallShift(w, s);
    } else {
      LargeShift(w, s);
    }
  }

  lemma ZeroMantissa(s: bv8)
    ensures DecodedMantissa(0) == 0
    ensures 1 <= s <= 7 ==> ((0x80 as bv8) >> s) != 0
  {
  }

  // ----- when encoding undoes decoding: packets and buffers

  /** A packet an encoder can have written for a group of n floats. */
  ghost predicate CanonicalPacket(p: bv80, n: nat)
    requires 1 <= n <= 8
  {
    && (exists k :: 0 <= k < n && LaneOf(p, k).man >= 0x80)
    && (forall k :: 0 <= k < n ==> CanonicalLane(ExponentOf(p), LaneOf(p, k)))
    && (forall k :: n <= k < 8 ==> LaneOf(p, k) == ZERO_LANE)
  }

  lemma DecodedAtMost(p: bv80, n: nat)
    requires n <= 8
    ensures forall w <- DecodeGroup(p)[..n] :: Exponent(w) <= ExponentOf(p)
  {
    hide Exponent, ExponentOf, LaneOf, DecodeLane;
    forall w | w in DecodeGroup(p)[..n]
      ensures Exponent(w) <= ExponentOf(p)
    {
      var k :| 0 <= k < n && w == DecodeGroup(p)[k];
      DecodedShift(ExponentOf(p), LaneOf(p, k));
    }
  }

  /** The group exponent survives exactly when some lane carries it. */
  lemma ExponentCarrier(exp: bv8, lane: Lane)
    ensures lane.man >= 0x80 ==> Exponent(DecodeLane(exp, lane)) == exp
    ensures Exponent(DecodeLane(exp, lane)) == exp && CanonicalLane(exp, lane) ==> lane.man >= 0x80
  {
    hide DecodeLane, Exponent;
    DecodedShift(exp, lane);
    TopBit(exp, lane.man, Exponent(DecodeLane(exp, lane)));
  }

  lemma TopBit(exp: bv8, t: bv8, e: bv8)
    ensures t >= 0x80 <==> LeadingZeros(t) == 0
    ensures exp - e == 0 <==> exp == e
  {
  }

  lemma CanonicalReencodes(p: bv80, n: nat)
    requires 1 <= n <= 8 && GroupDefined(DecodeGroup(p)[..n]) && CanonicalPacket(p, n)
    ensures EncodeGroup(DecodeGroup(p)[..n]) == p
  {
    hide Exponent, GroupExponent, ExponentOf, LaneOf, DecodeLane, EncodeLane, CanonicalLane, ShiftDefined, Pack;
    var ws, exp := DecodeGroup(p)[..n], ExponentOf(p);
    var top :| 0 <= top < n && LaneOf(p, top).man >= 0x80;
    ExponentCarrier(exp, LaneOf(p, top));
    DecodedAtMost(p, n);
    GroupExponentIs(ws, exp, top);
    var lanes := seq(8, k requires 0 <= k < 8 => LaneOf(p, k));
    forall k | 0 <= k < 8
      ensures EncodeLanes(ws)[k] == lanes[k]
    {
      if k < n {
        assert ws[k] in ws;
        LaneReencodes(exp, LaneOf(p, k));
      }
    }
    assert EncodeLanes(ws) == lanes;
    PackOfFields(p);
  }

  lemma ReencodedIsCanonical(p: bv80, n: nat)
    requires 1 <= n <= 8 && GroupDefined(DecodeGroup(p)[..n]) && EncodeGroup(DecodeGroup(p)[..n]) == p
    ensures CanonicalPacket(p, n)
  {
    hide Exponent, GroupExponent, ExponentOf, LaneOf, DecodeLane, EncodeLane, CanonicalLane, ShiftDefined, Pack;
    var ws, exp := DecodeGroup(p)[..n], ExponentOf(p);
    FieldsOfPack(GroupExponent(ws), EncodeLanes(ws));
    forall k | 0 <= k < n
      ensures CanonicalLane(exp, LaneOf(p, k))
    {
      assert ws[k] in ws;
      LaneReencodes(exp, LaneOf(p, k));
    }
    GroupExponentBounds(ws);
    var top :| 0 <= top < n && Exponent(ws[top]) == exp;
    ExponentCarrier(exp, LaneOf(p, top));
  }

  /** What the second encode needs from C, in terms of the packet: a flushed lane (mantissa 0)
      makes the shift as large as the shared exponent. */
  lemma ReencodeDefined(p: bv80, n: nat)
    requires 1 <= n <= 8 && CanonicalPacket(p, n)
    ensures GroupDefined(DecodeGroup(p)[..n]) <==>
              ExponentOf(p) <= 31 || forall k :: 0 <= k < n ==> LaneOf(p, k).man != 0
  {
    hide Exponent, GroupExponent, ExponentOf, LaneOf, DecodeLane, ShiftDefined, CanonicalLane;
    var ws, exp := DecodeGroup(p)[..n], ExponentOf(p);
    var top :| 0 <= top < n && LaneOf(p, top).man >= 0x80;
    ExponentCarrier(exp, LaneOf(p, top));
    DecodedAtMost(p, n);
    GroupExponentIs(ws, exp, top);
    forall k | 0 <= k < n
      ensures ws[k] in ws && (ShiftDefined(exp, ws[k]) <==> exp <= 31 || LaneOf(p, k).man != 0)
    {
      DecodedShiftDefined(exp, LaneOf(p, k));
    }
  }

  lemma DecodedShiftDefined(exp: bv8, lane: Lane)
    ensures ShiftDefined(exp, DecodeLane(exp, lane)) <==> exp <= 31 || lane.man != 0
  {
    hide DecodeLane, Exponent, LeadingZeros;
    DecodedShift(exp, lane);
  }

  lemma EncodedIsCanonical(ws: seq<bv32>)
    requires 1 <= |ws| <= 8 && GroupDefined(ws) && AllRounded(ws)
    ensures CanonicalPacket(EncodeGroup(ws), |ws|)
  {
    hide Exponent, GroupExponent, ExponentOf, LaneOf, EncodeLane, CanonicalLane, ShiftDefined, Pack, IsRounded;
    var exp := GroupExponent(ws);
    FieldsOfPack(exp, EncodeLanes(ws));
    forall k | 0 <= k < |ws|
      ensures CanonicalLane(exp, EncodeLane(exp, ws[k]))
    {
      assert ws[k] in ws;
      EncodedLaneIsCanonical(exp, ws[k]);
    }
    GroupExponentBounds(ws);
    var top :| 0 <= top < |ws| && Exponent(ws[top]) == exp;
    assert ws[top] in ws;
    EncodedTop(exp, ws[top]);
    assert LaneOf(EncodeGroup(ws), top).man >= 0x80;
  }

  lemma EncodedTop(exp: bv8, w: bv32)
    requires IsRounded(w) && Exponent(w) == exp
    ensures EncodeLane(exp, w).man >= 0x80
  {
    hide EncodeLane;
    ExactLane(exp, w);
  }

  lemma EncodedLaneIsCanonical(exp: bv8, w: bv32)
    requires ShiftDefined(exp, w) && IsRounded(w)
    ensures CanonicalLane(exp, EncodeLane(exp, w))
  {
    hide AlignedMantissa, LeadingZeros, Exponent, Shift;
    LaneRoundTrip(exp, w);
    if Shift(exp, w) > 7 {
      FlushedExponent(exp, w);
    }
  }

  lemma FlushedExponent(exp: bv8, w: bv32)
    requires Exponent(w) <= exp && Shift(exp, w) > 7
    ensures exp >= 8
  {
    hide Exponent;
    ShiftNumber(exp, w);
    AtLeastEight(exp, Exponent(w));
  }

  lemma AtLeastEight(exp: bv8, e: bv8)
    requires e <= exp && exp - e > 7
    ensures exp >= 8
  {
  }

  function LiveLanes(n: nat, g: nat): (live: nat)
    requires g < GroupCount(n)
    ensures 1 <= live <= 8
  {
    LiveEnd(8 * g, n) - 8 * g
  }

  lemma GroupOfDecode(b: seq<bv8>, n: nat, g: nat)
    requires |b| == 10 * GroupCount(n) && g < GroupCount(n)
    ensures Group(Decode(b, n), g) == DecodeGroup(PacketAt(b, g))[..LiveLanes(n, g)]
  {
    hide DecodeGroup, PacketAt;
    var group, words := Group(Decode(b, n), g), DecodeGroup(PacketAt(b, g));
    forall k: nat | k < LiveLanes(n, g)
      ensures group[k] == words[k]
    {
      WordsOfDecode(b, GroupCount(n), 8 * g + k);
      assert group[k] == Decode(b, n)[8 * g + k] == DecodeGroups(b, GroupCount(n))[8 * g + k];
      assert (8 * g + k) / 8 == g && (8 * g + k) % 8 == k;
    }
  }

  /** Two packet buffers of the same length are equal when their packets are. */
  lemma SamePackets(b: seq<bv8>, c: seq<bv8>, n: nat)
    requires |b| == |c| == 10 * n
    ensures b == c <==> forall g :: 0 <= g < n ==> PacketAt(b, g) == PacketAt(c, g)
  {
    hide FromBytes;
    if forall g :: 0 <= g < n ==> PacketAt(b, g) == PacketAt(c, g) {
      forall i: nat | i < |b|
        ensures b[i] == c[i]
      {
        SamePacketByte(b, c, i / 10, i % 10);
      }
    }
  }

  lemma SamePacketByte(b: seq<bv8>, c: seq<bv8>, g: nat, k: nat)
    requires 10 * g + 10 <= |b| == |c| && k < 10 && PacketAt(b, g) == PacketAt(c, g)
    ensures b[10 * g + k] == c[10 * g + k]
  {
    hide FromBytes, Bytes;
    var bs, cs := b[10 * g..10 * g + 10], c[10 * g..10 * g + 10];
    FromBytesRoundTrip(bs);
    FromBytesRoundTrip(cs);
    assert bs[k] == cs[k];
  }

  ghost predicate CanonicalBuffer(b: seq<bv8>, n: nat)
    requires |b| == 10 * GroupCount(n)
  {
    forall g :: 0 <= g < GroupCount(n) ==> CanonicalPacket(PacketAt(b, g), LiveLanes(n, g))
  }

  /** Encoding undoes decoding exactly on the canonical buffers, wherever C defines the encode. */
  lemma EncodeUndoesDecode(b: seq<bv8>, n: nat)
    requires |b| == 10 * GroupCount(n) && Defined(Decode(b, n))
    ensures Encode(Decode(b, n)) == b <==> CanonicalBuffer(b, n)
  {
    hide DecodeGroup, EncodeGroup, GroupDefined, PacketAt, CanonicalPacket, Group, LiveLanes, Decode, Encode;
    var ws := Decode(b, n);
    forall g | 0 <= g < GroupCount(n)
      ensures PacketAt(Encode(ws), g) == PacketAt(b, g) <==> CanonicalPacket(PacketAt(b, g), LiveLanes(n, g))
    {
      EncodeStarts(ws);
      PacketsOfEncode(ws, GroupCount(n), g);
      GroupOfDecode(b, n, g);
      var p, live := PacketAt(b, g), LiveLanes(n, g);
      assert GroupDefined(Group(ws, g));
      if CanonicalPacket(p, live) {
        CanonicalReencodes(p, live);
      }
      if EncodeGroup(DecodeGroup(p)[..live]) == p {
        ReencodedIsCanonical(p, live);
      }
    }
    SamePackets(Encode(ws), b, GroupCount(n));
  }

  lemma EncodeIsCanonical(ws: seq<bv32>)
    requires Defined(ws) && AllRounded(ws)
    ensures CanonicalBuffer(Encode(ws), |ws|)
  {
    hide EncodeGroup, GroupDefined, PacketAt, CanonicalPacket, IsRounded;
    forall g | 0 <= g < GroupCount(|ws|)
      ensures CanonicalPacket(PacketAt(Encode(ws), g), LiveLanes(|ws|, g))
    {
      PacketsOfEncode(ws, GroupCount(|ws|), g);
      assert forall w <- Group(ws, g) :: w in ws;
      EncodedIsCanonical(Group(ws, g));
    }
  }

  /** Encoding is a fixpoint of one more decode and encode, whenever C defines the second encode. */
  lemma CodecFixpoint(ws: seq<bv32>)
    requires Defined(ws) && AllRounded(ws) && Defined(Decode(Encode(ws), |ws|))
    ensures Encode(Decode(Encode(ws), |ws|)) == Encode(ws)
  {
    hide *;
    EncodeIsCanonical(ws);
    EncodeUndoesDecode(Encode(ws), |ws|);
  }

  /** The shift leaves at least one mantissa bit. */
  predicate NotFlushed(exp: bv8, w: bv32) { exp - Exponent(w) <= 7 }

  predicate NoneFlushed(group: seq<bv32>) {
    forall w <- group :: NotFlushed(GroupExponent(group), w)
  }

  /** C defines the second encode exactly when every group either has an exponent of at most 31
      or flushed no lane (all its shifts are at most 7). */
  lemma SecondEncodeDefined(ws: seq<bv32>)
    requires Defined(ws) && AllRounded(ws)
    ensures Defined(Decode(Encode(ws), |ws|)) <==>
              forall g :: 0 <= g < GroupCount(|ws|) ==>
                GroupExponent(Group(ws, g)) <= 31 || NoneFlushed(Group(ws, g))
  {
    hide NoneFlushed, DecodeGroup, EncodeGroup, GroupDefined, PacketAt, CanonicalPacket, Group, GroupExponent, Exponent, IsRounded, Decode, Encode;
    var b := Encode(ws);
    forall g | 0 <= g < GroupCount(|ws|)
      ensures GroupDefined(Group(Decode(b, |ws|), g)) <==>
                GroupExponent(Group(ws, g)) <= 31 || NoneFlushed(Group(ws, g))
    {
      EncodeStarts(ws);
      PacketsOfEncode(ws, GroupCount(|ws|), g);
      GroupOfDecode(b, |ws|, g);
      GroupIsRounded(ws, g);
      assert GroupDefined(Group(ws, g));
      SecondGroupDefined(Group(ws, g));
    }
  }

  lemma GroupIsRounded(ws: seq<bv32>, g: nat)
    requires g < GroupCount(|ws|) && AllRounded(ws)
    ensures AllRounded(Group(ws, g)) && |Group(ws, g)| == LiveLanes(|ws|, g)
  {
    hide IsRounded;
    assert forall w <- Group(ws, g) :: w in ws;
  }

  lemma SecondGroupDefined(group: seq<bv32>)
    requires 1 <= |group| <= 8 && GroupDefined(group) && AllRounded(group)
    ensures GroupDefined(DecodeGroup(EncodeGroup(group))[..|group|]) <==> GroupExponent(group) <= 31 || NoneFlushed(group)
  {
    hide *;
    EncodedIsCanonical(group);
    ReencodeDefined(EncodeGroup(group), |group|);
    ExponentOfEncoded(group);
    FlushedLanes(group);
  }

  lemma ExponentOfEncoded(group: seq<bv32>)
    requires |group| <= 8 && GroupDefined(group)
    ensures ExponentOf(EncodeGroup(group)) == GroupExponent(group)
  {
    hide GroupExponent, EncodeLanes, Pack, ExponentOf;
    FieldsOfPack(GroupExponent(group), EncodeLanes(group));
  }

  lemma FlushedLanes(group: seq<bv32>)
    requires |group| <= 8 && GroupDefined(group) && AllRounded(group)
    ensures (forall k :: 0 <= k < |group| ==> LaneOf(EncodeGroup(group), k).man != 0) <==> NoneFlushed(group)
  {
    hide GroupExponent, Exponent, EncodeLane, Pack, ExponentOf, LaneOf, IsRounded, ShiftDefined, NotFlushed;
    var exp := GroupExponent(group);
    FieldsOfPack(exp, EncodeLanes(group));
    forall k | 0 <= k < |group|
      ensures group[k] in group && (LaneOf(EncodeGroup(group), k).man != 0 <==> NotFlushed(exp, group[k]))
    {
      FlushedLane(exp, group[k]);
    }
  }

  lemma FlushedLane(exp: bv8, w: bv32)
    requires ShiftDefined(exp, w) && IsRounded(w)
    ensures EncodeLane(exp, w).man != 0 <==> NotFlushed(exp, w)
  {
    hide EncodeLane, Exponent, Shift, RoundTripped, DecodeLane;
    LaneRoundTrip(exp, w);
    ShiftNumber(exp, w);
  }
}
