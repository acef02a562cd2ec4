/** gbf_encode: groups of up to eight floats become ten-byte packets; the specification of
    both directions, and the loops that meet it. */
module GbfCodec {
  import opened Float32
  import opened GbfLane
  import opened GbfPacket
  import opened Slices

  // ----- one group

  function Max(x: bv8, y: bv8): bv8 { if x > y then x else y }

  function GroupExponent(ws: seq<bv32>): bv8 {
    if |ws| == 0 then 0 else Max(GroupExponent(ws[..|ws| - 1]), Exponent(ws[|ws| - 1]))
  }

  /** C defines every shift the encoder performs on the group. */
  predicate GroupDefined(ws: seq<bv32>) {
    forall w <- ws :: ShiftDefined(GroupExponent(ws), w)
  }

  function EncodeLanes(ws: seq<bv32>): (lanes: seq<Lane>)
    requires |ws| <= 8 && GroupDefined(ws)
    ensures |lanes| == 8
  {
    seq(8, k requires 0 <= k < 8 => if k < |ws| then EncodeLane(GroupExponent(ws), ws[k]) else ZERO_LANE)
  }

  function EncodeGroup(ws: seq<bv32>): bv80
    requires |ws| <= 8 && GroupDefined(ws)
  {
    Pack(GroupExponent(ws), EncodeLanes(ws))
  }

  function DecodeGroup(p: bv80): (ws: seq<bv32>)
    ensures |ws| == 8
  {
    seq(8, k requires 0 <= k < 8 => DecodeLane(ExponentOf(p), LaneOf(p, k)))
  }

  // ----- buffers

  function GroupCount(n: nat): nat { (n + 7) / 8 }

  /** Where the live lanes of a group end: the bound tests of every lane in one. */
  function LiveEnd(offset: nat, length: nat): nat {
    if offset + 8 <= length then offset + 8 else length
  }

  function Group(ws: seq<bv32>, g: nat): (group: seq<bv32>)
    requires g < GroupCount(|ws|)
    ensures 1 <= |group| <= 8
  {
    ws[8 * g..LiveEnd(8 * g, |ws|)]
  }

  predicate Defined(ws: seq<bv32>) {
    forall g :: 0 <= g < GroupCount(|ws|) ==> GroupDefined(Group(ws, g))
  }

  function EncodeGroups(ws: seq<bv32>, n: nat): (b: seq<bv8>)
    requires Defined(ws) && n <= GroupCount(|ws|)
    ensures |b| == 10 * n
  {
    if n == 0 then [] else EncodeGroups(ws, n - 1) + Bytes(EncodeGroup(Group(ws, n - 1)))
  }

  /** What gbf_encode leaves in the packet buffer for a buffer of rounded words. */
  function Encode(ws: seq<bv32>): (b: seq<bv8>)
    requires Defined(ws)
    ensures |b| == 10 * GroupCount(|ws|)
  {
    EncodeGroups(ws, GroupCount(|ws|))
  }

  function PacketAt(b: seq<bv8>, g: nat): bv80
    requires 10 * g + 10 <= |b|
  {
    FromBytes(b[10 * g..10 * g + 10])
  }

  function DecodeGroups(b: seq<bv8>, n: nat): (ws: seq<bv32>)
    requires 10 * n <= |b|
    ensures |ws| == 8 * n
  {
    if n == 0 then [] else DecodeGroups(b, n - 1) + DecodeGroup(PacketAt(b, n - 1))
  }

  /** What gbf_decode writes for a requested number of floats. */
  function Decode(b: seq<bv8>, length: nat): (ws: seq<bv32>)
    requires 10 * GroupCount(length) <= |b|
    ensures |ws| == length
  {
    DecodeGroups(b, GroupCount(length))[..length]
  }

  // ----- the loops of gbf_encode

  method RoundGroup(flt32: array<bv32>, base: nat, offset: nat, length: nat)
    requires offset < length && base + length <= flt32.Length
    modifies flt32
    ensures forall j :: base + offset <= j < base + LiveEnd(offset, length) ==> flt32[j] == Round16(old(flt32[j]))
    ensures forall j :: 0 <= j < flt32.Length && !(base + offset <= j < base + LiveEnd(offset, length)) ==>
              flt32[j] == old(flt32[j])
  {
    hide Round16;
    ghost var lo, hi := base + offset, base + LiveEnd(offset, length);
    for i := 0 to 8
      invariant forall j :: lo <= j < hi && j < lo + i ==> flt32[j] == Round16(old(flt32[j]))
      invariant forall j :: 0 <= j < flt32.Length && !(lo <= j < hi && j < lo + i) ==> flt32[j] == old(flt32[j])
    {
      if offset + i < length {
        flt32[base + offset + i] := Round16(flt32[base + offset + i]);
      }
    }
  }

  method MaxExponent(flt32: array<bv32>, base: nat, offset: nat, length: nat) returns (exp: bv8)
    requires offset < length && base + length <= flt32.Length
    ensures exp == GroupExponent(flt32[base + offset..base + LiveEnd(offset, length)])
  {
    exp := 0;
    for i := 0 to 8
      invariant exp == GroupExponent(flt32[base + offset..base + if offset + i <= length then offset + i else length])
    {
      if offset + i < length {
        var now := flt32[base + offset..base + offset + i + 1];
        assert now[..|now| - 1] == flt32[base + offset..base + offset + i];
        exp := Max(exp, Exponent(flt32[base + offset + i]));
      }
    }
  }

  /** Loads the ten bytes a bit-field store works on. */
  method LoadPacket(gbf80: array<bv8>, at: nat) returns (p: bv80)
    requires at + 10 <= gbf80.Length
    ensures p == FromBytes(gbf80[at..at + 10])
  {
    p := FromBytes(gbf80[at..at + 10]);
  }

  method SavePacket(gbf80: array<bv8>, at: nat, p: bv80)
    requires at + 10 <= gbf80.Length
    modifies gbf80
    ensures forall j :: 0 <= j < gbf80.Length ==>
              gbf80[j] == if at <= j < at + 10 then Bytes(p)[j - at] else old(gbf80[j])
  {
    hide ByteAt;
    var bytes := Bytes(p);
    for i := 0 to 10
      invariant forall j :: 0 <= j < gbf80.Length ==>
                  gbf80[j] == if at <= j < at + i then bytes[j - at] else old(gbf80[j])
    {
      gbf80[at + i] := bytes[i];
    }
  }

  /** The eight bit-field blocks of one iteration, run over k. */
  method StoreGroup(flt32: array<bv32>, base: nat, offset: nat, length: nat, exp: bv8, gbf80: array<bv8>, at: nat)
    requires offset < length && base + length <= flt32.Length && at + 10 <= gbf80.Length
    requires var ws := flt32[base + offset..base + LiveEnd(offset, length)];
             GroupDefined(ws) && exp == GroupExponent(ws)
    modifies gbf80
    ensures var ws := flt32[base + offset..base + LiveEnd(offset, length)];
            forall j :: 0 <= j < gbf80.Length ==>
              gbf80[j] == if at <= j < at + 10 then Bytes(EncodeGroup(ws))[j - at] else old(gbf80[j])
  {
    hide FromBytes, Bytes, SetLane, SetExponent, Pack, EncodeLane, ShiftDefined, GroupExponent;
    ghost var ws := flt32[base + offset..base + LiveEnd(offset, length)];
    ghost var lanes := EncodeLanes(ws);
    var p := LoadPacket(gbf80, at);
    ghost var before := p;
    p := SetExponent(p, exp);
    for k := 0 to 8
      invariant p == SetLanes(SetExponent(before, exp), lanes, k)
    {
      if offset + k < length {
        assert flt32[base + offset + k] == ws[k] && ws[k] in ws;
        p := SetLane(p, k, EncodeLane(exp, flt32[base + offset + k]));
      } else {
        p := SetLane(p, k, Lane(0, 0));
      }
    }
    StoresMakePacket(before, exp, lanes);
    SavePacket(gbf80, at, p);
  }

  /** A source buffer whose first n words are rounded. */
  function RoundFirst(ws: seq<bv32>, n: nat): (r: seq<bv32>)
    ensures |r| == |ws|
  {
    seq(|ws|, j requires 0 <= j < |ws| => if j < n then Round16(ws[j]) else ws[j])
  }

  /** One iteration of the encoder's loop, on group g of the source words. */
  method EncodeStep(flt32: array<bv32>, base: nat, offset: nat, length: nat, gbf80: array<bv8>, at: nat,
                    ghost source: seq<bv32>, ghost g: nat)
    requires offset == 8 * g < length == |source| && base + length <= flt32.Length && at + 10 <= gbf80.Length
    requires flt32[base..base + length] == RoundFirst(source, offset)
    requires GroupDefined(Group(RoundAll(source), g))
    modifies flt32, gbf80
    ensures flt32[base..base + length] == RoundFirst(source, offset + 8)
    ensures gbf80[at..at + 10] == Bytes(EncodeGroup(Group(RoundAll(source), g)))
    ensures forall j :: 0 <= j < flt32.Length && !(base <= j < base + length) ==> flt32[j] == old(flt32[j])
    ensures forall j :: 0 <= j < gbf80.Length && !(at <= j < at + 10) ==> gbf80[j] == old(gbf80[j])
  {
    hide Round16, GroupDefined, EncodeGroup, GroupExponent, Bytes;
    ghost var before := flt32[base..base + length];
    RoundGroup(flt32, base, offset, length);
    ghost var now := flt32[base..base + length];
    forall j: nat | j < length
      ensures now[j] == RoundFirst(source, offset + 8)[j]
    {
      assert before[j] == old(flt32[base + j]);
    }
    assert now == RoundFirst(source, offset + 8);
    assert now[offset..LiveEnd(offset, length)] == Group(RoundAll(source), g);
    SliceOfSlice(flt32[..], base, length, offset, LiveEnd(offset, length));
    var exp := MaxExponent(flt32, base, offset, length);
    StoreGroup(flt32, base, offset, length, exp, gbf80, at);
  }

  lemma RoundFirstEnds(ws: seq<bv32>)
    ensures RoundFirst(ws, 0) == ws
    ensures forall n: nat :: n >= |ws| ==> RoundFirst(ws, n) == RoundAll(ws)
  {
    hide Round16;
  }

  lemma EncodeStarts(ws: seq<bv32>)
    requires Defined(ws)
    ensures EncodeGroups(ws, 0) == []
    ensures Encode(ws) == EncodeGroups(ws, GroupCount(|ws|))
  {
  }

  lemma EncodeNext(ws: seq<bv32>, g: nat)
    requires Defined(ws) && g < GroupCount(|ws|)
    ensures GroupDefined(Group(ws, g))
    ensures EncodeGroups(ws, g + 1) == EncodeGroups(ws, g) + Bytes(EncodeGroup(Group(ws, g)))
  {
    hide Bytes, EncodeGroup, GroupDefined;
  }

  /** The group loop of gbf_encode. */
  method EncodeGroupwise(flt32: array<bv32>, base: nat, gbf80: array<bv8>, at: nat, length: nat)
    requires base + length <= flt32.Length && at + 10 * GroupCount(length) <= gbf80.Length
    requires Defined(RoundAll(flt32[base..base + length]))
    modifies flt32, gbf80
    ensures flt32[base..base + length] == RoundAll(old(flt32[base..base + length]))
    ensures gbf80[at..at + 10 * GroupCount(length)] == Encode(RoundAll(old(flt32[base..base + length])))
    ensures forall j :: 0 <= j < flt32.Length && !(base <= j < base + length) ==> flt32[j] == old(flt32[j])
    ensures forall j :: 0 <= j < gbf80.Length && !(at <= j < at + 10 * GroupCount(length)) ==> gbf80[j] == old(gbf80[j])
  {
    hide Round16, RoundAll, RoundFirst, GroupDefined, EncodeGroup, Bytes, Group, EncodeGroups, Encode;
    ghost var source := flt32[base..base + length];
    ghost var rounded := RoundAll(source);
    ghost var g := 0;
    var gbf80Offset, flt32Offset := 0, 0;
    RoundFirstEnds(source);
    EncodeStarts(rounded);
    while flt32Offset < length
      invariant flt32Offset == 8 * g && gbf80Offset == 10 * g && g <= GroupCount(length)
      invariant flt32[base..base + length] == RoundFirst(source, flt32Offset)
      invariant gbf80[at..at + gbf80Offset] == EncodeGroups(rounded, g)
      invariant forall j :: 0 <= j < flt32.Length && !(base <= j < base + length) ==> flt32[j] == old(flt32[j])
      invariant forall j :: 0 <= j < gbf80.Length && !(at <= j < at + gbf80Offset) ==> gbf80[j] == old(gbf80[j])
    {
      ghost var before := gbf80[..];
      EncodeNext(rounded, g);
      EncodeStep(flt32, base, flt32Offset, length, gbf80, at + gbf80Offset, source, g);
      Appended(before, gbf80[..], at, gbf80Offset, 10, EncodeGroups(rounded, g), Bytes(EncodeGroup(Group(rounded, g))));
      gbf80Offset := gbf80Offset + 10;
      flt32Offset := flt32Offset + 8;
      g := g + 1;
    }
  }

  /** gbf_encode on the words flt32[base..base + length] and the bytes from gbf80[at] on. The
      precondition is what C asks for: no shift of 32 or more on the rounded words. */
  method GbfEncode(flt32: array<bv32>, base: nat, gbf80: array<bv8>, at: nat, length: int)
    requires 0 < length ==> base + length <= flt32.Length && at + 10 * GroupCount(length) <= gbf80.Length
    requires 0 < length ==> Defined(RoundAll(flt32[base..base + length]))
    modifies flt32, gbf80
    ensures length <= 0 ==> flt32[..] == old(flt32[..]) && gbf80[..] == old(gbf80[..])
    ensures 0 < length ==>
              && flt32[base..base + length] == RoundAll(old(flt32[base..base + length]))
              && gbf80[at..at + 10 * GroupCount(length)] == Encode(RoundAll(old(flt32[base..base + length])))
    ensures 0 < length ==>
              && (forall j :: 0 <= j < flt32.Length && !(base <= j < base + length) ==> flt32[j] == old(flt32[j]))
              && (forall j :: 0 <= j < gbf80.Length && !(at <= j < at + 10 * GroupCount(length)) ==> gbf80[j] == old(gbf80[j]))
  {
    if 0 < length {
      EncodeGroupwise(flt32, base, gbf80, at, length);
    }
  }
}
