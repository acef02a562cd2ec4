/** The 80-bit GBF80 packet: MemxGbfGbf80Map as a little-endian layout of ten bytes. */
module GbfPacket {
  import opened GbfLane

  /** Assigning a bit-field: width bits (given as their mask) at bit position lo. */
  function SetField(p: bv80, lo: bv7, mask: bv80, v: bv80): bv80
    requires lo <= 80
  {
    (p & !(mask << lo)) | ((v & mask) << lo)
  }

  function ByteAt(p: bv80, lo: bv7): bv8
    requires lo <= 80
  {
    ((p >> lo) & 0xFF) as bv8
  }

  function BitAt(p: bv80, lo: bv7): bv1
    requires lo <= 80
  {
    ((p >> lo) & 1) as bv1
  }

  function SetExponent(p: bv80, exp: bv8): bv80 { SetField(p, 72, 0xFF, exp as bv80) }

  /** The two (for lanes 3 and 7: three) bit-field assignments of one lane. */
  function SetLane(p: bv80, k: nat, lane: Lane): bv80
    requires k < 8
  {
    var m, s := lane.man as bv80, lane.sign as bv80;
    match k
    case 0 => SetField(SetField(p, 0, 0xFF, m), 8, 1, s)
    case 1 => SetField(SetField(p, 9, 0xFF, m), 17, 1, s)
    case 2 => SetField(SetField(p, 18, 0xFF, m), 26, 1, s)
    case 3 => SetField(SetField(SetField(p, 27, 0x1F, m & 0x1F), 32, 7, (m >> 5) & 7), 35, 1, s)
    case 4 => SetField(SetField(p, 36, 0xFF, m), 44, 1, s)
    case 5 => SetField(SetField(p, 45, 0xFF, m), 53, 1, s)
    case 6 => SetField(SetField(p, 54, 0xFF, m), 62, 1, s)
    case 7 => SetField(SetField(SetField(p, 63, 1, m & 1), 64, 0x7F, (m >> 1) & 0x7F), 71, 1, s)
  }

  /** The assignments of the first n lanes, in program order. */
  function SetLanes(p: bv80, lanes: seq<Lane>, n: nat): bv80
    requires n <= |lanes| == 8
  {
    if n == 0 then p else SetLane(SetLanes(p, lanes, n - 1), n - 1, lanes[n - 1])
  }

  function ExponentOf(p: bv80): bv8 { ByteAt(p, 72) }

  /** The lane's nine bits sit at bit 9k: eight mantissa bits, then the sign. */
  function LaneOf(p: bv80, k: nat): Lane
    requires k < 8
  {
    match k
    case 0 => Lane(ByteAt(p, 0), BitAt(p, 8))
    case 1 => Lane(ByteAt(p, 9), BitAt(p, 17))
    case 2 => Lane(ByteAt(p, 18), BitAt(p, 26))
    case 3 => Lane(ByteAt(p, 27), BitAt(p, 35))
    case 4 => Lane(ByteAt(p, 36), BitAt(p, 44))
    case 5 => Lane(ByteAt(p, 45), BitAt(p, 53))
    case 6 => Lane(ByteAt(p, 54), BitAt(p, 62))
    case 7 => Lane(ByteAt(p, 63), BitAt(p, 71))
  }

  function Lane9(lane: Lane): bv80 { (lane.man as bv80) | ((lane.sign as bv80) << 8) }

  /** The packet that holds a given exponent and eight given lanes. */
  function Pack(exp: bv8, lanes: seq<Lane>): bv80
    requires |lanes| == 8
  {
    Lane9(lanes[0]) | (Lane9(lanes[1]) << 9) | (Lane9(lanes[2]) << 18) | (Lane9(lanes[3]) << 27)
    | (Lane9(lanes[4]) << 36) | (Lane9(lanes[5]) << 45) | (Lane9(lanes[6]) << 54) | (Lane9(lanes[7]) << 63)
    | ((exp as bv80) << 72)
  }

  /** The bits that are final once the exponent and the lanes before k are stored. */
  function Written(k: nat): bv80
    requires k <= 8
  {
    match k
    case 0 => 0xFF00_0000_0000_0000_0000
    case 1 => 0xFF00_0000_0000_0000_01FF
    case 2 => 0xFF00_0000_0000_0003_FFFF
    case 3 => 0xFF00_0000_0000_07FF_FFFF
    case 4 => 0xFF00_0000_000F_FFFF_FFFF
    case 5 => 0xFF00_0000_1FFF_FFFF_FFFF
    case 6 => 0xFF00_003F_FFFF_FFFF_FFFF
    case 7 => 0xFF00_7FFF_FFFF_FFFF_FFFF
    case 8 => 0xFFFF_FFFF_FFFF_FFFF_FFFF
  }

  predicate Agree(p: bv80, q: bv80, k: nat)
    requires k <= 8
  {
    p & Written(k) == q & Written(k)
  }

  lemma StoreLane0(p: bv80, q: bv80)
    requires Agree(p, q, 0)
    ensures Agree(SetLane(p, 0, LaneOf(q, 0)), q, 1)
  {
  }

  lemma StoreLane1(p: bv80, q: bv80)
    requires Agree(p, q, 1)
    ensures Agree(SetLane(p, 1, LaneOf(q, 1)), q, 2)
  {
  }

  lemma StoreLane2(p: bv80, q: bv80)
    requires Agree(p, q, 2)
    ensures Agree(SetLane(p, 2, LaneOf(q, 2)), q, 3)
  {
  }

  lemma StoreLane3(p: bv80, q: bv80)
    requires Agree(p, q, 3)
    ensures Agree(SetLane(p, 3, LaneOf(q, 3)), q, 4)
  {
  }

  lemma StoreLane4(p: bv80, q: bv80)
    requires Agree(p, q, 4)
    ensures Agree(SetLane(p, 4, LaneOf(q, 4)), q, 5)
  {
  }

  lemma StoreLane5(p: bv80, q: bv80)
    requires Agree(p, q, 5)
    ensures Agree(SetLane(p, 5, LaneOf(q, 5)), q, 6)
  {
  }

  lemma StoreLane6(p: bv80, q: bv80)
    requires Agree(p, q, 6)
    ensures Agree(SetLane(p, 6, LaneOf(q, 6)), q, 7)
  {
  }

  lemma StoreLane7(p: bv80, q: bv80)
    requires Agree(p, q, 7)
    ensures Agree(SetLane(p, 7, LaneOf(q, 7)), q, 8)
  {
  }

  lemma StoreLane(p: bv80, q: bv80, k: nat)
    requires k < 8 && Agree(p, q, k)
    ensures Agree(SetLane(p, k, LaneOf(q, k)), q, k + 1)
  {
    hide *;
    match k {
      case 0 => StoreLane0(p, q);
      case 1 => StoreLane1(p, q);
      case 2 => StoreLane2(p, q);
      case 3 => StoreLane3(p, q);
      case 4 => StoreLane4(p, q);
      case 5 => StoreLane5(p, q);
      case 6 => StoreLane6(p, q);
      case 7 => StoreLane7(p, q);
    }
  }

  lemma StoreExponent(p: bv80, exp: bv8, lanes: seq<Lane>)
    requires |lanes| == 8
    ensures Agree(SetExponent(p, exp), Pack(exp, lanes), 0)
  {
  }

  lemma {:induction false} StorePrefix(p: bv80, exp: bv8, lanes: seq<Lane>, k: nat)
    requires |lanes| == 8 && k <= 8
    ensures Agree(SetLanes(SetExponent(p, exp), lanes, k), Pack(exp, lanes), k)
  {
    hide Agree, Pack, SetLane, SetExponent, LaneOf;
    FieldsOfPack(exp, lanes);
    if k == 0 {
      StoreExponent(p, exp, lanes);
    } else {
      StorePrefix(p, exp, lanes, k - 1);
      var q := SetLanes(SetExponent(p, exp), lanes, k - 1);
      var r := Pack(exp, lanes);
      assert LaneOf(r, k - 1) == lanes[k - 1];
      StoreLane(q, r, k - 1);
    }
  }

  /** Whatever the ten bytes held before, the assignments leave exactly the packet. */
  lemma StoresMakePacket(p: bv80, exp: bv8, lanes: seq<Lane>)
    requires |lanes| == 8
    ensures SetLanes(SetExponent(p, exp), lanes, 8) == Pack(exp, lanes)
  {
    hide *;
    StorePrefix(p, exp, lanes, 8);
    AllWritten(SetLanes(SetExponent(p, exp), lanes, 8), Pack(exp, lanes));
  }

  lemma AllWritten(p: bv80, q: bv80)
    requires Agree(p, q, 8)
    ensures p == q
  {
  }

  lemma FieldsOfPack(exp: bv8, lanes: seq<Lane>)
    requires |lanes| == 8
    ensures ExponentOf(Pack(exp, lanes)) == exp
    ensures forall k :: 0 <= k < 8 ==> LaneOf(Pack(exp, lanes), k) == lanes[k]
  {
    hide *;
    LowLanesOfPack(exp, lanes);
    HighLanesOfPack(exp, lanes);
    ExponentOfPack(exp, lanes);
  }

  lemma ExponentOfPack(exp: bv8, lanes: seq<Lane>)
    requires |lanes| == 8
    ensures ExponentOf(Pack(exp, lanes)) == exp
  {
  }

  lemma LowLanesOfPack(exp: bv8, lanes: seq<Lane>)
    requires |lanes| == 8
    ensures var p := Pack(exp, lanes);
            LaneOf(p, 0) == lanes[0] && LaneOf(p, 1) == lanes[1] && LaneOf(p, 2) == lanes[2] && LaneOf(p, 3) == lanes[3]
  {
  }

  lemma HighLanesOfPack(exp: bv8, lanes: seq<Lane>)
    requires |lanes| == 8
    ensures var p := Pack(exp, lanes);
            LaneOf(p, 4) == lanes[4] && LaneOf(p, 5) == lanes[5] && LaneOf(p, 6) == lanes[6] && LaneOf(p, 7) == lanes[7]
  {
  }

  lemma PackOfFields(p: bv80)
    ensures Pack(ExponentOf(p), seq(8, k requires 0 <= k < 8 => LaneOf(p, k))) == p
  {
  }

  // ----- the ten bytes

  function Bytes(p: bv80): (b: seq<bv8>)
    ensures |b| == 10
  {
    [ByteAt(p, 0), ByteAt(p, 8), ByteAt(p, 16), ByteAt(p, 24), ByteAt(p, 32),
     ByteAt(p, 40), ByteAt(p, 48), ByteAt(p, 56), ByteAt(p, 64), ByteAt(p, 72)]
  }

  function FromBytes(b: seq<bv8>): bv80
    requires |b| == 10
  {
    (b[0] as bv80) | (b[1] as bv80 << 8) | (b[2] as bv80 << 16) | (b[3] as bv80 << 24) | (b[4] as bv80 << 32)
    | (b[5] as bv80 << 40) | (b[6] as bv80 << 48) | (b[7] as bv80 << 56) | (b[8] as bv80 << 64) | (b[9] as bv80 << 72)
  }

  lemma BytesRoundTrip(p: bv80)
    ensures FromBytes(Bytes(p)) == p
  {
  }

  lemma FromBytesRoundTrip(b: seq<bv8>)
    requires |b| == 10
    ensures Bytes(FromBytes(b)) == b
  {
  }
}
