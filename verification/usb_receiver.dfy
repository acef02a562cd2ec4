/** What a device makes of the packets on its out pipe. It accepts a header only when it is idle,
    collects as many bytes as the header announces, and is idle again only after the closing command
    and an empty packet; anything else makes it fail for good. */
module UsbReceiver {
  import opened LittleEndian

  datatype Item =
    | Firmware(image: seq<Byte>)
    | Model(image: seq<Byte>)
    | ChipId(chip: Word)
    | Settings(data: seq<Byte>)
    | Address(address: Word)
    | WeightData(data: seq<Byte>)

  /** The kinds of headers, by their first word. */
  datatype Kind = ForFirmware | ForModel | ForChip | ForConfiguration | ForAddress | ForWeights | Unknown

  datatype Mode = Idle | Open(kind: Kind, left: nat, got: seq<Byte>) | Closing(item: Item) | Failed

  /** A device and what it has received completely. */
  datatype Receiver = Receiver(mode: Mode, items: seq<Item>)

  function KindOf(id: Word): Kind {
    if id == 0x952701 then ForFirmware
    else if id == 0x952702 then ForModel
    else if id == 0x952705 then ForChip
    else if id == 0x952706 then ForConfiguration
    else if id == 0x952707 then ForAddress
    else if id == 0x952708 then ForWeights
    else Unknown
  }

  /** Chip ids and addresses are one word. */
  predicate Announces(kind: Kind, size: nat) { kind != Unknown && (kind == ForChip || kind == ForAddress ==> size == 4) }

  function ItemOf(kind: Kind, got: seq<Byte>): Item
    requires Announces(kind, |got|)
  {
    match kind
    case ForFirmware => Firmware(got)
    case ForModel => Model(got)
    case ForChip => ChipId(WordAt(got, 0))
    case ForConfiguration => Settings(got)
    case ForAddress => Address(WordAt(got, 0))
    case ForWeights => WeightData(got)
  }

  function Take(r: Receiver, packet: seq<Byte>): Receiver {
    match r.mode
    case Idle =>
      if |packet| == 8 && Announces(KindOf(WordAt(packet, 0)), WordAt(packet, 4)) then
        r.(mode := Open(KindOf(WordAt(packet, 0)), WordAt(packet, 4), []))
      else r.(mode := Failed)
    case Open(kind, left, got) =>
      if 0 < |packet| <= left then r.(mode := Open(kind, left - |packet|, got + packet))
      else if left == 0 && packet == [0x00, 0x27, 0x95, 0x00, 0x00, 0x00, 0x00, 0x00] && Announces(kind, |got|) then
        r.(mode := Closing(ItemOf(kind, got)))
      else r.(mode := Failed)
    case Closing(item) =>
      if packet == [] then Receiver(Idle, r.items + [item]) else r.(mode := Failed)
    case Failed => r
  }

  function Receive(r: Receiver, packets: seq<seq<Byte>>): Receiver
    decreases |packets|
  {
    if packets == [] then r else Receive(Take(r, packets[0]), packets[1..])
  }

  const START := Receiver(Idle, [])

  lemma {:induction false} ReceiveAppend(r: Receiver, a: seq<seq<Byte>>, b: seq<seq<Byte>>)
    ensures Receive(r, a + b) == Receive(Receive(r, a), b)
    decreases |a|
  {
    hide Take;
    if a == [] {
      assert a + b == b;
    } else {
      assert (a + b)[1..] == a[1..] + b;
      ReceiveAppend(Take(r, a[0]), a[1..], b);
    }
  }

  lemma ReceiveOne(r: Receiver, packet: seq<Byte>)
    ensures Receive(r, [packet]) == Take(r, packet)
  {
    hide Take;
    assert [packet][1..] == [];
    assert Receive(Take(r, packet), []) == Take(r, packet);
  }
}
