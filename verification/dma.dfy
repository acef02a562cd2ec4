/** The plan of memx_dma_transfer_mb and of its caller's two-channel split: what the linked
    descriptors and the register writes of a transfer should be. */
module Dma {
  import opened DmaDevice
  import opened LittleEndian

  /** SB_SIZE: bytes per descriptor. */
  const SLICE := 0x4000
  const CHANNELS := 2
  const CHIPS := 16
  /** MEXM_DMA_DESC_BLKSZ is 2 KB: 32 descriptors of 64 bytes for each chip and channel. */
  const BLOCK := 32
  /** Bus address of the first descriptor: the firmware logs come before it. */
  const TABLE := 0x5800_0000 + 0x10_0000 + 4 * 0x1_0000 + 12 * 0x8000

  const CONTROL: bv64 := 0x840F_87C0_000C_D205
  const LAST: bv64 := 0x4000_0000_0000_0000

  /** The index of a block's descriptor in the table. */
  function Slot(chip: nat, ch: nat, i: nat): nat { 2 * BLOCK * chip + BLOCK * ch + i }

  /** MEMX_DMA_DESC_CHIPADDR. */
  function BusAddress(chip: nat, ch: nat, i: nat): int { TABLE + ch * 0x800 + i * 64 + chip * 2 * 0x800 }

  lemma AddressOfSlot(chip: nat, ch: nat, i: nat)
    ensures BusAddress(chip, ch, i) == TABLE + 64 * Slot(chip, ch, i)
  {
  }

  lemma AddressFits(chip: nat, ch: nat)
    requires chip < CHIPS && ch < CHANNELS
    ensures 0 <= BusAddress(chip, ch, 0) < 0x1_0000_0000
  {
  }

  function Sum32(a: Word, b: nat): Word { (a + b) % 0x1_0000_0000 }

  function Count(size: nat): nat { (size + SLICE - 1) / SLICE }

  /** The bytes of the i-th slice. */
  function SliceSize(size: nat, i: nat): nat
    requires i < Count(size)
  {
    if size - i * SLICE > SLICE then SLICE else size - i * SLICE
  }

  /** The word count less one, in 32 bits: a slice of under four bytes counts 2^32 words. */
  function BlockTs(slice: nat): Word { (slice / 4 - 1) % 0x1_0000_0000 }

  /** What the i-th descriptor of a transfer should be. */
  function Planned(chip: nat, ch: nat, src: Word, dst: Word, size: nat, i: nat): Descriptor
    requires i < Count(size)
  {
    var last := i == Count(size) - 1;
    Descriptor(Sum32(src, i * SLICE), Sum32(dst, i * SLICE), BlockTs(SliceSize(size, i)),
               if last then 0 else BusAddress(chip, ch, i + 1), if last then CONTROL | LAST else CONTROL, 0, 0, 0)
  }

  /** Channel registers are 0x100 apart. */
  function ChannelRegister(ch: nat, offset: nat): nat { 0x2004_0000 + 0x100 * ch + offset }

  /** The registers written before the descriptors are built. */
  function Setup(chip: nat, ch: nat, memory: seq<Descriptor>): (r: seq<Event>)
    requires chip < CHIPS && ch < CHANNELS
    ensures |r| == 5
  {
    [Event(chip, ChannelRegister(ch, 0x190), 0xFFFF_FFFE, memory),
     Event(chip, 0x2004_0010, 3, memory),
     Event(chip, ChannelRegister(ch, 0x120), 0xF, memory),
     Event(chip, ChannelRegister(ch, 0x124), 0x7F82_0018, memory),
     Event(chip, ChannelRegister(ch, 0x128), BusAddress(chip, ch, 0), memory)]
  }

  /** The write that starts the channel, with the chain in memory. */
  function Enable(chip: nat, ch: nat, memory: seq<Descriptor>): Event
    requires ch < CHANNELS
  {
    Event(chip, 0x2004_0018, if ch == 0 then 0x101 else 0x202, memory)
  }

  /** The same writes, whatever was in memory. */
  predicate SameWrites(a: seq<Event>, b: seq<Event>) {
    |a| == |b| && forall i :: 0 <= i < |a| ==> a[i].(memory := []) == b[i].(memory := [])
  }

  /** The whole of a block's chain is in the table. */
  predicate Built(table: seq<Descriptor>, chip: nat, ch: nat, src: Word, dst: Word, size: nat) {
    && Slot(chip, ch, Count(size)) <= |table|
    && forall i: nat :: i < Count(size) ==> table[Slot(chip, ch, i)] == Planned(chip, ch, src, dst, size, i)
  }

  const SOURCE: Word := 0x5808_0000

  function Destination(buffer: nat): Word
    requires buffer < 2
  {
    0x4006_D000 + buffer * 0x4_0000
  }

  /** The first channel takes half of the words, the second the rest. */
  function FirstPart(size: nat): (first: nat)
    ensures first <= size - first && first <= size
  {
    size / 2 / 4 * 4
  }

  /** Neither chain leaves its own block. */
  predicate PartsFit(size: nat) { size - FirstPart(size) <= BLOCK * SLICE }

  predicate SplitBuilt(table: seq<Descriptor>, chip: nat, buffer: nat, size: nat)
    requires buffer < 2 && PartsFit(size)
  {
    var first := FirstPart(size);
    && Built(table, chip, 0, SOURCE, Destination(buffer), first)
    && Built(table, chip, 1, SOURCE + first, Destination(buffer) + first, size - first)
  }

  predicate SameOutside(was: seq<Descriptor>, now: seq<Descriptor>, chip: nat, ch: nat, n: nat) {
    |was| == |now| && forall j :: 0 <= j < |was| && !(Slot(chip, ch, 0) <= j < Slot(chip, ch, n)) ==> now[j] == was[j]
  }

  /** Building the second channel's chain leaves the first one's alone. */
  lemma FirstChainKept(was: seq<Descriptor>, now: seq<Descriptor>, chip: nat, src: Word, dst: Word, size: nat, n: nat)
    requires Built(was, chip, 0, src, dst, size) && size <= BLOCK * SLICE
    requires SameOutside(was, now, chip, 1, n)
    ensures Built(now, chip, 0, src, dst, size)
  {
    hide Planned;
    forall i: nat | i < Count(size)
      ensures now[Slot(chip, 0, i)] == Planned(chip, 0, src, dst, size, i)
    {
      assert was[Slot(chip, 0, i)] == Planned(chip, 0, src, dst, size, i);
    }
  }

  lemma BothOutside(was: seq<Descriptor>, between: seq<Descriptor>, now: seq<Descriptor>, chip: nat, n: nat, m: nat)
    requires SameOutside(was, between, chip, 0, n) && SameOutside(between, now, chip, 1, m)
    requires n <= BLOCK && m <= BLOCK
    ensures SameOutside(was, now, chip, 0, 2 * BLOCK)
  {
  }

  lemma TransferWrites(chip: nat, ch: nat, was: seq<Descriptor>, now: seq<Descriptor>)
    requires chip < CHIPS && ch < CHANNELS
    ensures SameWrites(Setup(chip, ch, was) + [Enable(chip, ch, now)], Setup(chip, ch, []) + [Enable(chip, ch, [])])
  {
    hide BusAddress;
    var a, b := Setup(chip, ch, was), Setup(chip, ch, []);
    forall i | 0 <= i < 6
      ensures (a + [Enable(chip, ch, now)])[i].(memory := []) == (b + [Enable(chip, ch, [])])[i].(memory := [])
    {
      if i < 5 {
        assert a[i].(memory := []) == b[i].(memory := []);
      }
    }
  }

  lemma BothWrites(one: seq<Event>, two: seq<Event>, chip: nat)
    requires chip < CHIPS
    requires SameWrites(one, Setup(chip, 0, []) + [Enable(chip, 0, [])]) && SameWrites(two, Setup(chip, 1, []) + [Enable(chip, 1, [])])
    ensures SameWrites(one + two, Setup(chip, 0, []) + [Enable(chip, 0, [])] + Setup(chip, 1, []) + [Enable(chip, 1, [])])
  {
    hide Setup, Enable;
    var a, b := Setup(chip, 0, []) + [Enable(chip, 0, [])], Setup(chip, 1, []) + [Enable(chip, 1, [])];
    assert a + Setup(chip, 1, []) + [Enable(chip, 1, [])] == a + b;
    forall i | 0 <= i < |one + two|
      ensures (one + two)[i].(memory := []) == (a + b)[i].(memory := [])
    {
      if i >= |one| {
        assert two[i - |one|].(memory := []) == b[i - |one|].(memory := []);
      }
    }
  }
}
