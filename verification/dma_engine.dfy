/** memx_dma_transfer_mb and its caller: building the descriptors and writing the registers, with the
    transfers that the controller then makes. */
module DmaEngine {
  import opened Dma
  import opened DmaController
  import opened DmaDevice
  import opened LittleEndian

  class Engine {
    const descriptors: array<Descriptor>
    var writes: seq<Event>

    predicate Valid()
      reads this
    {
      descriptors.Length == 2 * BLOCK * CHIPS
    }

    constructor (blank: Descriptor)
      ensures Valid() && fresh(descriptors) && writes == []
    {
      descriptors := new Descriptor[2 * BLOCK * CHIPS](_ => blank);
      writes := [];
    }

    method Set(chip: nat, register: nat, value: Word)
      modifies this`writes
      ensures writes == old(writes) + [Event(chip, register, value, descriptors[..])]
    {
      writes := writes + [Event(chip, register, value, descriptors[..])];
    }

    /** The descriptor loop. */
    method BuildChain(chip: nat, ch: nat, src: Word, dst: Word, size: nat)
      requires Valid() && chip < CHIPS && ch < CHANNELS && Slot(chip, ch, Count(size)) <= descriptors.Length
      modifies descriptors
      ensures Built(descriptors[..], chip, ch, src, dst, size)
      ensures SameOutside(old(descriptors[..]), descriptors[..], chip, ch, Count(size))
    {
      hide BlockTs, Sum32, BusAddress;
      var count := (size + SLICE - 1) / SLICE;
      var done := 0;
      for i := 0 to count
        invariant done == if i == count then size else i * SLICE
        invariant forall k: nat :: k < i ==> descriptors[Slot(chip, ch, k)] == Planned(chip, ch, src, dst, size, k)
        invariant SameOutside(old(descriptors[..]), descriptors[..], chip, ch, i)
      {
        var slice := if size - done > SLICE then SLICE else size - done;
        if i == count - 1 {
          descriptors[Slot(chip, ch, i)] := Descriptor(Sum32(src, done), Sum32(dst, done), BlockTs(slice), 0, CONTROL | LAST, 0, 0, 0);
        } else {
          descriptors[Slot(chip, ch, i)] :=
            Descriptor(Sum32(src, done), Sum32(dst, done), BlockTs(slice), BusAddress(chip, ch, i + 1), CONTROL, 0, 0, 0);
        }
        done := done + slice;
      }
    }

    /** memx_dma_transfer_mb, as long as the chain does not run off the whole table. */
    method TransferMb(chip: nat, ch: nat, src: Word, dst: Word, size: nat)
      requires Valid() && chip < CHIPS && ch < CHANNELS && Slot(chip, ch, Count(size)) <= descriptors.Length
      modifies this`writes, descriptors
      ensures Built(descriptors[..], chip, ch, src, dst, size)
      ensures SameOutside(old(descriptors[..]), descriptors[..], chip, ch, Count(size))
      ensures writes == old(writes) + (Setup(chip, ch, old(descriptors[..])) + [Enable(chip, ch, descriptors[..])])
      ensures Held(writes, chip, 0x2004_0190 + 0x100 * ch) == 0xFFFF_FFFE
      ensures Started(old(writes), writes[|old(writes)|..], chip) == [Follow(descriptors[..], BusAddress(chip, ch, 0), LONGEST)]
    {
      hide Built, SameOutside, BusAddress, Started, Follow;
      AddressFits(chip, ch);
      Set(chip, ChannelRegister(ch, 0x190), 0xFFFF_FFFE);
      Set(chip, 0x2004_0010, 3);
      Set(chip, ChannelRegister(ch, 0x120), 0xF);
      Set(chip, ChannelRegister(ch, 0x124), 0x7F82_0018);
      Set(chip, ChannelRegister(ch, 0x128), BusAddress(chip, ch, 0));
      BuildChain(chip, ch, src, dst, size);
      Set(chip, 0x2004_0018, if ch == 0 then 0x101 else 0x202);
      ghost var events := Setup(chip, ch, old(descriptors[..])) + [Enable(chip, ch, descriptors[..])];
      assert writes == old(writes) + events;
      assert writes[|old(writes)|..] == events;
      TransferStarts(old(writes), chip, ch, old(descriptors[..]), descriptors[..]);
      ghost var ready := old(writes) + Setup(chip, ch, old(descriptors[..]));
      HeldAfterSetup(old(writes), chip, ch, old(descriptors[..]));
      HeldAfter(ready, Enable(chip, ch, descriptors[..]), chip, 0x2004_0190 + 0x100 * ch);
      assert writes == ready + [Enable(chip, ch, descriptors[..])];
    }

    /** The trigger of memx_fops_write: a header of 64 bytes and the data, split over two channels at
        a word boundary; the ingress buffer index selects one of two destinations. The size is computed
        in 32 bits. */
    method StartWrite(chip: nat, length: Word, buffer: nat)
      requires Valid() && chip < CHIPS && buffer < 2 && PartsFit(Sum32(length, 64))
      modifies this`writes, descriptors
      ensures SplitBuilt(descriptors[..], chip, buffer, Sum32(length, 64))
      ensures SameOutside(old(descriptors[..]), descriptors[..], chip, 0, 2 * BLOCK)
      ensures old(writes) <= writes
      ensures SameWrites(writes[|old(writes)|..], Setup(chip, 0, []) + [Enable(chip, 0, [])] + Setup(chip, 1, []) + [Enable(chip, 1, [])])
      ensures var size := (length + 64) % 0x1_0000_0000;
        8 <= size ==>
          var moved := Joined(Started(old(writes), writes[|old(writes)|..], chip));
          moved.Some? && (MovesBlock(moved.value, 0x5808_0000, 0x4006_D000 + buffer * 0x4_0000, size) <==> size % 4 == 0)
    {
      hide Built, SameOutside, SameWrites, Setup, Enable, FirstPart, Started, Follow, BusAddress, Joined, MovesBlock;
      var size: nat := Sum32(length, 64);
      var first := FirstPart(size);
      TransferMb(chip, 0, SOURCE, Destination(buffer), first);
      ghost var between, begun := descriptors[..], writes;
      TransferMb(chip, 1, SOURCE + first, Destination(buffer) + first, size - first);
      FirstChainKept(between, descriptors[..], chip, SOURCE, Destination(buffer), first, Count(size - first));
      BothOutside(old(descriptors[..]), between, descriptors[..], chip, Count(first), Count(size - first));
      ghost var one, two := begun[|old(writes)|..], writes[|begun|..];
      assert begun == old(writes) + one && writes == begun + two;
      assert writes[|old(writes)|..] == one + two;
      TransferWrites(chip, 0, old(descriptors[..]), between);
      TransferWrites(chip, 1, between, descriptors[..]);
      BothWrites(one, two, chip);
      if 8 <= size {
        SplitMovesBytes(between, descriptors[..], chip, buffer, size);
        BothStart(old(writes), one, two, chip, Follow(between, BusAddress(chip, 0, 0), LONGEST), Follow(descriptors[..], BusAddress(chip, 1, 0), LONGEST));
      }
    }
  }
}
