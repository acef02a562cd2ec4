/** What the DMA controller does with a chain, and that a transfer moves every source word to its
    destination exactly once. */
module DmaController {
  import opened Dma
  import opened DmaDevice
  import opened LittleEndian

  lemma WordsJoin(from: int, to: int, n: nat, m: nat)
    ensures Words(from, to, n) + Words(from + 4 * n, to + 4 * n, m) == Words(from, to, n + m)
  {
  }

  /** A transfer whose last slice is one to three bytes would count down from zero. */
  predicate RunsAway(size: nat) { 1 <= size % SLICE <= 3 }

  lemma ControlBits(d: Descriptor)
    ensures d.ctl == CONTROL ==> !IsLast(d) && IsWordCopy(d)
    ensures d.ctl == CONTROL | LAST ==> IsLast(d) && IsWordCopy(d)
  {
  }

  /** The words of a slice. */
  lemma SliceWords(size: nat, i: nat)
    requires i < Count(size)
    ensures i < Count(size) - 1 ==> SliceSize(size, i) == SLICE && BlockTs(SliceSize(size, i)) + 1 == SLICE / 4
    ensures i == Count(size) - 1 ==> SliceSize(size, i) == size - i * SLICE
    ensures i == Count(size) - 1 && !RunsAway(size) ==> BlockTs(SliceSize(size, i)) + 1 == (size - i * SLICE) / 4
    ensures i == Count(size) - 1 && RunsAway(size) ==> BlockTs(SliceSize(size, i)) + 1 == 0x1_0000_0000
  {
    if i == Count(size) - 1 && size % SLICE != 0 {
      assert size - i * SLICE == size % SLICE;
    }
  }

  /** A built descriptor, as the controller reads it. */
  lemma ReadDescriptor(table: seq<Descriptor>, chip: nat, ch: nat, src: Word, dst: Word, size: nat, i: nat)
    requires Built(table, chip, ch, src, dst, size)
    requires src + size <= 0x1_0000_0000 && dst + size <= 0x1_0000_0000
    requires i < Count(size)
    ensures Slot(chip, ch, i) < |table|
    ensures var d := table[Slot(chip, ch, i)];
      && d.sar == src + i * SLICE && d.dar == dst + i * SLICE
      && d.blockTs == BlockTs(SliceSize(size, i))
      && (IsLast(d) <==> i == Count(size) - 1) && IsWordCopy(d)
      && d.llp == if i == Count(size) - 1 then 0 else BusAddress(chip, ch, i + 1)
  {
    hide SliceSize, BlockTs, BusAddress;
    ControlBits(table[Slot(chip, ch, i)]);
    assert table[Slot(chip, ch, i)] == Planned(chip, ch, src, dst, size, i);
    assert i * SLICE < size;
  }

  lemma FollowStep(table: seq<Descriptor>, slot: nat, steps: nat)
    requires slot < |table| && steps > 0 && IsWordCopy(table[slot])
    ensures var d := table[slot];
      var own := Words(d.sar, d.dar, d.blockTs + 1);
      var rest := Follow(table, d.llp, steps - 1);
      Follow(table, MEMORY + 64 * slot, steps) ==
        if IsLast(d) then (if d.llp == 0 then Some(own) else None)
        else if rest == None then None
        else Some(own + rest.value)
  {
    hide IsLast, IsWordCopy, Words;
    assert 64 * slot / 64 == slot && 64 * slot % 64 == 0;
  }

  /** From the i-th descriptor on, a chain ends at its last descriptor and moves the rest of the
      transfer. */
  lemma {:induction false} ChainFrom(table: seq<Descriptor>, chip: nat, ch: nat, src: Word, dst: Word, size: nat, i: nat, steps: nat)
    requires Built(table, chip, ch, src, dst, size)
    requires src + size <= 0x1_0000_0000 && dst + size <= 0x1_0000_0000
    requires i < Count(size) <= i + steps && !RunsAway(size)
    ensures Follow(table, BusAddress(chip, ch, i), steps) == Some(Words(src + i * SLICE, dst + i * SLICE, (size - i * SLICE) / 4))
    decreases steps
  {
    hide SliceSize, BlockTs, Words, Follow, IsLast, IsWordCopy, Built, BusAddress, Slot;
    ReadDescriptor(table, chip, ch, src, dst, size, i);
    AddressOfSlot(chip, ch, i);
    FollowStep(table, Slot(chip, ch, i), steps);
    SliceWords(size, i);
    if i < Count(size) - 1 {
      ChainFrom(table, chip, ch, src, dst, size, i + 1, steps - 1);
      WordsJoin(src + i * SLICE, dst + i * SLICE, SLICE / 4, (size - (i + 1) * SLICE) / 4);
    }
  }

  /** The second word of the last slice, which is behind a transfer that runs away. */
  function Behind(src: int, dst: int, size: nat): Copy
    requires size > 0
  {
    Copy(src + (Count(size) - 1) * SLICE + 4, dst + (Count(size) - 1) * SLICE + 4)
  }

  lemma SecondWord(from: int, to: int, n: nat)
    requires n > 1
    ensures Copy(from + 4, to + 4) in Words(from, to, n)
  {
    assert Words(from, to, n)[1] == Copy(from + 4, to + 4);
  }

  /** With a last slice of one to three bytes the controller would go on for 2^32 words. */
  lemma {:induction false} RunawayFrom(table: seq<Descriptor>, chip: nat, ch: nat, src: Word, dst: Word, size: nat, i: nat, steps: nat)
    requires Built(table, chip, ch, src, dst, size)
    requires src + size <= 0x1_0000_0000 && dst + size <= 0x1_0000_0000
    requires i < Count(size) <= i + steps && RunsAway(size)
    ensures Follow(table, BusAddress(chip, ch, i), steps).Some?
    ensures var copies := Follow(table, BusAddress(chip, ch, i), steps).value;
      |copies| >= 0x1_0000_0000 && Behind(src, dst, size) in copies
    decreases steps
  {
    hide SliceSize, BlockTs, Words, Follow, IsLast, IsWordCopy, Built, BusAddress, Slot;
    ReadDescriptor(table, chip, ch, src, dst, size, i);
    AddressOfSlot(chip, ch, i);
    FollowStep(table, Slot(chip, ch, i), steps);
    SliceWords(size, i);
    if i < Count(size) - 1 {
      RunawayFrom(table, chip, ch, src, dst, size, i + 1, steps - 1);
    } else {
      SecondWord(src + i * SLICE, dst + i * SLICE, 0x1_0000_0000);
    }
  }

  /** A chain moves exactly the whole words of its transfer if and only if its last slice is not
      just one to three bytes long. */
  lemma ChainCovers(table: seq<Descriptor>, chip: nat, ch: nat, src: Word, dst: Word, size: nat, steps: nat)
    requires Built(table, chip, ch, src, dst, size) && 0 < size && Count(size) <= steps
    requires src + size <= 0x1_0000_0000 && dst + size <= 0x1_0000_0000
    ensures Follow(table, BusAddress(chip, ch, 0), steps) == Some(Words(src, dst, size / 4)) <==> !RunsAway(size)
  {
    hide Built, BusAddress, Follow, Words;
    if RunsAway(size) {
      RunawayFrom(table, chip, ch, src, dst, size, 0, steps);
    } else {
      ChainFrom(table, chip, ch, src, dst, size, 0, steps);
    }
  }

  /** A size on which it fails: one byte more than a whole slice. */
  lemma OneByteTooMany(chip: nat, ch: nat, src: Word, dst: Word)
    ensures RunsAway(0x4001) && Count(0x4001) == 2
    ensures Planned(chip, ch, src, dst, 0x4001, 1).blockTs == 0xFFFF_FFFF
  {
    assert SliceSize(0x4001, 1) == 1;
  }

  /** The bus addresses of a chip's and channel's own 2 KB. */
  predicate InOwnBlock(address: int, chip: nat, ch: nat) {
    BusAddress(chip, ch, 0) <= address && address + 64 <= BusAddress(chip, ch, 0) + 0x800
  }

  lemma LinksStayInBlock(table: seq<Descriptor>, chip: nat, ch: nat, src: Word, dst: Word, size: nat, i: nat)
    requires Built(table, chip, ch, src, dst, size) && size <= BLOCK * SLICE && i < Count(size)
    ensures InOwnBlock(BusAddress(chip, ch, i), chip, ch)
    ensures !IsLast(table[Slot(chip, ch, i)]) ==> InOwnBlock(table[Slot(chip, ch, i)].llp, chip, ch)
  {
    hide SliceSize, BlockTs;
    ControlBits(table[Slot(chip, ch, i)]);
    assert table[Slot(chip, ch, i)] == Planned(chip, ch, src, dst, size, i);
  }

  /** 512 KB is the limit: the descriptors of a transfer lie in their own block if and only if it is
      not larger. */
  lemma BlockHolds(chip: nat, ch: nat, size: nat)
    ensures (forall i: nat :: i < Count(size) ==> InOwnBlock(BusAddress(chip, ch, i), chip, ch)) <==> size <= BLOCK * SLICE
  {
    if size > BLOCK * SLICE {
      assert BLOCK < Count(size);
      assert !InOwnBlock(BusAddress(chip, ch, BLOCK), chip, ch);
    }
  }

  lemma BlocksDisjoint(chip: nat, ch: nat, chip': nat, ch': nat, address: int)
    requires ch < CHANNELS && ch' < CHANNELS
    requires InOwnBlock(address, chip, ch) && InOwnBlock(address, chip', ch')
    ensures chip == chip' && ch == ch'
  {
  }

  lemma PartsOfSize(size: nat)
    requires 8 <= size
    ensures var first := FirstPart(size);
      && 0 < first <= size / 2 && 4 * (first / 4) == first
      && first / 4 + (size - first) / 4 == size / 4
      && !RunsAway(first)
      && (size % 4 == 0 ==> !RunsAway(size - first) && 4 * (size / 4) == size)
  {
    hide RunsAway;
    var first := FirstPart(size);
    assert first % 4 == 0;
    WholeWordsNeverRunAway(first);
    WholeWordsNeverRunAway(size - first);
  }

  lemma WholeWordsNeverRunAway(size: nat)
    ensures size % 4 == 0 ==> !RunsAway(size)
  {
    var k := size / 4;
    if size % 4 == 0 {
      assert 4 * k % SLICE == 4 * (k % 0x1000);
    }
  }

  /** The two channels together move every word of a write to its matching place exactly once, if
      and only if the second part does not run away; a size that is a multiple of four never
      does. */
  lemma SplitCovers(was: seq<Descriptor>, now: seq<Descriptor>, chip: nat, buffer: nat, size: nat)
    requires buffer < 2 && 8 <= size && PartsFit(size)
    requires Built(was, chip, 0, SOURCE, Destination(buffer), FirstPart(size))
    requires Built(now, chip, 1, SOURCE + FirstPart(size), Destination(buffer) + FirstPart(size), size - FirstPart(size))
    ensures var one, two := Follow(was, BusAddress(chip, 0, 0), BLOCK), Follow(now, BusAddress(chip, 1, 0), BLOCK);
      && one.Some?
      && (two.Some? && one.value + two.value == Words(SOURCE, Destination(buffer), size / 4) <==> !RunsAway(size - FirstPart(size)))
    ensures size % 4 == 0 ==> !RunsAway(size - FirstPart(size)) && 4 * (size / 4) == size
  {
    hide Built, BusAddress, Follow, Words, RunsAway, FirstPart;
    var first := FirstPart(size);
    PartsOfSize(size);
    ChainCovers(was, chip, 0, SOURCE, Destination(buffer), first, BLOCK);
    ChainCovers(now, chip, 1, SOURCE + first, Destination(buffer) + first, size - first, BLOCK);
    WordsJoin(SOURCE, Destination(buffer), first / 4, (size - first) / 4);
    WordsSuffix(SOURCE, Destination(buffer), first / 4, (size - first) / 4, Follow(now, BusAddress(chip, 1, 0), BLOCK));
  }

  /** What follows the first part is determined by the whole. */
  lemma WordsSuffix(from: int, to: int, n: nat, m: nat, rest: Option<seq<Copy>>)
    ensures rest.Some? && Words(from, to, n) + rest.value == Words(from, to, n + m) ==>
      rest == Some(Words(from + 4 * n, to + 4 * n, m))
  {
    hide Words;
    WordsJoin(from, to, n, m);
    if rest.Some? && Words(from, to, n) + rest.value == Words(from, to, n + m) {
      var a, b := Words(from, to, n), Words(from + 4 * n, to + 4 * n, m);
      assert (a + rest.value)[|a|..] == rest.value && (a + b)[|a|..] == b;
    }
  }

  lemma WordsMove(from: int, to: int, n: nat, k: int)
    ensures MovesByte(Words(from, to, n), from, to, k) <==> 0 <= k < 4 * n
  {
    if 0 <= k < 4 * n {
      assert Words(from, to, n)[k / 4] == Copy(from + 4 * (k / 4), to + 4 * (k / 4));
    }
  }

  lemma MovesBehind(copies: seq<Copy>, from: int, to: int, first: nat, rest: nat)
    requires rest > 0 && RunsAway(rest) && Behind(from + first, to + first, rest) in copies
    ensures exists k: int :: k >= first + rest && MovesByte(copies, from, to, k)
  {
    var k := first + (Count(rest) - 1) * SLICE + 4;
    assert (Count(rest) - 1) * SLICE + rest % SLICE == rest;
    assert MovesByte(copies, from, to, k);
  }

  /** The two chains together move exactly the bytes of a write, and nothing else, if and only if its
      size is a multiple of four: otherwise the last one to three bytes stay behind, or the second
      part runs away. */
  lemma SplitMovesBytes(was: seq<Descriptor>, now: seq<Descriptor>, chip: nat, buffer: nat, size: nat)
    requires buffer < 2 && 8 <= size && PartsFit(size)
    requires Built(was, chip, 0, SOURCE, Destination(buffer), FirstPart(size))
    requires Built(now, chip, 1, SOURCE + FirstPart(size), Destination(buffer) + FirstPart(size), size - FirstPart(size))
    ensures var one, two := Follow(was, BusAddress(chip, 0, 0), BLOCK), Follow(now, BusAddress(chip, 1, 0), BLOCK);
      one.Some? && two.Some? && (MovesBlock(one.value + two.value, SOURCE, Destination(buffer), size) <==> size % 4 == 0)
  {
    hide Built, BusAddress, Follow, Words, RunsAway, FirstPart, MovesByte;
    var first := FirstPart(size);
    var one, two := Follow(was, BusAddress(chip, 0, 0), BLOCK), Follow(now, BusAddress(chip, 1, 0), BLOCK);
    SplitCovers(was, now, chip, buffer, size);
    PartsOfSize(size);
    if RunsAway(size - first) {
      RunawayFrom(now, chip, 1, SOURCE + first, Destination(buffer) + first, size - first, 0, BLOCK);
      MovesBehind(one.value + two.value, SOURCE, Destination(buffer), first, size - first);
    } else {
      forall k: int ensures MovesByte(one.value + two.value, SOURCE, Destination(buffer), k) <==> 0 <= k < 4 * (size / 4) {
        WordsMove(SOURCE, Destination(buffer), size / 4, k);
      }
      InStep(SOURCE, Destination(buffer), size / 4);
      assert !MovesByte(one.value + two.value, SOURCE, Destination(buffer), 4 * (size / 4));
    }
  }

  lemma InStep(from: int, to: int, n: nat)
    ensures forall i :: 0 <= i < |Words(from, to, n)| ==> Words(from, to, n)[i].to - Words(from, to, n)[i].from == to - from
  {
  }

  /** The two ingress buffers: a write of up to 256 KB stays out of the other one, and a longer one
      does not. */
  lemma BuffersApart(copies: seq<Copy>, size: nat)
    requires MovesBlock(copies, 0x5808_0000, Destination(0), size)
    ensures (exists k: int :: MovesByte(copies, 0x5808_0000, Destination(0), k) && Destination(1) <= Destination(0) + k < Destination(1) + 0x4_0000) <==>
      size > 0x4_0000
  {
    hide MovesByte;
    if size > 0x4_0000 {
      assert MovesByte(copies, 0x5808_0000, Destination(0), 0x4_0000);
    }
  }

  // ----- a transfer's register writes

  /** What a register holds behind a transfer's set-up. */
  lemma HeldAfterSetup(before: seq<Event>, chip: nat, ch: nat, memory: seq<Descriptor>)
    requires chip < CHIPS && ch < CHANNELS
    ensures var events := before + Setup(chip, ch, memory);
      && Prepared(events, chip, ch)
      && Held(events, chip, 0x2004_0128 + 0x100 * ch) == BusAddress(chip, ch, 0)
      && Held(events, chip, 0x2004_0190 + 0x100 * ch) == 0xFFFF_FFFE
  {
    hide BusAddress, Held;
    var s := Setup(chip, ch, memory);
    var e1 := before + [s[0]];
    var e2 := e1 + [s[1]];
    var e3 := e2 + [s[2]];
    var e4 := e3 + [s[3]];
    assert before + s == e4 + [s[4]];
    forall register: nat
      ensures Held(e4 + [s[4]], chip, register) ==
        if register == s[4].register then s[4].value
        else if register == s[3].register then s[3].value
        else if register == s[2].register then s[2].value
        else if register == s[1].register then s[1].value
        else if register == s[0].register then s[0].value
        else Held(before, chip, register)
    {
      HeldAfter(before, s[0], chip, register);
      HeldAfter(e1, s[1], chip, register);
      HeldAfter(e2, s[2], chip, register);
      HeldAfter(e3, s[3], chip, register);
      HeldAfter(e4, s[4], chip, register);
    }
  }

  /** A transfer starts its own channel only, at the first descriptor of its chain. */
  lemma TransferStarts(before: seq<Event>, chip: nat, ch: nat, was: seq<Descriptor>, now: seq<Descriptor>)
    requires chip < CHIPS && ch < CHANNELS
    ensures Started(before, Setup(chip, ch, was) + [Enable(chip, ch, now)], chip) == [Follow(now, BusAddress(chip, ch, 0), LONGEST)]
  {
    hide BusAddress, Follow, Started, Prepared, Held;
    SetupStartsNothing(before, chip, ch, was);
    HeldAfterSetup(before, chip, ch, was);
    StartedAppend(before, Setup(chip, ch, was), [Enable(chip, ch, now)], chip);
    StartedOne(before + Setup(chip, ch, was), Enable(chip, ch, now), chip);
  }

  lemma SetupStartsNothing(before: seq<Event>, chip: nat, ch: nat, memory: seq<Descriptor>)
    requires chip < CHIPS && ch < CHANNELS
    ensures Started(before, Setup(chip, ch, memory), chip) == []
  {
    QuietStart(before, Setup(chip, ch, memory), chip);
  }

  lemma {:induction false} QuietStart(before: seq<Event>, events: seq<Event>, chip: nat)
    requires forall i :: 0 <= i < |events| ==> events[i].register != 0x2004_0018
    ensures Started(before, events, chip) == []
    decreases |events|
  {
    if events != [] {
      QuietStart(before + [events[0]], events[1..], chip);
    }
  }

  /** Two transfers, one behind the other. */
  lemma BothStart(before: seq<Event>, first: seq<Event>, second: seq<Event>, chip: nat, one: Option<seq<Copy>>, two: Option<seq<Copy>>)
    requires Started(before, first, chip) == [one] && Started(before + first, second, chip) == [two] && one.Some? && two.Some?
    ensures Joined(Started(before, first + second, chip)) == Some(one.value + two.value)
  {
    hide Started;
    StartedAppend(before, first, second, chip);
    assert [one] + [two] == [one, two] && [one, two][1..] == [two] && [two][1..] == [];
    assert Joined([two]) == Some(two.value + []);
    assert two.value + [] == two.value;
  }
}
