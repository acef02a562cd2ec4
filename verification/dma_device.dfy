/** The DMA controller: linked descriptors of 64 bytes in memory that it shares with the driver, and
    the registers that start a channel. */
module DmaDevice {
  import opened LittleEndian

  datatype Option<T> = None | Some(value: T)

  datatype Descriptor = Descriptor(sar: int, dar: int, blockTs: Word, llp: int, ctl: bv64, sstat: Word, dstat: Word, llpStatus: int)

  /** A register write, and the descriptors that are in memory when it arrives. */
  datatype Event = Event(chip: nat, register: nat, value: Word, memory: seq<Descriptor>)

  datatype Copy = Copy(from: int, to: int)

  /** The bus address of the descriptors. */
  const MEMORY := 0x581A_0000

  /** The longest chain that is looked at. */
  const LONGEST := 32

  predicate IsLast(d: Descriptor) { d.ctl & 0x4000_0000_0000_0000 != 0 }

  /** A valid descriptor for 32-bit words on both sides, with both addresses going up. */
  predicate IsWordCopy(d: Descriptor) { d.ctl & 0x8000_0000_0000_3F50 == 0x8000_0000_0000_1200 }

  /** One descriptor's copies: one more word than the count says. */
  function Words(from: int, to: int, n: nat): (r: seq<Copy>)
    ensures |r| == n
  {
    seq(n, k => Copy(from + 4 * k, to + 4 * k))
  }

  /** Follows the links from a bus address. None: a link leads off the table, into the middle of a
      descriptor or to one that is no copy of words, or no last descriptor turns up within the steps
      given. */
  function Follow(table: seq<Descriptor>, address: int, steps: nat): Option<seq<Copy>>
    decreases steps
  {
    var at := address - MEMORY;
    if steps == 0 || at < 0 || at % 64 != 0 || at / 64 >= |table| || !IsWordCopy(table[at / 64]) then None
    else
      var d := table[at / 64];
      var own := Words(d.sar, d.dar, d.blockTs + 1);
      if IsLast(d) then (if d.llp == 0 then Some(own) else None)
      else
        var rest := Follow(table, d.llp, steps - 1);
        if rest == None then None else Some(own + rest.value)
  }

  /** A byte, counted from the source, goes to the same place of the destination. */
  predicate MovesByte(copies: seq<Copy>, from: int, to: int, k: int) {
    exists i :: 0 <= i < |copies| && copies[i].from <= from + k < copies[i].from + 4 && copies[i].to - copies[i].from == to - from
  }

  /** Exactly the bytes of a block are moved, each to its place, and nothing else anywhere. */
  ghost predicate MovesBlock(copies: seq<Copy>, from: int, to: int, size: nat) {
    && (forall i :: 0 <= i < |copies| ==> copies[i].to - copies[i].from == to - from)
    && forall k: int :: MovesByte(copies, from, to, k) <==> 0 <= k < size
  }

  // ----- registers

  /** What a register holds after some writes. */
  function Held(events: seq<Event>, chip: nat, register: nat): Word {
    if events == [] then 0
    else
      var e := events[|events| - 1];
      if e.chip == chip && e.register == register then e.value else Held(events[..|events| - 1], chip, register)
  }

  /** The controller is on, the channel takes both addresses from linked lists, and goes from memory
      to memory. */
  predicate Prepared(events: seq<Event>, chip: nat, ch: nat) {
    && Held(events, chip, 0x2004_0010) % 2 == 1
    && Held(events, chip, 0x2004_0120 + 0x100 * ch) % 16 == 15
    && Held(events, chip, 0x2004_0124 + 0x100 * ch) % 8 == 0
  }

  /** The enable register has a bit for each channel, and eight bits higher one that lets it count. */
  predicate Enables(value: Word, ch: nat)
    requires ch < 2
  {
    if ch == 0 then value % 2 == 1 && value / 0x100 % 2 == 1 else value / 2 % 2 == 1 && value / 0x200 % 2 == 1
  }

  /** A channel that is enabled follows its link register; one that is not prepared does nothing good. */
  function Transfer(before: seq<Event>, e: Event, ch: nat): Option<seq<Copy>> {
    if Prepared(before, e.chip, ch) then Follow(e.memory, Held(before, e.chip, 0x2004_0128 + 0x100 * ch), LONGEST) else None
  }

  /** The transfers that a write starts on a chip. */
  function StartedBy(before: seq<Event>, e: Event, chip: nat): seq<Option<seq<Copy>>> {
    if e.chip != chip || e.register != 0x2004_0018 then []
    else (if Enables(e.value, 0) then [Transfer(before, e, 0)] else []) + (if Enables(e.value, 1) then [Transfer(before, e, 1)] else [])
  }

  /** The transfers that some writes start, behind others. */
  function Started(before: seq<Event>, events: seq<Event>, chip: nat): seq<Option<seq<Copy>>>
    decreases |events|
  {
    if events == [] then [] else StartedBy(before, events[0], chip) + Started(before + [events[0]], events[1..], chip)
  }

  /** Transfers that all end well, one after the other. */
  function Joined(transfers: seq<Option<seq<Copy>>>): Option<seq<Copy>> {
    if transfers == [] then Some([])
    else
      var rest := Joined(transfers[1..]);
      if transfers[0] == None || rest == None then None else Some(transfers[0].value + rest.value)
  }

  lemma HeldAfter(events: seq<Event>, e: Event, chip: nat, register: nat)
    ensures Held(events + [e], chip, register) == if e.chip == chip && e.register == register then e.value else Held(events, chip, register)
  {
    assert (events + [e])[..|events|] == events;
  }

  lemma {:induction false} StartedAppend(before: seq<Event>, a: seq<Event>, b: seq<Event>, chip: nat)
    ensures Started(before, a + b, chip) == Started(before, a, chip) + Started(before + a, b, chip)
    decreases |a|
  {
    hide StartedBy;
    if a == [] {
      assert a + b == b && before + a == before;
    } else {
      StartedAppend(before + [a[0]], a[1..], b, chip);
      assert (a + b)[1..] == a[1..] + b && before + [a[0]] + a[1..] == before + a;
    }
  }

  lemma StartedOne(before: seq<Event>, e: Event, chip: nat)
    ensures Started(before, [e], chip) == StartedBy(before, e, chip)
  {
    hide StartedBy;
    assert [e][1..] == [];
    assert Started(before + [e], [], chip) == [];
  }
}
