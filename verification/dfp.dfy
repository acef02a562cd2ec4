/** memx_seperate_dfp_download: the walk over the records of a compiled model in user memory, and
    the serialised form that it undoes. */
module Dfp {
  import opened LittleEndian
  import opened UsbLink

  datatype Source = Configuration | Weights

  datatype Outcome = Done | NoMemory | NoDevice

  /** The packets sent, and how the walk ended. */
  datatype Trace = Trace(packets: seq<seq<Byte>>, outcome: Outcome)

  function After(packets: seq<seq<Byte>>, t: Trace): Trace { Trace(packets + t.packets, t.outcome) }

  /** Going on only after success. */
  function Then(first: Trace, next: Trace): Trace {
    if first.outcome == Done then After(first.packets, next) else first
  }

  // ----- what the walk does with any buffer

  /** Copying n bytes from a position on, packet by packet. */
  function Copied(buffer: seq<Byte>, at: nat, n: nat): Trace
    decreases n
  {
    var size := if n > MAX_PACKET then MAX_PACKET else n;
    if n == 0 then Trace([], Done)
    else if at + size > |buffer| then Trace([], NoMemory)
    else After([buffer[at..at + size]], Copied(buffer, at + size, n - size))
  }

  /** A section's size counts its own two words; the subtraction is in 32 bits. */
  function DataSize(size: Word): Word { (size - 8) % 0x1_0000_0000 }

  function Sum32(a: Word, b: Word): Word { (a + b) % 0x1_0000_0000 }

  function Section(buffer: seq<Byte>, at: nat): Trace
    requires at + 8 <= |buffer|
  {
    var size, address := WordAt(buffer, at), WordAt(buffer, at + 4);
    Then(After(WordPackets(ID_WEIGHT_ADDRESS, address) + [Header(ID_WEIGHT_SIZE, DataSize(size))],
               Copied(buffer, at + 8, DataSize(size))),
         Trace(ClearPackets(), Done))
  }

  /** From the size word of the next of `count` sections. */
  function Sections(buffer: seq<Byte>, at: nat, count: nat): Trace
    decreases count
  {
    if count == 0 then Trace([], Done)
    else if at + 8 > |buffer| then Trace([], NoMemory)
    else Then(Section(buffer, at), Sections(buffer, at + Sum32(WordAt(buffer, at), 4), count - 1))
  }

  function Payload(buffer: seq<Byte>, at: nat, length: Word, source: Source): Trace {
    match source
    case Configuration =>
      Then(After([Header(ID_CONFIG_SIZE, length)], Copied(buffer, at, length)), Trace(ClearPackets(), Done))
    case Weights =>
      if at + 4 > |buffer| then Trace([], NoMemory)
      else if WordAt(buffer, at) == 0 then Trace([], NoDevice)
      else Sections(buffer, at + 4, WordAt(buffer, at))
  }

  /** From the payload of the previous record, given its length. */
  function Records(buffer: seq<Byte>, at: nat, previous: Word, count: nat, source: Source): Trace
    decreases count
  {
    var id := at + Sum32(previous, 4);
    if count == 0 then Trace([], Done)
    else if id + 8 > |buffer| then Trace([], NoMemory)
    else
      var length := WordAt(buffer, id + 4);
      Then(After(WordPackets(ID_CHIP, WordAt(buffer, id)), Payload(buffer, id + 8, length, source)),
           Records(buffer, id + 8, length, count - 1, source))
  }

  lemma AfterThen(ps: seq<seq<Byte>>, t: Trace, next: Trace)
    ensures After(ps, Then(t, next)) == Then(After(ps, t), next)
  {
    assert ps + (t.packets + next.packets) == ps + t.packets + next.packets;
  }

  lemma AfterTwice(ps: seq<seq<Byte>>, qs: seq<seq<Byte>>, t: Trace)
    ensures After(ps, After(qs, t)) == After(ps + qs, t)
  {
    assert ps + (qs + t.packets) == ps + qs + t.packets;
  }

  // ----- the code

  function Code(ok: bool): Outcome { if ok then Done else NoMemory }

  method ReadWord(buffer: seq<Byte>, at: nat) returns (ok: bool, word: Word)
    ensures ok <==> at + 4 <= |buffer|
    ensures ok ==> word == WordAt(buffer, at)
  {
    ok := at + 4 <= |buffer|;
    word := if ok then WordAt(buffer, at) else 0;
  }

  /** The packet loop of both branches. */
  method SendData(link: Link, buffer: seq<Byte>, at: nat, n: nat) returns (ok: bool)
    requires link.Valid()
    modifies link`sent, link.tbuffer
    ensures Trace(link.sent, Code(ok)) == After(old(link.sent), Copied(buffer, at, n))
  {
    var position: nat, remaining: nat := at, n;
    while remaining > 0
      invariant After(link.sent, Copied(buffer, position, remaining)) == After(old(link.sent), Copied(buffer, at, n))
    {
      var size := if remaining > MAX_PACKET then MAX_PACKET else remaining;
      ok := link.CopyFromUser(buffer, position, size);
      if !ok {
        return;
      }
      ghost var before := link.sent;
      link.Submit(size);
      AfterTwice(before, [buffer[position..position + size]], Copied(buffer, position + size, remaining - size));
      position, remaining := position + size, remaining - size;
    }
    ok := true;
  }

  method SendConfiguration(link: Link, buffer: seq<Byte>, at: nat, length: Word) returns (outcome: Outcome)
    requires link.Valid()
    modifies link`sent, link.tbuffer
    ensures Trace(link.sent, outcome) == After(old(link.sent), Payload(buffer, at, length, Configuration))
  {
    link.SendHeader(ID_CONFIG_SIZE, length);
    var ok := SendData(link, buffer, at, length);
    if !ok {
      return NoMemory;
    }
    link.ClearId();
    return Done;
  }

  method SendSection(link: Link, buffer: seq<Byte>, at: nat) returns (ok: bool)
    requires link.Valid() && at + 8 <= |buffer|
    modifies link`sent, link.tbuffer
    ensures Trace(link.sent, Code(ok)) == After(old(link.sent), Section(buffer, at))
  {
    hide WordPackets, Header, DataSize, ClearPackets, Copied;
    var size := DataSize(WordAt(buffer, at));
    link.SendWord(ID_WEIGHT_ADDRESS, WordAt(buffer, at + 4));
    link.SendHeader(ID_WEIGHT_SIZE, size);
    ok := SendData(link, buffer, at + 8, size);
    if ok {
      link.ClearId();
    }
  }

  method SendWeights(link: Link, buffer: seq<Byte>, at: nat, ghost length: Word) returns (outcome: Outcome)
    requires link.Valid()
    modifies link`sent, link.tbuffer
    ensures Trace(link.sent, outcome) == After(old(link.sent), Payload(buffer, at, length, Weights))
  {
    hide Section, WordAt;
    var ok, count := ReadWord(buffer, at);
    if !ok {
      return NoMemory;
    }
    if count == 0 {
      return NoDevice;
    }
    var position: nat := at + 4;
    for j := 0 to count
      invariant After(link.sent, Sections(buffer, position, count - j)) == After(old(link.sent), Sections(buffer, at + 4, count))
    {
      if position + 8 > |buffer| {
        return NoMemory;
      }
      ghost var before := link.sent;
      var step := Sum32(WordAt(buffer, position), 4);
      AfterThen(before, Section(buffer, position), Sections(buffer, position + step, count - j - 1));
      ok := SendSection(link, buffer, position);
      if !ok {
        return NoMemory;
      }
      position := position + step;
    }
    return Done;
  }

  /** The record loop. */
  method Download(link: Link, buffer: seq<Byte>, count: Word, source: Source) returns (outcome: Outcome)
    requires link.Valid()
    modifies link`sent, link.tbuffer
    ensures Trace(link.sent, outcome) == After(old(link.sent), Records(buffer, 0, 0, count, source))
  {
    hide Payload, WordAt, WordPackets, Sum32;
    var position: nat, length: Word := 0, 0;
    for i := 0 to count
      invariant After(link.sent, Records(buffer, position, length, count - i, source)) ==
        After(old(link.sent), Records(buffer, 0, 0, count, source))
    {
      position := position + Sum32(length, 4);
      var ok, id := ReadWord(buffer, position);
      if !ok {
        return NoMemory;
      }
      position := position + 4;
      ok, length := ReadWord(buffer, position);
      if !ok {
        return NoMemory;
      }
      ghost var before := link.sent;
      AfterThen(before, After(WordPackets(ID_CHIP, id), Payload(buffer, position + 4, length, source)),
                Records(buffer, position + 4, length, count - i - 1, source));
      AfterTwice(before, WordPackets(ID_CHIP, id), Payload(buffer, position + 4, length, source));
      link.SendWord(ID_CHIP, id);
      var result;
      if source == Configuration {
        result := SendConfiguration(link, buffer, position + 4, length);
      } else {
        result := SendWeights(link, buffer, position + 4, length);
      }
      if result != Done {
        return result;
      }
      position := position + 4;
    }
    return Done;
  }
}
