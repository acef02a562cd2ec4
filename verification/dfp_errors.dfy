/** Downloads that fail: buffers that are cut short, and weight records without sections. */
module DfpErrors {
  import opened LittleEndian
  import opened UsbReceiver
  import opened UsbLink
  import opened Dfp
  import opened DfpFormat

  // ----- a buffer that is cut short

  /** The same trace, or one that stops for want of memory with fewer packets sent. */
  predicate Cut(c: Trace, t: Trace) { c == t || (c.outcome == NoMemory && c.packets <= t.packets) }

  lemma CutAfter(packets: seq<seq<Byte>>, c: Trace, t: Trace)
    requires Cut(c, t)
    ensures Cut(After(packets, c), After(packets, t))
  {
  }

  lemma CutThen(c: Trace, t: Trace, c': Trace, t': Trace)
    requires Cut(c, t) && (c.outcome == Done ==> Cut(c', t'))
    ensures Cut(Then(c, c'), Then(t, t'))
  {
    assert c.packets <= t.packets ==> c.packets <= t.packets + t'.packets;
  }

  lemma WordAtCut(buffer: seq<Byte>, cut: nat, at: nat)
    requires at + 4 <= cut <= |buffer|
    ensures WordAt(buffer[..cut], at) == WordAt(buffer, at)
  {
  }

  lemma {:induction false} CopiedCut(buffer: seq<Byte>, cut: nat, at: nat, n: nat)
    requires cut <= |buffer|
    ensures Cut(Copied(buffer[..cut], at, n), Copied(buffer, at, n))
    ensures at <= cut ==> (Copied(buffer[..cut], at, n).outcome == Done <==> at + n <= cut)
    decreases n
  {
    var size := if n > MAX_PACKET then MAX_PACKET else n;
    if n > 0 && at + size <= cut {
      CopiedCut(buffer, cut, at + size, n - size);
      assert buffer[..cut][at..at + size] == buffer[at..at + size];
      CutAfter([buffer[at..at + size]], Copied(buffer[..cut], at + size, n - size), Copied(buffer, at + size, n - size));
    }
  }

  lemma SectionCut(buffer: seq<Byte>, cut: nat, at: nat)
    requires at + 8 <= cut <= |buffer|
    ensures Cut(Section(buffer[..cut], at), Section(buffer, at))
    ensures Section(buffer[..cut], at).outcome == Done <==> at + 8 + DataSize(WordAt(buffer, at)) <= cut
  {
    hide WordAt, WordPackets, Header, ClearPackets, Cut, Copied, After, DataSize;
    WordAtCut(buffer, cut, at);
    WordAtCut(buffer, cut, at + 4);
    var size, address := DataSize(WordAt(buffer, at)), WordAt(buffer, at + 4);
    var packets := WordPackets(ID_WEIGHT_ADDRESS, address) + [Header(ID_WEIGHT_SIZE, size)];
    var c, t := Copied(buffer[..cut], at + 8, size), Copied(buffer, at + 8, size);
    CopiedCut(buffer, cut, at + 8, size);
    CutAfter(packets, c, t);
    SameOutcome(packets, c);
    CutSelf(Trace(ClearPackets(), Done));
    CutThen(After(packets, c), After(packets, t), Trace(ClearPackets(), Done), Trace(ClearPackets(), Done));
    ThenOutcome(After(packets, c), Trace(ClearPackets(), Done));
  }

  lemma CutSelf(t: Trace)
    ensures Cut(t, t)
  {
  }

  lemma SameOutcome(packets: seq<seq<Byte>>, t: Trace)
    ensures After(packets, t).outcome == t.outcome
  {
  }

  lemma ThenOutcome(t: Trace, next: Trace)
    ensures Then(t, next).outcome == if t.outcome == Done then next.outcome else t.outcome
  {
  }

  lemma {:induction false} SectionsCut(buffer: seq<Byte>, cut: nat, at: nat, count: nat)
    requires cut <= |buffer|
    ensures Cut(Sections(buffer[..cut], at, count), Sections(buffer, at, count))
    decreases count
  {
    hide WordAt, Section, Cut, Then, Sum32;
    NothingIsCut(Sections(buffer, at, count));
    CutSelf(Trace([], Done));
    if count > 0 && at + 8 <= cut {
      WordAtCut(buffer, cut, at);
      var next := at + Sum32(WordAt(buffer, at), 4);
      SectionCut(buffer, cut, at);
      SectionsCut(buffer, cut, next, count - 1);
      CutThen(Section(buffer[..cut], at), Section(buffer, at), Sections(buffer[..cut], next, count - 1), Sections(buffer, next, count - 1));
    }
  }

  lemma NothingIsCut(t: Trace)
    ensures Cut(Trace([], NoMemory), t)
  {
  }

  lemma PayloadCut(buffer: seq<Byte>, cut: nat, at: nat, length: Word, source: Source)
    requires cut <= |buffer|
    ensures Cut(Payload(buffer[..cut], at, length, source), Payload(buffer, at, length, source))
  {
    hide WordAt, Header, ClearPackets, Cut, Copied, Sections, Then;
    NothingIsCut(Payload(buffer, at, length, source));
    match source
    case Configuration =>
      CopiedCut(buffer, cut, at, length);
      CutAfter([Header(ID_CONFIG_SIZE, length)], Copied(buffer[..cut], at, length), Copied(buffer, at, length));
      CutSelf(Trace(ClearPackets(), Done));
      CutThen(After([Header(ID_CONFIG_SIZE, length)], Copied(buffer[..cut], at, length)), After([Header(ID_CONFIG_SIZE, length)], Copied(buffer, at, length)),
              Trace(ClearPackets(), Done), Trace(ClearPackets(), Done));
    case Weights =>
      CutSelf(Trace([], NoDevice));
      if at + 4 <= cut {
        WordAtCut(buffer, cut, at);
        SectionsCut(buffer, cut, at + 4, WordAt(buffer, at));
      }
  }

  /** A download from a buffer that is cut short, whatever it holds, is the same download, or it ends
      for want of memory after some of the same packets. */
  lemma {:induction false} RecordsCut(buffer: seq<Byte>, cut: nat, at: nat, previous: Word, count: nat, source: Source)
    requires cut <= |buffer|
    ensures Cut(Records(buffer[..cut], at, previous, count, source), Records(buffer, at, previous, count, source))
    decreases count
  {
    hide WordAt, Payload, Cut, Then, After, WordPackets, Sum32;
    var id := at + Sum32(previous, 4);
    NothingIsCut(Records(buffer, at, previous, count, source));
    CutSelf(Trace([], Done));
    if count > 0 && id + 8 <= cut {
      WordAtCut(buffer, cut, id);
      WordAtCut(buffer, cut, id + 4);
      var chip, length := WordPackets(ID_CHIP, WordAt(buffer, id)), WordAt(buffer, id + 4);
      var c, t := Payload(buffer[..cut], id + 8, length, source), Payload(buffer, id + 8, length, source);
      PayloadCut(buffer, cut, id + 8, length, source);
      CutAfter(chip, c, t);
      RecordsCut(buffer, cut, id + 8, length, count - 1, source);
      CutThen(After(chip, c), After(chip, t), Records(buffer[..cut], id + 8, length, count - 1, source), Records(buffer, id + 8, length, count - 1, source));
    }
  }

  // ----- what the device has then

  lemma {:induction false} ItemsGrow(r: Receiver, packets: seq<seq<Byte>>)
    ensures r.items <= Receive(r, packets).items
    ensures r.mode == Failed ==> Receive(r, packets).mode == Failed
    decreases |packets|
  {
    if packets != [] {
      ItemsGrow(Take(r, packets[0]), packets[1..]);
      TakeGrows(r, packets[0]);
    }
  }

  lemma TakeGrows(r: Receiver, packet: seq<Byte>)
    ensures r.items <= Take(r, packet).items
    ensures r.mode == Failed ==> Take(r, packet).mode == Failed
  {
    hide KindOf, WordAt, ItemOf;
  }

  /** How much of a serialised model the walk needs: the word behind the last section is not looked
      at. */
  function Needed(rs: seq<Record>, source: Source): nat
    requires AllFit(rs, source)
  {
    if rs == [] then 0 else |Serialise(rs, source)| - (if source == Weights then 4 else 0)
  }

  lemma BlockWords(buffer: seq<Byte>, at: nat, b: Block)
    requires BlockFits(b) && At(buffer, at, BlockBytes(b))
    ensures at + 8 <= |buffer| && DataSize(WordAt(buffer, at)) == |b.data| && Sum32(WordAt(buffer, at), 4) == |b.data| + 12
  {
    hide Le, WordAt, At;
    AtWord(buffer, at, |b.data| + 8, Le(b.address) + (b.data + Le(b.trailer)));
    AtWord(buffer, at + 4, b.address, b.data + Le(b.trailer));
  }

  lemma {:induction false} SectionsNeed(buffer: seq<Byte>, cut: nat, at: nat, bs: seq<Block>)
    requires forall i :: 0 <= i < |bs| ==> BlockFits(bs[i])
    requires At(buffer, at, BlocksBytes(bs)) && cut <= |buffer| && bs != []
    ensures Sections(buffer[..cut], at, |bs|).outcome == Done <==> at + |BlocksBytes(bs)| <= cut + 4
    decreases |bs|
  {
    hide At, WordAt, Section, Sum32, DataSize, Then;
    var b := bs[0];
    AtParts(buffer, at, BlockBytes(b), BlocksBytes(bs[1..]));
    BlockWords(buffer, at, b);
    if at + 8 <= cut {
      var short, next := buffer[..cut], at + |BlockBytes(b)|;
      WordAtCut(buffer, cut, at);
      SectionCut(buffer, cut, at);
      ThenOutcome(Section(short, at), Sections(short, next, |bs| - 1));
      if |bs| > 1 {
        SectionsNeed(buffer, cut, next, bs[1..]);
        BlocksAreLong(bs[1..]);
      }
    }
  }

  lemma BlocksAreLong(bs: seq<Block>)
    requires forall i :: 0 <= i < |bs| ==> BlockFits(bs[i])
    ensures bs != [] ==> |BlocksBytes(bs)| >= 12
  {
    hide BlockBytes;
  }

  lemma PayloadNeeds(buffer: seq<Byte>, cut: nat, at: nat, r: Record, source: Source)
    requires Fits(r, source) && At(buffer, at, PayloadBytes(r, source)) && at <= cut <= |buffer|
    ensures Payload(buffer[..cut], at, |PayloadBytes(r, source)|, source).outcome == Done <==>
      at + |PayloadBytes(r, source)| <= cut + (if source == Weights then 4 else 0)
  {
    hide At, WordAt, Le, Header, ClearPackets, Copied, Sections, BlocksBytes, Then, After;
    var p := PayloadBytes(r, source);
    match source
    case Configuration =>
      var c := Copied(buffer[..cut], at, |p|);
      CopiedCut(buffer, cut, at, |p|);
      SameOutcome([Header(ID_CONFIG_SIZE, |p|)], c);
      ThenOutcome(After([Header(ID_CONFIG_SIZE, |p|)], c), Trace(ClearPackets(), Done));
    case Weights =>
      BlocksAreLong(r.body.blocks);
      AtWord(buffer, at, |r.body.blocks|, BlocksBytes(r.body.blocks));
      if at + 4 <= cut {
        WordAtCut(buffer, cut, at);
        SectionsNeed(buffer, cut, at + 4, r.body.blocks);
      }
  }

  lemma {:induction false} RecordsNeed(buffer: seq<Byte>, cut: nat, at: nat, previous: Word, rs: seq<Record>, source: Source)
    requires previous + 4 < 0x1_0000_0000 && AllFit(rs, source) && rs != []
    requires At(buffer, at + previous, Serialise(rs, source)) && cut <= |buffer|
    ensures Records(buffer[..cut], at, previous, |rs|, source).outcome == Done <==> at + previous + Needed(rs, source) <= cut
    decreases |rs|
  {
    hide At, WordAt, Le, Payload, PayloadBytes, Fits, WordPackets, Then, After;
    var r, p, start, short := rs[0], PayloadBytes(rs[0], source), at + previous, buffer[..cut];
    AtParts(buffer, start, RecordBytes(r, source), Serialise(rs[1..], source));
    AtWord(buffer, start, r.marker, Le(r.chip) + (Le(|p|) + p));
    AtWord(buffer, start + 4, r.chip, Le(|p|) + p);
    AtWord(buffer, start + 8, |p|, p);
    RecordLength(r, source);
    if start + 12 <= cut {
      WordAtCut(buffer, cut, start + 4);
      WordAtCut(buffer, cut, start + 8);
      PayloadNeeds(buffer, cut, start + 12, r, source);
      var chip, c := WordPackets(ID_CHIP, r.chip), Payload(short, start + 12, |p|, source);
      SameOutcome(chip, c);
      ThenOutcome(After(chip, c), Records(short, start + 12, |p|, |rs| - 1, source));
      if |rs| > 1 {
        RecordsNeed(buffer, cut, start + 12, |p|, rs[1..], source);
        RecordLength(rs[1], source);
      }
    }
  }

  lemma RecordLength(r: Record, source: Source)
    requires Fits(r, source)
    ensures |RecordBytes(r, source)| == 12 + |PayloadBytes(r, source)|
    ensures source == Weights ==> |PayloadBytes(r, source)| >= 4
  {
    hide BlocksBytes;
  }

  /** A model file cut anywhere: the download ends well if and only if nothing that is needed is
      missing, and fails for want of memory otherwise; and in any case the device has received the
      beginning of the model and nothing else, and has not failed. */
  lemma CutDownload(rs: seq<Record>, source: Source, behind: seq<Byte>, cut: nat)
    requires AllFit(rs, source) && cut <= |Serialise(rs, source) + behind|
    ensures var t := Records((Serialise(rs, source) + behind)[..cut], 0, 0, |rs|, source);
      && t.outcome == (if cut >= Needed(rs, source) then Done else NoMemory)
      && (t.outcome == Done ==> Receive(START, t.packets) == Receiver(Idle, RecordsItems(rs)))
      && Receive(START, t.packets).items <= RecordsItems(rs) && Receive(START, t.packets).mode != Failed
  {
    hide Records, Serialise, Receive, RecordsItems, Needed;
    var buffer := Serialise(rs, source) + behind;
    var c, t := Records(buffer[..cut], 0, 0, |rs|, source), Records(buffer, 0, 0, |rs|, source);
    assert At(buffer, 0, Serialise(rs, source));
    DownloadUndoesSerialise(rs, source, behind);
    RecordsCut(buffer, cut, 0, 0, |rs|, source);
    if rs == [] {
      NoRecords(buffer[..cut], source);
    } else {
      RecordsNeed(buffer, cut, 0, 0, rs, source);
    }
    PrefixReceived(c.packets, t.packets);
  }

  lemma NoRecords(buffer: seq<Byte>, source: Source)
    ensures Records(buffer, 0, 0, 0, source).outcome == Done && Needed([], source) == 0
  {
  }

  lemma PrefixReceived(a: seq<seq<Byte>>, b: seq<seq<Byte>>)
    requires a <= b && Receive(START, b).mode != Failed
    ensures Receive(START, a).items <= Receive(START, b).items && Receive(START, a).mode != Failed
  {
    hide Receive;
    assert b == a + b[|a|..];
    ReceiveAppend(START, a, b[|a|..]);
    ItemsGrow(Receive(START, a), b[|a|..]);
  }

  // ----- a record without sections

  /** The walk over serialised records goes on behind them. */
  lemma {:induction false} WalkGoesOn(buffer: seq<Byte>, at: nat, previous: Word, rs: seq<Record>, source: Source, more: nat)
    returns (last: nat, length: Word)
    requires previous + 4 < 0x1_0000_0000 && AllFit(rs, source) && At(buffer, at + previous, Serialise(rs, source))
    ensures length + 4 < 0x1_0000_0000 && last + length == at + previous + |Serialise(rs, source)|
    ensures Records(buffer, at, previous, |rs| + more, source) == After(RecordsPackets(rs, source), Records(buffer, last, length, more, source))
    decreases |rs|
  {
    hide At, WordAt, Le, Payload, PayloadBytes, PayloadPackets, Fits, WordPackets;
    if rs == [] {
      last, length := at, previous;
      assert [] + Records(buffer, at, previous, more, source).packets == Records(buffer, at, previous, more, source).packets;
    } else {
      var r, p, start := rs[0], PayloadBytes(rs[0], source), at + previous;
      AtParts(buffer, start, RecordBytes(r, source), Serialise(rs[1..], source));
      AtWord(buffer, start, r.marker, Le(r.chip) + (Le(|p|) + p));
      AtWord(buffer, start + 4, r.chip, Le(|p|) + p);
      AtWord(buffer, start + 8, |p|, p);
      PayloadOfRecord(buffer, start + 12, r, source);
      last, length := WalkGoesOn(buffer, start + 12, |p|, rs[1..], source, more);
      var chip, payload := WordPackets(ID_CHIP, r.chip), PayloadPackets(r, source);
      var rest := Records(buffer, last, length, more, source);
      AfterTwice(chip + payload, RecordsPackets(rs[1..], source), rest);
    }
  }

  /** Behind any serialised records, a record of no sections ends the download: its chip id has been
      sent, and the device is idle. */
  lemma NoSections(rs: seq<Record>, marker: Word, chip: Word, length: Word, behind: seq<Byte>, more: nat)
    requires AllFit(rs, Weights)
    ensures var t := Records(Serialise(rs, Weights) + (Le(marker) + (Le(chip) + (Le(length) + (Le(0) + behind)))), 0, 0, |rs| + 1 + more, Weights);
      t.outcome == NoDevice && Receive(START, t.packets) == Receiver(Idle, RecordsItems(rs) + [ChipId(chip)])
  {
    hide Serialise, RecordsPackets, Receive, RecordsItems, WordPackets, Le, WordAt, At, Payload;
    var record := Le(marker) + (Le(chip) + (Le(length) + (Le(0) + behind)));
    var buffer := Serialise(rs, Weights) + record;
    StartAndEnd(Serialise(rs, Weights), record);
    var last, before := WalkGoesOn(buffer, 0, 0, rs, Weights, 1 + more);
    var start := last + before;
    AtWord(buffer, start, marker, Le(chip) + (Le(length) + (Le(0) + behind)));
    AtWord(buffer, start + 4, chip, Le(length) + (Le(0) + behind));
    AtWord(buffer, start + 8, length, Le(0) + behind);
    AtWord(buffer, start + 12, 0, behind);
    NoPayload(buffer, start + 12, length);
    var t := Records(buffer, last, before, 1 + more, Weights);
    assert t.packets == WordPackets(ID_CHIP, chip) + [] == WordPackets(ID_CHIP, chip) && t.outcome == NoDevice;
    ReceiveRecords(rs, Weights, []);
    assert [] + RecordsItems(rs) == RecordsItems(rs);
    ReceiveAppend(START, RecordsPackets(rs, Weights), WordPackets(ID_CHIP, chip));
    WordReceived(ID_CHIP, chip, RecordsItems(rs));
  }

  lemma NoPayload(buffer: seq<Byte>, at: nat, length: Word)
    requires at + 4 <= |buffer| && WordAt(buffer, at) == 0
    ensures Payload(buffer, at, length, Weights) == Trace([], NoDevice)
  {
    hide WordAt, Sections;
  }

  lemma StartAndEnd(a: seq<Byte>, b: seq<Byte>)
    ensures At(a + b, 0, a) && At(a + b, |a|, b)
  {
  }
}
