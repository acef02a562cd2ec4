/** The serialised form of a compiled model, and the proof that the driver's walk over it undoes
    the serialisation. */
module DfpFormat {
  import opened LittleEndian
  import opened UsbLink
  import opened UsbReceiver
  import opened Dfp

  /** A piece of weight memory; the word after the data is not looked at. */
  datatype Block = Block(address: Word, data: seq<Byte>, trailer: Word)

  datatype Body = ConfigurationData(data: seq<Byte>) | WeightBlocks(blocks: seq<Block>)

  /** What one chip is given; the marker is not looked at. */
  datatype Record = Record(marker: Word, chip: Word, body: Body)

  predicate BlockFits(b: Block) { |b.data| + 12 < 0x1_0000_0000 }

  function BlockBytes(b: Block): (r: seq<Byte>)
    requires BlockFits(b)
    ensures |r| == |b.data| + 12
  {
    Le(|b.data| + 8) + (Le(b.address) + (b.data + Le(b.trailer)))
  }

  function BlocksBytes(bs: seq<Block>): seq<Byte>
    requires forall i :: 0 <= i < |bs| ==> BlockFits(bs[i])
  {
    if bs == [] then [] else BlockBytes(bs[0]) + BlocksBytes(bs[1..])
  }

  predicate Fits(r: Record, source: Source) {
    match source
    case Configuration => r.body.ConfigurationData? && |r.body.data| + 4 < 0x1_0000_0000
    case Weights =>
      && r.body.WeightBlocks?
      && 0 < |r.body.blocks| < 0x1_0000_0000
      && (forall i :: 0 <= i < |r.body.blocks| ==> BlockFits(r.body.blocks[i]))
      && |BlocksBytes(r.body.blocks)| + 8 < 0x1_0000_0000
  }

  function PayloadBytes(r: Record, source: Source): (p: seq<Byte>)
    requires Fits(r, source)
    ensures |p| + 4 < 0x1_0000_0000
  {
    match source
    case Configuration => r.body.data
    case Weights => Le(|r.body.blocks|) + BlocksBytes(r.body.blocks)
  }

  function RecordBytes(r: Record, source: Source): seq<Byte>
    requires Fits(r, source)
  {
    Le(r.marker) + (Le(r.chip) + (Le(|PayloadBytes(r, source)|) + PayloadBytes(r, source)))
  }

  predicate AllFit(rs: seq<Record>, source: Source) { forall i :: 0 <= i < |rs| ==> Fits(rs[i], source) }

  function Serialise(rs: seq<Record>, source: Source): seq<Byte>
    requires AllFit(rs, source)
  {
    if rs == [] then [] else RecordBytes(rs[0], source) + Serialise(rs[1..], source)
  }

  // ----- what a device should receive

  function BlocksItems(bs: seq<Block>): seq<Item> {
    if bs == [] then [] else [Address(bs[0].address), WeightData(bs[0].data)] + BlocksItems(bs[1..])
  }

  function BodyItems(body: Body): seq<Item> {
    match body
    case ConfigurationData(data) => [Settings(data)]
    case WeightBlocks(blocks) => BlocksItems(blocks)
  }

  function RecordsItems(rs: seq<Record>): seq<Item> {
    if rs == [] then [] else [ChipId(rs[0].chip)] + BodyItems(rs[0].body) + RecordsItems(rs[1..])
  }

  // ----- reading back

  predicate At(buffer: seq<Byte>, at: nat, bytes: seq<Byte>) {
    at + |bytes| <= |buffer| && buffer[at..at + |bytes|] == bytes
  }

  lemma AtParts(buffer: seq<Byte>, at: nat, x: seq<Byte>, y: seq<Byte>)
    requires At(buffer, at, x + y)
    ensures At(buffer, at, x) && At(buffer, at + |x|, y)
  {
    var whole := buffer[at..at + |x + y|];
    assert whole[..|x|] == x && whole[|x|..] == y;
    assert buffer[at..at + |x|] == whole[..|x|];
    assert buffer[at + |x|..at + |x| + |y|] == whole[|x|..];
  }

  lemma AtWord(buffer: seq<Byte>, at: nat, w: Word, rest: seq<Byte>)
    requires At(buffer, at, Le(w) + rest)
    ensures at + 4 <= |buffer| && WordAt(buffer, at) == w
    ensures At(buffer, at + 4, rest)
  {
    hide Le, WordAt, At;
    AtParts(buffer, at, Le(w), rest);
    AtOnlyWord(buffer, at, w);
  }

  lemma AtOnlyWord(buffer: seq<Byte>, at: nat, w: Word)
    requires At(buffer, at, Le(w))
    ensures at + 4 <= |buffer| && WordAt(buffer, at) == w
  {
    hide Le, WordAt;
    WordRoundTrip(buffer, at, w);
  }

  // ----- the walk over one part

  lemma {:induction false} CopiedIsChunks(buffer: seq<Byte>, at: nat, n: nat)
    requires at + n <= |buffer|
    ensures Copied(buffer, at, n) == Trace(Chunks(buffer[at..at + n], MAX_PACKET), Done)
    decreases n
  {
    var data := buffer[at..at + n];
    if n > 0 {
      var size := if n > MAX_PACKET then MAX_PACKET else n;
      CopiedIsChunks(buffer, at + size, n - size);
      assert data[..size] == buffer[at..at + size];
      assert data[size..] == buffer[at + size..at + n];
    }
  }

  function BlockPackets(b: Block): seq<seq<Byte>>
    requires BlockFits(b)
  {
    WordPackets(ID_WEIGHT_ADDRESS, b.address) + DataPackets(ID_WEIGHT_SIZE, b.data)
  }

  function BlocksPackets(bs: seq<Block>): seq<seq<Byte>>
    requires forall i :: 0 <= i < |bs| ==> BlockFits(bs[i])
  {
    if bs == [] then [] else BlockPackets(bs[0]) + BlocksPackets(bs[1..])
  }

  function PayloadPackets(r: Record, source: Source): seq<seq<Byte>>
    requires Fits(r, source)
  {
    match source
    case Configuration => DataPackets(ID_CONFIG_SIZE, r.body.data)
    case Weights => BlocksPackets(r.body.blocks)
  }

  function RecordsPackets(rs: seq<Record>, source: Source): seq<seq<Byte>>
    requires AllFit(rs, source)
  {
    if rs == [] then []
    else WordPackets(ID_CHIP, rs[0].chip) + PayloadPackets(rs[0], source) + RecordsPackets(rs[1..], source)
  }

  lemma SectionOfBlock(buffer: seq<Byte>, at: nat, b: Block)
    requires BlockFits(b) && At(buffer, at, BlockBytes(b))
    ensures at + 8 <= |buffer|
    ensures Section(buffer, at) == Trace(BlockPackets(b), Done)
    ensures Sum32(WordAt(buffer, at), 4) == |BlockBytes(b)|
  {
    hide Le, WordAt, At, WordPackets, Header, Chunks, Copied, ClearPackets;
    AtWord(buffer, at, |b.data| + 8, Le(b.address) + (b.data + Le(b.trailer)));
    AtWord(buffer, at + 4, b.address, b.data + Le(b.trailer));
    AtParts(buffer, at + 8, b.data, Le(b.trailer));
    AtIs(buffer, at + 8, b.data);
    CopiedIsChunks(buffer, at + 8, |b.data|);
    assert Section(buffer, at).packets == BlockPackets(b);
  }

  lemma AtIs(buffer: seq<Byte>, at: nat, bytes: seq<Byte>)
    requires At(buffer, at, bytes)
    ensures at + |bytes| <= |buffer| && buffer[at..at + |bytes|] == bytes
  {
  }

  lemma {:induction false} SectionsOfBlocks(buffer: seq<Byte>, at: nat, bs: seq<Block>)
    requires forall i :: 0 <= i < |bs| ==> BlockFits(bs[i])
    requires At(buffer, at, BlocksBytes(bs))
    ensures Sections(buffer, at, |bs|) == Trace(BlocksPackets(bs), Done)
    decreases |bs|
  {
    hide At, WordAt, BlockBytes, BlockPackets, Section, Sum32;
    if bs != [] {
      AtParts(buffer, at, BlockBytes(bs[0]), BlocksBytes(bs[1..]));
      SectionOfBlock(buffer, at, bs[0]);
      SectionsOfBlocks(buffer, at + |BlockBytes(bs[0])|, bs[1..]);
    }
  }

  lemma PayloadOfRecord(buffer: seq<Byte>, at: nat, r: Record, source: Source)
    requires Fits(r, source) && At(buffer, at, PayloadBytes(r, source))
    ensures Payload(buffer, at, |PayloadBytes(r, source)|, source) == Trace(PayloadPackets(r, source), Done)
  {
    hide At, WordAt, Le, Header, Chunks, Copied, ClearPackets, Sections, BlocksBytes, BlocksPackets;
    match source
    case Configuration =>
      AtIs(buffer, at, r.body.data);
      CopiedIsChunks(buffer, at, |r.body.data|);
    case Weights =>
      AtWord(buffer, at, |r.body.blocks|, BlocksBytes(r.body.blocks));
      SectionsOfBlocks(buffer, at + 4, r.body.blocks);
  }

  /** The walk over serialised records ends well and sends exactly their packets. */
  lemma {:induction false} WalkOfSerialised(buffer: seq<Byte>, at: nat, previous: Word, rs: seq<Record>, source: Source)
    requires previous + 4 < 0x1_0000_0000 && AllFit(rs, source)
    requires At(buffer, at + previous, Serialise(rs, source))
    ensures Records(buffer, at, previous, |rs|, source) == Trace(RecordsPackets(rs, source), Done)
    decreases |rs|
  {
    hide At, WordAt, Le, Payload, PayloadBytes, PayloadPackets, Fits, WordPackets;
    if rs != [] {
      var r, p := rs[0], PayloadBytes(rs[0], source);
      var start := at + previous;
      AtParts(buffer, start, RecordBytes(r, source), Serialise(rs[1..], source));
      AtWord(buffer, start, r.marker, Le(r.chip) + (Le(|p|) + p));
      AtWord(buffer, start + 4, r.chip, Le(|p|) + p);
      AtWord(buffer, start + 8, |p|, p);
      PayloadOfRecord(buffer, start + 12, r, source);
      WalkOfSerialised(buffer, start + 12, |p|, rs[1..], source);
    }
  }

  // ----- the device

  lemma {:induction false} BlocksReceived(bs: seq<Block>, items: seq<Item>)
    requires forall i :: 0 <= i < |bs| ==> BlockFits(bs[i])
    ensures Receive(Receiver(Idle, items), BlocksPackets(bs)) == Receiver(Idle, items + BlocksItems(bs))
    decreases |bs|
  {
    hide Receive, WordPackets, DataPackets;
    if bs == [] {
      NothingReceived(items);
    } else {
      var r, b := Receiver(Idle, items), bs[0];
      ReceiveAppend(r, BlockPackets(b), BlocksPackets(bs[1..]));
      ReceiveAppend(r, WordPackets(ID_WEIGHT_ADDRESS, b.address), DataPackets(ID_WEIGHT_SIZE, b.data));
      WordReceived(ID_WEIGHT_ADDRESS, b.address, items);
      DataReceived(ID_WEIGHT_SIZE, b.data, items + [Address(b.address)]);
      BlocksReceived(bs[1..], items + [Address(b.address)] + [WeightData(b.data)]);
      assert items + [Address(b.address)] + [WeightData(b.data)] + BlocksItems(bs[1..]) == items + BlocksItems(bs);
    }
  }

  lemma NothingReceived(items: seq<Item>)
    ensures Receive(Receiver(Idle, items), []) == Receiver(Idle, items + [])
  {
    assert items + [] == items;
  }

  lemma PayloadReceived(r: Record, source: Source, items: seq<Item>)
    requires Fits(r, source)
    ensures Receive(Receiver(Idle, items), PayloadPackets(r, source)) == Receiver(Idle, items + BodyItems(r.body))
  {
    hide Receive, DataPackets, BlocksPackets, BlocksItems;
    match source
    case Configuration => DataReceived(ID_CONFIG_SIZE, r.body.data, items);
    case Weights => BlocksReceived(r.body.blocks, items);
  }

  lemma {:induction false} ReceiveRecords(rs: seq<Record>, source: Source, items: seq<Item>)
    requires AllFit(rs, source)
    ensures Receive(Receiver(Idle, items), RecordsPackets(rs, source)) == Receiver(Idle, items + RecordsItems(rs))
    decreases |rs|
  {
    hide WordPackets, PayloadPackets, BodyItems, Fits, Receive;
    if rs == [] {
      NothingReceived(items);
    } else {
      var r := Receiver(Idle, items);
      var chip, payload, more := WordPackets(ID_CHIP, rs[0].chip), PayloadPackets(rs[0], source), RecordsPackets(rs[1..], source);
      ReceiveAppend(r, chip + payload, more);
      ReceiveAppend(r, chip, payload);
      WordReceived(ID_CHIP, rs[0].chip, items);
      PayloadReceived(rs[0], source, items + [ChipId(rs[0].chip)]);
      ReceiveRecords(rs[1..], source, items + [ChipId(rs[0].chip)] + BodyItems(rs[0].body));
      assert items + [ChipId(rs[0].chip)] + BodyItems(rs[0].body) + RecordsItems(rs[1..]) == items + RecordsItems(rs);
    }
  }

  /** Serialise, walk, receive: a device that insists on the closing command and the empty packet
      behind everything gets every chip id, every weight address and all data once, in order and
      complete, and is idle at the end, whatever the buffer holds behind the records. */
  lemma DownloadUndoesSerialise(rs: seq<Record>, source: Source, behind: seq<Byte>)
    requires AllFit(rs, source)
    ensures var t := Records(Serialise(rs, source) + behind, 0, 0, |rs|, source);
      t.outcome == Done && Receive(START, t.packets) == Receiver(Idle, RecordsItems(rs))
  {
    hide Records, Serialise, RecordsPackets, Receive;
    var buffer := Serialise(rs, source) + behind;
    assert At(buffer, 0, Serialise(rs, source));
    WalkOfSerialised(buffer, 0, 0, rs, source);
    ReceiveRecords(rs, source, []);
    assert [] + RecordsItems(rs) == RecordsItems(rs);
  }

  // ----- any buffer

  predicate Fitting(t: Trace) { forall i :: 0 <= i < |t.packets| ==> |t.packets[i]| <= MAX_PACKET }

  lemma {:induction false} CopiedFits(buffer: seq<Byte>, at: nat, n: nat)
    ensures Fitting(Copied(buffer, at, n))
    decreases n
  {
    if n > 0 {
      var size := if n > MAX_PACKET then MAX_PACKET else n;
      CopiedFits(buffer, at + size, n - size);
    }
  }

  lemma FittingThen(first: Trace, next: Trace)
    requires Fitting(first) && Fitting(next)
    ensures Fitting(Then(first, next))
  {
  }

  lemma FittingAfter(packets: seq<seq<Byte>>, t: Trace)
    requires Fitting(Trace(packets, Done)) && Fitting(t)
    ensures Fitting(After(packets, t))
  {
  }

  lemma FittingCommands(id: Word, value: Word)
    ensures Fitting(Trace(WordPackets(id, value), Done)) && Fitting(Trace([Header(id, value)], Done))
    ensures Fitting(Trace(ClearPackets(), Done))
  {
  }

  lemma SectionFits(buffer: seq<Byte>, at: nat)
    requires at + 8 <= |buffer|
    ensures Fitting(Section(buffer, at))
  {
    hide Fitting, WordPackets, Header, ClearPackets, After, Then;
    var size, address := DataSize(WordAt(buffer, at)), WordAt(buffer, at + 4);
    FittingCommands(ID_WEIGHT_ADDRESS, address);
    FittingCommands(ID_WEIGHT_SIZE, size);
    CopiedFits(buffer, at + 8, size);
    FittingBoth(WordPackets(ID_WEIGHT_ADDRESS, address), [Header(ID_WEIGHT_SIZE, size)]);
    FittingAfter(WordPackets(ID_WEIGHT_ADDRESS, address) + [Header(ID_WEIGHT_SIZE, size)], Copied(buffer, at + 8, size));
    FittingThen(After(WordPackets(ID_WEIGHT_ADDRESS, address) + [Header(ID_WEIGHT_SIZE, size)], Copied(buffer, at + 8, size)),
                Trace(ClearPackets(), Done));
  }

  lemma FittingBoth(ps: seq<seq<Byte>>, qs: seq<seq<Byte>>)
    requires Fitting(Trace(ps, Done)) && Fitting(Trace(qs, Done))
    ensures Fitting(Trace(ps + qs, Done))
  {
  }

  lemma {:induction false} SectionsFit(buffer: seq<Byte>, at: nat, count: nat)
    ensures Fitting(Sections(buffer, at, count))
    decreases count
  {
    hide WordAt, Section, Then, Sum32;
    if count > 0 && at + 8 <= |buffer| {
      var next := at + Sum32(WordAt(buffer, at), 4);
      SectionFits(buffer, at);
      SectionsFit(buffer, next, count - 1);
      FittingThen(Section(buffer, at), Sections(buffer, next, count - 1));
    }
  }

  lemma PayloadFits(buffer: seq<Byte>, at: nat, length: Word, source: Source)
    ensures Fitting(Payload(buffer, at, length, source))
  {
    match source
    case Configuration =>
      hide Fitting, Header, ClearPackets, After, Then, Copied;
      CopiedFits(buffer, at, length);
      FittingCommands(ID_CONFIG_SIZE, length);
      FittingAfter([Header(ID_CONFIG_SIZE, length)], Copied(buffer, at, length));
      FittingThen(After([Header(ID_CONFIG_SIZE, length)], Copied(buffer, at, length)), Trace(ClearPackets(), Done));
    case Weights =>
      hide WordAt, Sections;
      if at + 4 <= |buffer| {
        SectionsFit(buffer, at + 4, WordAt(buffer, at));
      }
  }

  /** No packet is ever longer than the transfer buffer, whatever sizes a buffer claims. */
  lemma {:induction false} PacketsFit(buffer: seq<Byte>, at: nat, previous: Word, count: nat, source: Source)
    ensures Fitting(Records(buffer, at, previous, count, source))
    decreases count
  {
    hide WordAt, Payload, Sum32, Then, After, WordPackets;
    var id := at + Sum32(previous, 4);
    if count > 0 && id + 8 <= |buffer| {
      var chip, length := WordAt(buffer, id), WordAt(buffer, id + 4);
      PacketsFit(buffer, id + 8, length, count - 1, source);
      PayloadFits(buffer, id + 8, length, source);
      FittingCommands(ID_CHIP, chip);
      FittingAfter(WordPackets(ID_CHIP, chip), Payload(buffer, id + 8, length, source));
      FittingThen(After(WordPackets(ID_CHIP, chip), Payload(buffer, id + 8, length, source)),
                  Records(buffer, id + 8, length, count - 1, source));
    }
  }
}
