/** The USB out pipe with its transfer buffer, and splitting data into packets. */
module UsbLink {
  import opened LittleEndian
  import opened UsbReceiver

  /** MAX_OPS_SIZE, which is also MAX_CFG_SZ. */
  const MAX_PACKET := 0x1_0000

  /** Packets of `limit` bytes, the last one shorter. */
  function Chunks(data: seq<Byte>, limit: nat): (r: seq<seq<Byte>>)
    requires limit > 0
    decreases |data|
  {
    if data == [] then [] else if |data| <= limit then [data] else [data[..limit]] + Chunks(data[limit..], limit)
  }

  function Concat(packets: seq<seq<Byte>>): seq<Byte> {
    if packets == [] then [] else packets[0] + Concat(packets[1..])
  }

  /** The packets are exactly the data in order, none is empty or over the limit, and only the last
      can be under it. */
  lemma {:induction false} ChunksAreTheData(data: seq<Byte>, limit: nat)
    requires limit > 0
    ensures Concat(Chunks(data, limit)) == data
    ensures forall i :: 0 <= i < |Chunks(data, limit)| ==> 0 < |Chunks(data, limit)[i]| <= limit
    ensures forall i :: 0 <= i < |Chunks(data, limit)| - 1 ==> |Chunks(data, limit)[i]| == limit
    decreases |data|
  {
    if data == [] {
    } else if |data| <= limit {
      assert Concat([data]) == data + Concat([]);
    } else {
      ChunksAreTheData(data[limit..], limit);
      var rest := Chunks(data[limit..], limit);
      assert Chunks(data, limit)[1..] == rest;
      assert data == data[..limit] + data[limit..];
      assert rest != [];
      forall i | 0 <= i < |Chunks(data, limit)|
        ensures 0 < |Chunks(data, limit)[i]| <= limit && (i < |Chunks(data, limit)| - 1 ==> |Chunks(data, limit)[i]| == limit)
      {
        if i > 0 {
          assert Chunks(data, limit)[i] == rest[i - 1];
        }
      }
    }
  }

  /** The 8-byte command that precedes data: an id and a size. */
  function Header(id: Word, size: Word): (r: seq<Byte>)
    ensures |r| == 8
  {
    Le(id) + Le(size)
  }

  const ID_CLEAR: Word := 0x952700
  const ID_FIRMWARE: Word := 0x952701
  const ID_DFP: Word := 0x952702
  const ID_CHIP: Word := 0x952705
  const ID_CONFIG_SIZE: Word := 0x952706
  const ID_WEIGHT_ADDRESS: Word := 0x952707
  const ID_WEIGHT_SIZE: Word := 0x952708

  function ClearPackets(): seq<seq<Byte>> { [Header(ID_CLEAR, 0), []] }

  function WordPackets(id: Word, value: Word): seq<seq<Byte>> { [Header(id, 4), Le(value)] + ClearPackets() }

  // ----- what the device makes of it

  lemma HeaderWords(id: Word, size: Word)
    ensures |Header(id, size)| == 8 && WordAt(Header(id, size), 0) == id && WordAt(Header(id, size), 4) == size
  {
    hide Le, WordAt;
    WordRoundTrip(Header(id, size), 0, id);
    WordRoundTrip(Header(id, size), 4, size);
  }

  lemma HeaderReceived(id: Word, size: Word, items: seq<Item>)
    requires Announces(KindOf(id), size)
    ensures Receive(Receiver(Idle, items), [Header(id, size)]) == Receiver(Open(KindOf(id), size, []), items)
  {
    hide Header, WordAt, KindOf, Receive;
    HeaderWords(id, size);
    ReceiveOne(Receiver(Idle, items), Header(id, size));
  }

  lemma {:induction false} ChunksReceived(kind: Kind, data: seq<Byte>, got: seq<Byte>, limit: nat, items: seq<Item>)
    requires limit > 0
    ensures Receive(Receiver(Open(kind, |data|, got), items), Chunks(data, limit)) == Receiver(Open(kind, 0, got + data), items)
    decreases |data|
  {
    var r := Receiver(Open(kind, |data|, got), items);
    if data == [] {
      assert got + data == got;
    } else if |data| <= limit {
      ReceiveOne(r, data);
    } else {
      ChunksReceived(kind, data[limit..], got + data[..limit], limit, items);
      assert ([data[..limit]] + Chunks(data[limit..], limit))[1..] == Chunks(data[limit..], limit);
      assert got + data[..limit] + data[limit..] == got + data;
    }
  }

  lemma ClearReceived(kind: Kind, got: seq<Byte>, items: seq<Item>)
    requires Announces(kind, |got|)
    ensures Receive(Receiver(Open(kind, 0, got), items), ClearPackets()) == Receiver(Idle, items + [ItemOf(kind, got)])
  {
    var r := Receiver(Open(kind, 0, got), items);
    ReceiveAppend(r, [Header(ID_CLEAR, 0)], [[]]);
    ReceiveOne(r, Header(ID_CLEAR, 0));
    ReceiveOne(Take(r, Header(ID_CLEAR, 0)), []);
  }

  /** A header, data in packets, and the closing command. */
  function DataPackets(id: Word, data: seq<Byte>): seq<seq<Byte>>
    requires |data| < 0x1_0000_0000
  {
    [Header(id, |data|)] + Chunks(data, MAX_PACKET) + ClearPackets()
  }

  lemma DataReceived(id: Word, data: seq<Byte>, items: seq<Item>)
    requires |data| < 0x1_0000_0000 && Announces(KindOf(id), |data|)
    ensures Receive(Receiver(Idle, items), DataPackets(id, data)) == Receiver(Idle, items + [ItemOf(KindOf(id), data)])
  {
    hide Header, Chunks, ClearPackets, Receive, KindOf, ItemOf;
    var r := Receiver(Idle, items);
    ReceiveAppend(r, [Header(id, |data|)] + Chunks(data, MAX_PACKET), ClearPackets());
    ReceiveAppend(r, [Header(id, |data|)], Chunks(data, MAX_PACKET));
    HeaderReceived(id, |data|, items);
    ChunksReceived(KindOf(id), data, [], MAX_PACKET, items);
    assert [] + data == data;
    ClearReceived(KindOf(id), data, items);
  }

  lemma WordReceived(id: Word, value: Word, items: seq<Item>)
    requires id == ID_CHIP || id == ID_WEIGHT_ADDRESS
    ensures Receive(Receiver(Idle, items), WordPackets(id, value)) == Receiver(Idle, items + [if id == ID_CHIP then ChipId(value) else Address(value)])
  {
    hide Header, ClearPackets, Receive, Le, WordAt;
    var kind := KindOf(id);
    WordRoundTrip(Le(value), 0, value);
    assert Le(value)[0..4] == Le(value) && [] + Le(value) == Le(value);
    assert WordPackets(id, value) == DataPackets(id, Le(value)) by {
      assert Chunks(Le(value), MAX_PACKET) == [Le(value)];
      assert [Header(id, 4), Le(value)] == [Header(id, 4)] + [Le(value)];
    }
    DataReceived(id, Le(value), items);
  }

  /** A transfer buffer that every packet goes through, and the packets submitted so far. */
  class Link {
    const tbuffer: array<Byte>
    var sent: seq<seq<Byte>>

    constructor ()
      ensures fresh(tbuffer) && Valid() && sent == []
    {
      tbuffer := new Byte[MAX_PACKET];
      sent := [];
    }

    predicate Valid()
      reads this
    {
      tbuffer.Length == MAX_PACKET
    }

    /** usb_fill_bulk_urb, usb_submit_urb and the wait for completion. */
    method Submit(n: nat)
      requires Valid() && n <= MAX_PACKET
      modifies this`sent
      ensures sent == old(sent) + [tbuffer[..n]]
    {
      sent := sent + [tbuffer[..n]];
    }

    method Load(data: seq<Byte>)
      requires Valid() && |data| <= MAX_PACKET
      modifies tbuffer
      ensures tbuffer[..|data|] == data
    {
      for i := 0 to |data|
        invariant tbuffer[..i] == data[..i]
      {
        tbuffer[i] := data[i];
      }
      assert data[..|data|] == data;
    }

    /** copy_from_user into the transfer buffer; false when the range is not mapped. */
    method CopyFromUser(buffer: seq<Byte>, at: nat, n: nat) returns (ok: bool)
      requires Valid() && n <= MAX_PACKET
      modifies tbuffer
      ensures ok <==> at + n <= |buffer|
      ensures ok ==> tbuffer[..n] == buffer[at..at + n]
    {
      ok := at + n <= |buffer|;
      if ok {
        Load(buffer[at..at + n]);
      }
    }

    method SendHeader(id: Word, size: Word)
      requires Valid()
      modifies this`sent, tbuffer
      ensures sent == old(sent) + [Header(id, size)]
    {
      Load(Header(id, size));
      Submit(8);
    }

    /** clear_fw_id: the clear command and a zero-length packet. */
    method ClearId()
      requires Valid()
      modifies this`sent, tbuffer
      ensures sent == old(sent) + ClearPackets()
    {
      SendHeader(ID_CLEAR, 0);
      Submit(0);
    }

    /** set_dfp_chip_id and set_wtmem_addr. */
    method SendWord(id: Word, value: Word)
      requires Valid()
      modifies this`sent, tbuffer
      ensures sent == old(sent) + WordPackets(id, value)
    {
      SendHeader(id, 4);
      Load(Le(value));
      Submit(4);
      ClearId();
    }

    /** The chunk loop of memx_flash_download: an image already in kernel memory. */
    method FlashDownload(firmware: bool, image: seq<Byte>)
      requires Valid() && |image| < 0x1_0000_0000
      modifies this`sent, tbuffer
      ensures sent == old(sent) + DataPackets(if firmware then ID_FIRMWARE else ID_DFP, image)
      ensures |old(sent)| <= |sent| && Receive(START, sent[|old(sent)|..]) == Receiver(Idle, [if firmware then Firmware(image) else Model(image)])
    {
      hide Chunks, Header, ClearPackets, Receive, KindOf;
      SendHeader(if firmware then ID_FIRMWARE else ID_DFP, |image|);
      ghost var base := sent;
      var position, remaining := 0, |image|;
      assert image[0..] == image;
      while remaining > 0
        invariant 0 <= position && 0 <= remaining && position + remaining == |image|
        invariant sent + Chunks(image[position..], MAX_PACKET) == base + Chunks(image, MAX_PACKET)
      {
        var size := if remaining > MAX_PACKET then MAX_PACKET else remaining;
        Load(image[position..position + size]);
        Submit(size);
        ChunksStep(image, position, MAX_PACKET);
        position, remaining := position + size, remaining - size;
      }
      assert image[position..] == [];
      ClearId();
      NoChunks(MAX_PACKET);
      FlashReceived(old(sent), sent, firmware, image);
    }

    /** The chunk loop of memx_write. A packet that cannot be copied ends the call with result 0;
        the packets before it have been sent. */
    method Write(buffer: seq<Byte>, bytes: nat, limit: nat) returns (written: nat)
      requires Valid() && 0 < limit <= MAX_PACKET
      modifies this`sent, tbuffer
      ensures var total := AsInt32(bytes);
        if total <= 0 then written == 0 && sent == old(sent)
        else
          && sent == old(sent) + Chunks(buffer[..MappedEnd(|buffer|, total, limit)], limit)
          && written == if total <= |buffer| then total else 0
    {
      hide Chunks, AsInt32;
      written := 0;
      var remaining := AsInt32(bytes);
      if remaining <= 0 {
        return;
      }
      var i, position := 0, 0;
      ghost var total := remaining;
      ghost var data := buffer[..MappedEnd(|buffer|, total, limit)];
      assert data[0..] == data;
      while remaining > 0
        invariant remaining >= 0 && (remaining > 0 ==> position == i * limit)
        invariant 0 <= position <= |data| && written == position == total - remaining
        invariant sent + Chunks(data[position..], limit) == old(sent) + Chunks(data, limit)
      {
        var size := if remaining > limit then limit else remaining;
        var ok := CopyFromUser(buffer, i * limit, size);
        if total > |buffer| {
          WholePackets(i, |buffer|, limit);
        }
        if !ok {
          assert data[position..] == [];
          NoChunks(limit);
          return 0;
        }
        Submit(size);
        ChunksStep(data, position, limit);
        assert buffer[position..position + size] == data[position..position + size];
        assert (i + 1) * limit == i * limit + limit;
        written := written + size;
        remaining := remaining - size;
        position := position + size;
        i := i + 1;
      }
      assert data[position..] == [];
      NoChunks(limit);
    }
  }

  /** A flash download's packets, behind what was sent before. */
  lemma FlashReceived(was: seq<seq<Byte>>, now: seq<seq<Byte>>, firmware: bool, image: seq<Byte>)
    requires |image| < 0x1_0000_0000
    requires now == was + [Header(if firmware then ID_FIRMWARE else ID_DFP, |image|)] + Chunks(image, MAX_PACKET) + ClearPackets()
    ensures now == was + DataPackets(if firmware then ID_FIRMWARE else ID_DFP, image)
    ensures Receive(START, now[|was|..]) == Receiver(Idle, [if firmware then Firmware(image) else Model(image)])
  {
    hide Chunks, Header, ClearPackets, Receive;
    assert now == was + DataPackets(if firmware then ID_FIRMWARE else ID_DFP, image);
    assert now[|was|..] == DataPackets(if firmware then ID_FIRMWARE else ID_DFP, image);
    DataReceived(if firmware then ID_FIRMWARE else ID_DFP, image, []);
  }

  lemma NoChunks(limit: nat)
    requires limit > 0
    ensures Chunks([], limit) == []
  {
  }

  /** Taking one packet off the front. */
  lemma ChunksStep(data: seq<Byte>, at: nat, limit: nat)
    requires limit > 0 && at < |data|
    ensures var size := if |data| - at > limit then limit else |data| - at;
      Chunks(data[at..], limit) == [data[at..at + size]] + Chunks(data[at + size..], limit)
  {
    if |data| - at > limit {
      assert data[at..][..limit] == data[at..at + limit] && data[at..][limit..] == data[at + limit..];
    } else {
      assert data[at..|data|] == data[at..] && data[|data|..] == [];
    }
  }

  /** Conversion of a size_t to a 32-bit int. */
  function AsInt32(n: nat): (r: int)
    ensures n < 0x8000_0000 ==> r == n
    ensures -0x8000_0000 <= r < 0x8000_0000 && (n - r) % 0x1_0000_0000 == 0
  {
    var low := n % 0x1_0000_0000;
    if low < 0x8000_0000 then low else low - 0x1_0000_0000
  }

  /** How much of a request is sent from a user buffer that is mapped only up to its length: all of
      it, or the whole packets that are mapped. */
  function MappedEnd(mapped: nat, total: nat, limit: nat): (end: nat)
    requires limit > 0
    ensures end <= mapped && end <= total
  {
    if total <= mapped then total
    else
      WholePackets(mapped / limit, mapped, limit);
      mapped / limit * limit
  }

  /** A packet boundary at or before the end of the mapping is the last one exactly when no whole
      packet fits behind it. */
  lemma WholePackets(i: nat, mapped: nat, limit: nat)
    requires limit > 0 && i * limit <= mapped
    ensures mapped / limit * limit <= mapped
    ensures i * limit + limit <= mapped ==> i * limit + limit <= mapped / limit * limit
    ensures i * limit + limit > mapped ==> i * limit == mapped / limit * limit
  {
    var q := mapped / limit;
    assert mapped == q * limit + mapped % limit;
    if i < q {
      assert (i + 1) * limit <= q * limit;
    } else if i > q {
      assert (q + 1) * limit <= i * limit;
    }
  }
}
