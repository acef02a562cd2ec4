/** The flash update tool: erasing and programming a NOR flash over QSPI. Erasing sets every bit of
    a sector or block; programming can only clear bits and wraps around inside a 256-byte page; both
    need the write-enable latch, which the flash clears again. */
module Flash {

  const SECTOR := 0x1000
  const BLOCK := 0x1_0000
  const PAGE := 0x100
  /** MAX_TRANSFER_LEN. */
  const TRANSFER := 32
  /** FSBL_SIZE_MAX: the size of the tool's image buffer. */
  const BUFFER := 0x4_0000

  const ERASED: bv8 := 0xFF

  function And(a: bv8, b: bv8): bv8 { a & b }

  lemma ProgramErased(b: bv8)
    ensures And(ERASED, b) == b
  {
  }

  /** Where the byte at an offset into a program command ends up. */
  function InPage(address: nat, offset: nat): nat { address / PAGE * PAGE + (address + offset) % PAGE }

  /** How far into a program command at an address a cell of the same page comes. */
  function OffsetOf(address: nat, cell: nat): nat { (cell - address) % PAGE }

  predicate Touched(address: nat, cell: nat, n: nat) { cell / PAGE == address / PAGE && OffsetOf(address, cell) < n }

  lemma TouchedNext(address: nat, cell: nat, k: nat)
    requires k < PAGE
    ensures Touched(address, cell, k + 1) <==> Touched(address, cell, k) || cell == InPage(address, k)
    ensures cell == InPage(address, k) ==> OffsetOf(address, cell) == k && !Touched(address, cell, k)
  {
    var page, from := address / PAGE * PAGE, address % PAGE;
    assert (address + k) % PAGE == (from + k) % PAGE;
    if cell / PAGE == address / PAGE {
      var to := cell % PAGE;
      assert cell - address == to - from;
    }
  }

  /** A program that starts at a multiple of 32 does not reach the end of its page, so it touches
      exactly the 32 cells from its address on. */
  lemma NoWrap(address: nat, cell: nat)
    requires address % TRANSFER == 0
    ensures Touched(address, cell, TRANSFER) <==> address <= cell < address + TRANSFER
    ensures Touched(address, cell, TRANSFER) ==> OffsetOf(address, cell) == cell - address
  {
    var from, to := address % PAGE, cell % PAGE;
    assert from <= PAGE - TRANSFER;
    if cell / PAGE == address / PAGE {
      assert cell - address == to - from;
    }
  }

  /** The erase unit of a size, and how many are erased. */
  function Unit(size: nat): nat { if size % BLOCK != 0 then SECTOR else BLOCK }

  function Units(size: nat): (n: nat)
    ensures n > 0
  {
    if size / Unit(size) == 0 then 1 else size / Unit(size)
  }

  function Span(size: nat): nat { Units(size) * Unit(size) }

  /** The number of transfers for a byte count. */
  function Transfers(count: nat): nat { (count + TRANSFER - 1) / TRANSFER }

  /** The size to erase: a multiple of 16 KB. */
  function RoundedUp(size: nat): nat { (size + 16383) / 16384 * 16384 }

  predicate AllGranted(grants: nat -> bool, from: nat, to: nat) { forall i: nat :: from <= i < to ==> grants(i) }

  /** Whether the transfer that carries a byte is granted, counting from the first one. */
  predicate Arrives(grants: nat -> bool, first: nat, byte: nat) { grants(first + byte / TRANSFER) }

  lemma InSpan(i: nat, n: nat, unit: nat)
    requires i < n
    ensures i * unit + unit <= n * unit
  {
    assert (i + 1) * unit <= n * unit;
  }

  lemma Aligned(address: nat, i: nat, unit: nat)
    requires address % BLOCK == 0 && (unit == SECTOR || unit == BLOCK)
    ensures (address + i * unit) / unit * unit == address + i * unit
  {
    var b := address / BLOCK;
    if unit == SECTOR {
      assert address + i * SECTOR == SECTOR * (16 * b + i);
    } else {
      assert address + i * BLOCK == BLOCK * (b + i);
    }
  }

  /** Either granularity erases at least the whole image. */
  lemma SpanCovers(size: nat)
    requires size + 4 <= BUFFER
    ensures size <= Span(RoundedUp(size)) <= BUFFER
  {
    var k := (size + 16383) / 16384;
    if k % 4 != 0 {
      assert 16384 * k / SECTOR == 4 * k;
    } else {
      assert 16384 * k / BLOCK == k / 4;
    }
  }

  /** The first cell behind the erased ones: the next multiple of 16 KB, one block at least. */
  function ErasedTo(size: nat): nat { if size == 0 then 0x1_0000 else (size + 16383) / 16384 * 16384 }

  /** The first cell behind the programmed ones: four bytes more than the image, in whole transfers. */
  function ProgrammedTo(size: nat): nat { (size + 35) / 32 * 32 }

  lemma SpanExactly(size: nat)
    ensures Span(RoundedUp(size)) == ErasedTo(size) && Transfers(size + 4) * TRANSFER == ProgrammedTo(size)
  {
    var k := (size + 16383) / 16384;
    if k % 4 != 0 {
      assert 16384 * k / SECTOR == 4 * k;
    } else {
      assert 16384 * k / BLOCK == k / 4;
    }
  }

  /** Neither goes far beyond the image, but the four bytes more can reach cells that were not erased:
      exactly when the image ends within three bytes of a 16 KB boundary, or on it. */
  lemma ProgramsUnerased(size: nat)
    requires size > 0
    ensures size <= ErasedTo(size) < size + 16384 && size + 4 <= ProgrammedTo(size) < size + 36
    ensures ProgrammedTo(size) > ErasedTo(size) <==> size % 16384 == 0 || size % 16384 > 16380
  {
    hide ErasedTo, ProgrammedTo;
    ErasedClosely(size);
    ProgrammedClosely(size);
  }

  lemma ErasedClosely(size: nat)
    requires size > 0
    ensures var k, r := size / 16384, size % 16384; ErasedTo(size) == 16384 * (if r == 0 then k else k + 1)
  {
    var k, r := size / 16384, size % 16384;
    assert size == 16384 * k + r;
    if r == 0 {
      assert (size + 16383) / 16384 == k;
    } else {
      assert (size + 16383) / 16384 == k + 1;
    }
  }

  lemma ProgrammedClosely(size: nat)
    ensures size + 4 <= ProgrammedTo(size) < size + 36 && ProgrammedTo(size) % 32 == 0
  {
  }

  lemma NoTransfers()
    ensures Transfers(0) == 0
  {
  }

  lemma OneTransfer(remaining: nat)
    requires remaining > 0
    ensures Transfers(remaining) == if remaining > TRANSFER then Transfers(remaining - TRANSFER) + 1 else 1
  {
  }

  /** The cells of a transfer. */
  lemma Lands(address: nat, sent: nat, cell: nat)
    requires address % TRANSFER == 0
    ensures var at := address + sent * TRANSFER;
      && (Touched(at, cell, TRANSFER) <==> at <= cell < at + TRANSFER)
      && (Touched(at, cell, TRANSFER) ==> OffsetOf(at, cell) == cell - at)
      && (at <= cell < at + TRANSFER ==> (cell - address) / TRANSFER == sent)
  {
    hide Touched, OffsetOf;
    NoWrap(address + sent * TRANSFER, cell);
  }

  lemma WriteFits(size: nat)
    requires size + 4 <= BUFFER
    ensures size <= Transfers(size + 4) * TRANSFER <= BUFFER
  {
  }

  /** Every cell after an update: erased up to one end, and programmed from the image up to another
      unless the transfer was lost. */
  predicate Updated(was: seq<bv8>, now: seq<bv8>, image: seq<bv8>, reach: nat, end: nat, grants: nat -> bool, first: nat) {
    && |was| == |now|
    && forall j :: 0 <= j < |now| ==>
      (now[j] ==
        var before := if j < end then ERASED else was[j];
        if j < reach && j < |image| && Arrives(grants, first, j) then And(before, image[j]) else before)
  }

  /** The flash. Whether a write-enable command takes effect in time is up to the device: `grants`
      gives the answer to each. */
  class Nor {
    const cells: array<bv8>
    const grants: nat -> bool
    var enables: nat
    var latch: bool

    predicate Valid()
      reads this
    {
      cells.Length >= BUFFER && cells.Length % BLOCK == 0
    }

    constructor (cells: array<bv8>, grants: nat -> bool)
      ensures this.cells == cells && this.grants == grants && enables == 0 && !latch
    {
      this.cells, this.grants, enables, latch := cells, grants, 0, false;
    }

    /** qspi_wren: false after two seconds without the latch. */
    method WriteEnable() returns (ok: bool)
      modifies this
      ensures enables == old(enables) + 1
      ensures ok == latch == grants(old(enables))
    {
      latch := grants(enables);
      ok := latch;
      enables := enables + 1;
    }

    /** Sector or block erase: the aligned unit around the address. */
    method EraseUnit(address: nat, unit: nat)
      requires Valid() && (unit == SECTOR || unit == BLOCK) && address < cells.Length
      modifies this`latch, cells
      ensures !latch
      ensures var lo := address / unit * unit;
        forall j :: 0 <= j < cells.Length ==> cells[j] == if old(latch) && lo <= j < lo + unit then ERASED else old(cells[j])
    {
      if latch {
        var lo := address / unit * unit;
        assert lo + unit <= cells.Length by {
          UnitFits(address, unit, cells.Length);
        }
        forall j | lo <= j < lo + unit {
          cells[j] := ERASED;
        }
      }
      latch := false;
    }

    /** Page program of one transfer. */
    method Program(address: nat, data: seq<bv8>)
      requires Valid() && |data| == TRANSFER && address < cells.Length
      modifies this`latch, cells
      ensures !latch
      ensures forall j :: 0 <= j < cells.Length ==>
        (cells[j] == if old(latch) && Touched(address, j, TRANSFER) then And(old(cells[j]), data[OffsetOf(address, j)]) else old(cells[j]))
    {
      hide And, InPage, Touched, OffsetOf;
      if latch {
        NoneTouched(address, cells.Length);
        for k := 0 to TRANSFER
          invariant latch
          invariant forall j :: 0 <= j < cells.Length && Touched(address, j, k) ==> OffsetOf(address, j) < k
          invariant forall j :: 0 <= j < cells.Length ==>
            (cells[j] == if Touched(address, j, k) then And(old(cells[j]), data[OffsetOf(address, j)]) else old(cells[j]))
        {
          PageFits(address, k, cells.Length);
          var at := InPage(address, k);
          forall j | 0 <= j < cells.Length
            ensures Touched(address, j, k + 1) <==> Touched(address, j, k) || j == at
            ensures j == at ==> OffsetOf(address, j) == k && !Touched(address, j, k)
          {
            TouchedNext(address, j, k);
          }
          cells[at] := And(cells[at], data[k]);
        }
      }
      latch := false;
    }

    /** qspi_erase: 4 KB sectors unless the size is a multiple of 64 KB; at least one of them. */
    method Erase(address: nat, size: nat) returns (ok: bool)
      requires Valid() && address % BLOCK == 0 && address + Span(size) <= cells.Length
      modifies this, cells
      ensures ok <==> AllGranted(grants, old(enables), old(enables) + Units(size))
      ensures ok ==> enables == old(enables) + Units(size)
      ensures ok ==> forall j :: address <= j < address + Span(size) ==> cells[j] == ERASED
      ensures forall j :: 0 <= j < cells.Length && !(address <= j < address + Span(size)) ==> cells[j] == old(cells[j])
    {
      hide Units;
      var unit := Unit(size);
      var count := Units(size);
      var at := address;
      for i := 0 to count
        invariant enables == old(enables) + i && at == address + i * unit
        invariant AllGranted(grants, old(enables), old(enables) + i)
        invariant forall j :: address <= j < at ==> cells[j] == ERASED
        invariant forall j :: 0 <= j < cells.Length && !(address <= j < at) ==> cells[j] == old(cells[j])
      {
        InSpan(i, count, unit);
        Aligned(address, i, unit);
        var granted := WriteEnable();
        if !granted {
          return false;
        }
        EraseUnit(at, unit);
        at := at + unit;
      }
      return true;
    }

    /** qspi_writeflash: transfers of 32 bytes from the image buffer, the last one complete too. A
        failed write-enable is not noticed, and its transfer is lost. */
    method Write(address: nat, data: seq<bv8>, count: nat)
      requires Valid() && address % TRANSFER == 0
      requires Transfers(count) * TRANSFER <= |data| && address + Transfers(count) * TRANSFER <= cells.Length
      modifies this, cells
      ensures enables == old(enables) + Transfers(count)
      ensures forall j :: 0 <= j < cells.Length ==>
        (cells[j] == if address <= j < address + Transfers(count) * TRANSFER && Arrives(grants, old(enables), j - address)
                     then And(old(cells[j]), data[j - address]) else old(cells[j]))
    {
      hide And, Touched, OffsetOf, Transfers;
      NoTransfers();
      var remaining, at, position := count, address, 0;
      var sent := 0;
      while remaining > 0
        invariant 0 <= sent && position == sent * TRANSFER && at == address + position
        invariant enables == old(enables) + sent
        invariant 0 <= remaining && Transfers(remaining) + sent == Transfers(count)
        invariant forall j :: 0 <= j < cells.Length ==>
          (cells[j] == if address <= j < at && Arrives(grants, old(enables), j - address)
                       then And(old(cells[j]), data[j - address]) else old(cells[j]))
      {
        OneTransfer(remaining);
        var _ := WriteEnable();
        forall j | 0 <= j < cells.Length
          ensures
            && (Touched(at, j, TRANSFER) <==> at <= j < at + TRANSFER)
            && (Touched(at, j, TRANSFER) ==> OffsetOf(at, j) == j - at && (j - address) / TRANSFER == sent)
        {
          Lands(address, sent, j);
        }
        Program(at, data[position..position + TRANSFER]);
        if remaining > TRANSFER {
          remaining := remaining - TRANSFER;
        } else {
          remaining := 0;
        }
        position, at := position + TRANSFER, at + TRANSFER;
        sent := sent + 1;
      }
    }

    /** update_qspi_firmware. If every write-enable was granted the flash holds the image; otherwise
        it does exactly when the transfers that were lost are all ones. */
    method Update(image: seq<bv8>, size: nat) returns (ok: bool)
      requires Valid() && |image| == BUFFER && size + 4 <= BUFFER
      modifies this, cells
      ensures ok <==> AllGranted(grants, old(enables), old(enables) + Units(RoundedUp(size)))
      ensures ok ==> forall j :: 0 <= j < size ==>
        (cells[j] == if Arrives(grants, old(enables) + Units(RoundedUp(size)), j) then image[j] else ERASED)
      ensures ok ==> (cells[..size] == image[..size] <==>
        forall j :: 0 <= j < size && !Arrives(grants, old(enables) + Units(RoundedUp(size)), j) ==> image[j] == ERASED)
      ensures ok ==> Updated(old(cells[..]), cells[..], image, ProgrammedTo(size), ErasedTo(size), grants, old(enables) + Units(RoundedUp(size)))
      ensures forall j :: BUFFER <= j < cells.Length ==> cells[j] == old(cells[j])
      ensures !ok ==> forall j :: ErasedTo(size) <= j < cells.Length ==> cells[j] == old(cells[j])
    {
      hide And, Units, Transfers, RoundedUp, Span, Arrives, AllGranted, ErasedTo, ProgrammedTo, Updated;
      SpanCovers(size);
      SpanExactly(size);
      ok := Erase(0, RoundedUp(size));
      if ok {
        WriteFits(size);
        ghost var was, erased, first := old(cells[..]), cells[..], enables;
        Write(0, image, size + 4);
        ghost var now := cells[..];
        ImageArrives(was, erased, now, image, size, ProgrammedTo(size), ErasedTo(size), grants, first);
      }
    }
  }

  /** Programming an erased image area. */
  lemma ImageArrives(was: seq<bv8>, erased: seq<bv8>, now: seq<bv8>, image: seq<bv8>, size: nat, reach: nat, end: nat,
                     grants: nat -> bool, first: nat)
    requires |was| == |erased| == |now| && size <= reach <= |image| && reach <= |now| && size <= end
    requires forall j :: 0 <= j < |now| ==> (erased[j] == if j < end then ERASED else was[j])
    requires forall j :: 0 <= j < |now| ==>
      (now[j] == if 0 <= j < reach && Arrives(grants, first, j - 0) then And(erased[j], image[j - 0]) else erased[j])
    ensures forall j :: 0 <= j < size ==> (now[j] == if Arrives(grants, first, j) then image[j] else ERASED)
    ensures now[..size] == image[..size] <==> forall j :: 0 <= j < size && !Arrives(grants, first, j) ==> image[j] == ERASED
    ensures Updated(was, now, image, reach, end, grants, first)
  {
    hide And, Arrives;
    forall j | 0 <= j < size
      ensures now[j] == if Arrives(grants, first, j) then image[j] else ERASED
    {
      ProgramErased(image[j]);
    }
    assert now[..size] == image[..size] <==> forall j :: 0 <= j < size ==> now[j] == image[j];
  }

  /** A lost transfer: the write-enable behind the four of the erase is not granted, and an image
      that starts with a zero is not in the flash although the update reports success. */
  method LoseFirstTransfer(cells: array<bv8>) returns (ok: bool)
    requires cells.Length == BUFFER
    modifies cells
    ensures ok && cells[0] == ERASED
  {
    var image := seq(BUFFER, _ => 0 as bv8);
    var nor := new Nor(cells, n => n != 4);
    assert RoundedUp(TRANSFER) == 0x4000 && Units(0x4000) == 4;
    ok := nor.Update(image, TRANSFER);
  }

  lemma NoneTouched(address: nat, length: nat)
    ensures forall j :: 0 <= j < length ==> !Touched(address, j, 0)
  {
  }

  lemma PageFits(address: nat, k: nat, length: nat)
    requires address < length && length % BLOCK == 0
    ensures InPage(address, k) < length
  {
    var pages := length / PAGE;
    assert length == pages * PAGE;
  }

  lemma UnitFits(address: nat, unit: nat, length: nat)
    requires (unit == SECTOR || unit == BLOCK) && address < length && length % BLOCK == 0
    ensures address / unit * unit + unit <= length
  {
    var blocks := length / BLOCK;
    if unit == SECTOR {
      WholeUnits(address, SECTOR, 16 * blocks);
    } else {
      WholeUnits(address, BLOCK, blocks);
    }
  }

  lemma TimesOrder(a: nat, b: nat, c: nat)
    ensures a <= b ==> a * c <= b * c
  {
  }

  lemma WholeUnits(address: nat, unit: nat, units: nat)
    requires unit > 0 && address < units * unit
    ensures address / unit * unit + unit <= units * unit
  {
    var q, r := address / unit, address % unit;
    assert address == q * unit + r;
    Below(q, r, unit, units);
  }

  lemma Below(q: nat, r: nat, unit: nat, units: nat)
    requires q * unit + r < units * unit
    ensures q * unit + unit <= units * unit
  {
    TimesOrder(units, q, unit);
    TimesOrder(q + 1, units, unit);
  }
}
