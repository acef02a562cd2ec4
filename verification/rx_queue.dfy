/** Receive notifications: interrupts put chip ids into a 64-byte queue, reads take them out, an
    abort empties it byte by byte. */
module RxQueue {
  import opened LittleEndian

  /** sizeof(s32) * MAX_CHIP_NUM bytes: room for 16 ids. */
  const CAPACITY := 64

  // ----- the byte queue

  /** kfifo_in of an id: as many bytes as fit. */
  function Room(fifo: seq<Byte>): nat { if |fifo| + 4 <= CAPACITY then 4 else if |fifo| <= CAPACITY then CAPACITY - |fifo| else 0 }

  function Put(fifo: seq<Byte>, id: Word): seq<Byte> { fifo + Le(id)[..Room(fifo)] }

  /** kfifo_out of an id: as many bytes as there are, up to four. */
  function Ready(fifo: seq<Byte>): nat { if |fifo| < 4 then |fifo| else 4 }

  function Rest(fifo: seq<Byte>): seq<Byte> { fifo[Ready(fifo)..] }

  /** The variable that the bytes are copied over; bytes that are missing keep their old value. */
  function Overlaid(fifo: seq<Byte>, was: Word): Word {
    WordAt(fifo[..Ready(fifo)] + Le(was)[Ready(fifo)..], 0)
  }

  predicate Whole(fifo: seq<Byte>) { |fifo| % 4 == 0 && |fifo| <= CAPACITY }

  /** The ids queued. */
  function Ids(fifo: seq<Byte>): (ids: seq<Word>)
    requires |fifo| % 4 == 0
    ensures |ids| == |fifo| / 4
  {
    if fifo == [] then [] else [WordAt(fifo, 0)] + Ids(fifo[4..])
  }

  lemma {:induction false} IdsAppend(fifo: seq<Byte>, id: Word)
    requires |fifo| % 4 == 0
    ensures Ids(fifo + Le(id)) == Ids(fifo) + [id]
    decreases |fifo|
  {
    hide Le, WordAt;
    if fifo == [] {
      assert fifo + Le(id) == Le(id) && Le(id)[4..] == [] && Le(id)[0..4] == Le(id);
      WordRoundTrip(Le(id), 0, id);
    } else {
      var all := fifo + Le(id);
      assert all[4..] == fifo[4..] + Le(id);
      IdsAppend(fifo[4..], id);
      FrontWord(fifo, Le(id));
    }
  }

  lemma FrontWord(a: seq<Byte>, b: seq<Byte>)
    requires |a| >= 4
    ensures WordAt(a + b, 0) == WordAt(a, 0)
  {
  }

  /** An id goes in whole or not at all, and is lost only when 16 ids are pending. */
  lemma PutWhole(fifo: seq<Byte>, id: Word)
    requires Whole(fifo)
    ensures Whole(Put(fifo, id))
    ensures Room(fifo) == 0 <==> |Ids(fifo)| == 16
    ensures Ids(Put(fifo, id)) == if |Ids(fifo)| == 16 then Ids(fifo) else Ids(fifo) + [id]
  {
    hide Le, WordAt;
    if |fifo| < CAPACITY {
      assert Room(fifo) == 4 && Put(fifo, id) == fifo + Le(id);
      IdsAppend(fifo, id);
    } else {
      assert Put(fifo, id) == fifo;
    }
  }

  /** Taking four bytes takes the oldest id. */
  lemma TakeWhole(fifo: seq<Byte>, was: Word)
    requires Whole(fifo)
    ensures Whole(Rest(fifo)) && (Ready(fifo) == 0 <==> Ids(fifo) == [])
    ensures Ready(fifo) != 0 ==> Ids(fifo) == [Overlaid(fifo, was)] + Ids(Rest(fifo))
  {
    hide Le, WordAt;
    if |fifo| >= 4 {
      assert fifo == fifo[..4] + fifo[4..];
      FrontWord(fifo[..4], fifo[4..]);
      assert Le(was)[4..] == [] && fifo[..4] + [] == fifo[..4];
    }
  }

  // ----- the code that touches it

  /** The receive side of a device: the queue, the flags that readers look at, and the indicators
      that a vector interrupt sets for writers and for firmware commands. */
  class RxControl {
    var fifo: seq<Byte>
    var isAbort: bool
    var isReadAbort: bool
    var rxIndicator: int
    var fwIndicator: int
    var fwAbort: bool
    const txIndicator: array<int>
    const txAbort: array<bool>

    constructor ()
      ensures Valid() && fresh(txIndicator) && fresh(txAbort) && fifo == [] && !isAbort && !isReadAbort
    {
      fifo, isAbort, isReadAbort, rxIndicator, fwIndicator, fwAbort := [], false, false, -1, -1, false;
      txIndicator := new int[16](_ => -1);
      txAbort := new bool[16](_ => false);
    }

    predicate Valid()
      reads this
    {
      Whole(fifo) && txIndicator.Length == 16 && txAbort.Length == 16
    }

    /** memx_egress_dcore_isr: vectors 2c + 1 and 2c + 2 belong to chip c. */
    method EgressIsr(vector: nat) returns (lost: bool)
      requires Valid() && 1 <= vector < 0x100_0000
      modifies this`fifo
      ensures Valid()
      ensures lost <==> old(|Ids(fifo)|) == 16
      ensures Ids(fifo) == if lost then old(Ids(fifo)) else old(Ids(fifo)) + [(vector - 1) / 2]
    {
      var chip: Word := (vector - 1) / 2;
      PutWhole(fifo, chip);
      lost := Room(fifo) == 0;
      fifo := Put(fifo, chip);
    }

    /** The dispatch of memx_single_isr_handler for an event word: odd vectors are egress, even ones
        ingress, vector 0 is the firmware. An ingress vector must name one of the 16 writers. */
    method LegacyIsr(event: Word) returns (lost: bool)
      requires Valid() && (event / 256 % 2 == 0 ==> event / 256 <= 32)
      modifies this`fifo, this`fwIndicator, txIndicator
      ensures Valid()
      ensures var v := event / 256;
        && (v % 2 == 0 ==> !lost && fifo == old(fifo))
        && (v % 2 == 1 ==> (lost <==> old(|Ids(fifo)|) == 16) && Ids(fifo) == if lost then old(Ids(fifo)) else old(Ids(fifo)) + [(v - 1) / 2])
        && fwIndicator == (if v == 0 then 0 else old(fwIndicator))
        && forall c :: 0 <= c < 16 ==> txIndicator[c] == if v == 2 * c + 2 then c else old(txIndicator[c])
    {
      var vector := event / 256;
      lost := false;
      if vector == 0 {
        fwIndicator := vector;
      } else if vector % 2 == 1 {
        lost := EgressIsr(vector);
      } else {
        var chip := (vector - 1) / 2;
        txIndicator[chip] := chip;
      }
    }

    /** kfifo_out_locked into the caller's variable; false when there was nothing. */
    method TakeId(was: Word) returns (taken: bool, id: Word)
      requires Valid()
      modifies this`fifo
      ensures Valid()
      ensures taken <==> old(Ids(fifo)) != []
      ensures taken ==> old(Ids(fifo)) == [id] + Ids(fifo)
      ensures !taken ==> fifo == old(fifo)
    {
      TakeWhole(fifo, was);
      taken := Ready(fifo) != 0;
      id := Overlaid(fifo, was);
      fifo := Rest(fifo);
    }

    /** memx_pcie_abort_transfer: flags for everyone who waits, and unless reads have been told to go
        on, an empty queue, one byte after the other under the lock. */
    method AbortTransfer()
      requires Valid()
      modifies this`fifo, this`isAbort, this`rxIndicator, this`fwIndicator, this`fwAbort, txIndicator, txAbort
      ensures Valid()
      ensures fifo == if isReadAbort then old(fifo) else []
      ensures isAbort && fwAbort && rxIndicator == -1 && fwIndicator == -1
      ensures forall c :: 0 <= c < 16 ==> txAbort[c] && txIndicator[c] == -1
    {
      isAbort, rxIndicator := true, -1;
      if !isReadAbort {
        while fifo != []
          invariant isAbort && rxIndicator == -1 && |fifo| <= CAPACITY
        {
          fifo := fifo[1..];
        }
      }
      for chip := 0 to 16
        invariant isAbort && rxIndicator == -1 && fifo == if isReadAbort then old(fifo) else []
        invariant forall c :: 0 <= c < chip ==> txAbort[c] && txIndicator[c] == -1
      {
        txAbort[chip] := true;
        txIndicator[chip] := -1;
      }
      fwAbort := true;
      fwIndicator := -1;
    }
  }
}
