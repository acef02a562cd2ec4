/** One pixel of unconvert_gbf_hpoc: decode every packet and drop the listed dummy channels. */
module DummyChannels {
  import opened GbfCodec
  import opened GbfDecoder
  import opened GbfPacket
  import opened Slices

  // ----- what the loop does with any index array

  /** How many entries of the index array the scan has passed before lane c. An entry is passed
      when the lane with its number comes by; the guard compares with the packed channel count. */
  function Consumed(indexes: seq<int>, total: nat, c: nat): (check: nat)
    ensures check <= |indexes| && check <= total && check <= c
  {
    if c == 0 then 0
    else
      var check := Consumed(indexes, total, c - 1);
      if check < total && check < |indexes| && c - 1 == indexes[check] then check + 1 else check
  }

  /** Lane c is skipped. */
  predicate Skipped(indexes: seq<int>, total: nat, c: nat) {
    Consumed(indexes, total, c + 1) > Consumed(indexes, total, c)
  }

  /** The words written before lane c: every lane of a channel that is not skipped. */
  function Passed(lanes: seq<bv32>, indexes: seq<int>, total: nat, c: nat): (words: seq<bv32>)
    requires c <= |lanes|
  {
    if c == 0 then []
    else
      Passed(lanes, indexes, total, c - 1)
      + if c - 1 < total && !Skipped(indexes, total, c - 1) then [lanes[c - 1]] else []
  }

  /** Every entry that the scan looks at exists. */
  predicate Readable(indexes: seq<int>, total: nat) {
    forall c: nat :: c < 8 * GroupCount(total) && Consumed(indexes, total, c) < total ==> Consumed(indexes, total, c) < |indexes|
  }

  lemma {:induction false} PassedGrows(lanes: seq<bv32>, indexes: seq<int>, total: nat, c: nat, d: nat)
    requires c <= d <= |lanes|
    ensures |Passed(lanes, indexes, total, c)| <= |Passed(lanes, indexes, total, d)|
    decreases d - c
  {
    hide Skipped;
    if c < d {
      PassedGrows(lanes, indexes, total, c, d - 1);
    }
  }

  lemma {:induction false} PassedLength(lanes: seq<bv32>, indexes: seq<int>, total: nat, c: nat)
    requires c <= |lanes| && c <= total
    ensures |Passed(lanes, indexes, total, c)| == c - Consumed(indexes, total, c)
  {
    if c > 0 {
      PassedLength(lanes, indexes, total, c - 1);
    }
  }

  /** Padding lanes add nothing. */
  lemma {:induction false} PassedEnds(lanes: seq<bv32>, indexes: seq<int>, total: nat, c: nat)
    requires total <= c <= |lanes|
    ensures Passed(lanes, indexes, total, c) == Passed(lanes, indexes, total, total)
    decreases c
  {
    hide Skipped;
    if c > total {
      PassedEnds(lanes, indexes, total, c - 1);
    }
  }

  /** One lane: the comparison with the entry at check decides. */
  lemma PassedStep(lanes: seq<bv32>, indexes: seq<int>, total: nat, c: nat)
    requires c < |lanes| == 8 * GroupCount(total) && Readable(indexes, total)
    ensures var check := Consumed(indexes, total, c);
            && (check < total ==> check < |indexes|)
            && (Skipped(indexes, total, c) <==> check < total && c == indexes[check])
            && Consumed(indexes, total, c + 1) == (if Skipped(indexes, total, c) then check + 1 else check)
    ensures Passed(lanes, indexes, total, c + 1)
            == Passed(lanes, indexes, total, c) + if c < total && !Skipped(indexes, total, c) then [lanes[c]] else []
    ensures |Passed(lanes, indexes, total, c + 1)| <= |Passed(lanes, indexes, total, |lanes|)|
  {
    hide GroupCount;
    PassedGrows(lanes, indexes, total, c + 1, |lanes|);
  }

  /** The packet loop of one pixel, for any index array that is long enough to be read: the words
      written are the lanes that the scan does not skip. */
  method DropDummies(form: Form, src: array<bv8>, at: nat, dst: array<bv32>, base: nat, total: nat, indexes: seq<int>)
    returns (check: nat, ghost words: seq<bv32>)
    requires Readable(indexes, total) && at + 10 * GroupCount(total) <= src.Length
    requires base + (total - Consumed(indexes, total, total)) <= dst.Length
    modifies dst
    ensures var lanes := DecodeGroups(src[at..at + 10 * GroupCount(total)], GroupCount(total));
            words == Passed(lanes, indexes, total, total)
    ensures |words| == total - Consumed(indexes, total, total) && dst[base..base + |words|] == words
    ensures check == Consumed(indexes, total, 8 * GroupCount(total))
    ensures forall j :: 0 <= j < dst.Length && !(base <= j < base + |words|) ==> dst[j] == old(dst[j])
  {
    hide DecodeGroup, FromBytes, Passed, Consumed, Readable, DecodeGroups, Decode;
    ghost var packets := src[at..at + 10 * GroupCount(total)];
    ghost var lanes := DecodeGroups(packets, GroupCount(total));
    words := Passed(lanes, indexes, total, total);
    PassedEnds(lanes, indexes, total, |lanes|);
    PassedLength(lanes, indexes, total, total);
    var gbfCh: nat, gbfOffset: nat, fltOffset: nat := 0, 0, 0;
    check := 0;
    var buffer := new bv32[8](_ => 0);
    NothingPassed(lanes, indexes, total);
    while gbfCh < total
      invariant gbfCh % 8 == 0 && gbfOffset == gbfCh / 8 * 10 && gbfCh <= 8 * GroupCount(total)
      invariant check == Consumed(indexes, total, gbfCh) && fltOffset <= |words|
      invariant dst[base..base + fltOffset] == Passed(lanes, indexes, total, gbfCh)
      invariant forall j :: 0 <= j < dst.Length && !(base <= j < base + |words|) ==> dst[j] == old(dst[j])
      invariant fresh(buffer)
      decreases 8 * GroupCount(total) - gbfCh
    {
      GbfDecode(form, src, at + gbfOffset, buffer, 0, 8);
      LanesOfPacket(src[..], at, total, gbfCh / 8);
      assert buffer[..] == lanes[gbfCh..gbfCh + 8];
      check, fltOffset := DropInPacket(buffer, dst, base, total, indexes, gbfCh, check, fltOffset, lanes, words);
      gbfCh, gbfOffset := gbfCh + 8, gbfOffset + 10;
    }
    assert gbfCh == |lanes|;
  }

  lemma NothingPassed(lanes: seq<bv32>, indexes: seq<int>, total: nat)
    ensures Passed(lanes, indexes, total, 0) == [] && Consumed(indexes, total, 0) == 0
  {
  }

  /** The eight lanes of one packet. */
  method DropInPacket(buffer: array<bv32>, dst: array<bv32>, base: nat, total: nat, indexes: seq<int>, gbfCh: nat,
                      check0: nat, fltOffset0: nat, ghost lanes: seq<bv32>, ghost words: seq<bv32>)
    returns (check: nat, fltOffset: nat)
    requires buffer != dst && buffer.Length == 8 && |lanes| == 8 * GroupCount(total) && gbfCh + 8 <= |lanes|
    requires buffer[..] == lanes[gbfCh..gbfCh + 8]
    requires Readable(indexes, total) && words == Passed(lanes, indexes, total, |lanes|) && base + |words| <= dst.Length
    requires check0 == Consumed(indexes, total, gbfCh) && fltOffset0 <= |words|
    requires dst[base..base + fltOffset0] == Passed(lanes, indexes, total, gbfCh)
    modifies dst
    ensures check == Consumed(indexes, total, gbfCh + 8) && fltOffset <= |words|
    ensures dst[base..base + fltOffset] == Passed(lanes, indexes, total, gbfCh + 8)
    ensures forall j :: 0 <= j < dst.Length && !(base <= j < base + |words|) ==> dst[j] == old(dst[j])
  {
    hide Passed, Consumed, Readable, Skipped, GroupCount;
    check, fltOffset := check0, fltOffset0;
    for chOffset := 0 to 8
      invariant check == Consumed(indexes, total, gbfCh + chOffset) && fltOffset <= |words|
      invariant dst[base..base + fltOffset] == Passed(lanes, indexes, total, gbfCh + chOffset)
      invariant forall j :: 0 <= j < dst.Length && !(base <= j < base + |words|) ==> dst[j] == old(dst[j])
      invariant buffer[..] == lanes[gbfCh..gbfCh + 8]
    {
      var curr := gbfCh + chOffset;
      PassedStep(lanes, indexes, total, curr);
      if check < total && curr == indexes[check] {
        check := check + 1;
      } else if curr < total {
        ghost var done := dst[base..base + fltOffset];
        assert buffer[..][chOffset] == lanes[curr];
        dst[base + fltOffset] := buffer[chOffset];
        assert dst[base..base + fltOffset + 1] == done + [lanes[curr]];
        fltOffset := fltOffset + 1;
      }
    }
  }

  lemma LanesOfPacket(src: seq<bv8>, at: nat, total: nat, g: nat)
    requires at + 10 * GroupCount(total) <= |src| && g < GroupCount(total)
    ensures Decode(src[at + 10 * g..at + 10 * g + 10], 8)
            == DecodeGroups(src[at..at + 10 * GroupCount(total)], GroupCount(total))[8 * g..8 * g + 8]
  {
    hide DecodeGroup, FromBytes;
    var packets := src[at..at + 10 * GroupCount(total)];
    SliceOfSlice(src, at, |packets|, 10 * g, 10 * g + 10);
    DecodeOne(packets[10 * g..10 * g + 10]);
    GroupOfLanes(packets, GroupCount(total), g);
  }

  lemma {:induction false} GroupOfLanes(b: seq<bv8>, n: nat, g: nat)
    requires 10 * n <= |b| && g < n
    ensures DecodeGroups(b, n)[8 * g..8 * g + 8] == DecodeGroup(PacketAt(b, g))
  {
    hide DecodeGroup, PacketAt;
    if g < n - 1 {
      GroupOfLanes(b, n - 1, g);
      assert DecodeGroups(b, n)[8 * g..8 * g + 8] == DecodeGroups(b, n - 1)[8 * g..8 * g + 8];
    }
  }

  // ----- index arrays as they are meant to be

  /** The first n lanes without the listed ones, in order. */
  function Kept(lanes: seq<bv32>, dummies: seq<int>, n: nat): (kept: seq<bv32>)
    requires n <= |lanes|
    ensures |kept| <= n
  {
    if n == 0 then [] else Kept(lanes, dummies, n - 1) + if n - 1 in dummies then [] else [lanes[n - 1]]
  }

  predicate Increasing(dummies: seq<int>, total: nat) {
    && (forall i, j :: 0 <= i < j < |dummies| ==> dummies[i] < dummies[j])
    && (forall i :: 0 <= i < |dummies| ==> 0 <= dummies[i] < total)
  }

  /** The array starts with size channel numbers, strictly increasing; unless these are all channels,
      one more entry exists, which the scan looks at too. */
  predicate Listed(indexes: seq<int>, size: nat, total: nat) {
    && size <= total && size <= |indexes| && (size < total ==> size < |indexes|)
    && Increasing(indexes[..size], total)
  }

  /** The entry behind the list names a channel after the last one listed. */
  predicate NamesAnother(indexes: seq<int>, size: nat, total: nat)
    requires Listed(indexes, size, total)
  {
    size < total && (size > 0 ==> indexes[size - 1] < indexes[size]) && 0 <= indexes[size] < total
  }

  /** The scan position: check counts the listed channels below c. */
  ghost predicate ScannedTo(dummies: seq<int>, c: nat, check: nat) {
    && check <= |dummies|
    && (forall i :: 0 <= i < check ==> dummies[i] < c)
    && (forall i :: check <= i < |dummies| ==> c <= dummies[i])
  }

  /** Before the entry behind the list comes by, the scan has passed exactly the listed channels. */
  lemma {:induction false} ScansList(indexes: seq<int>, size: nat, total: nat, c: nat)
    requires Listed(indexes, size, total) && c <= total
    requires NamesAnother(indexes, size, total) ==> c <= indexes[size]
    ensures Consumed(indexes, total, c) <= size && ScannedTo(indexes[..size], c, Consumed(indexes, total, c))
  {
    hide Consumed, ScannedTo, Increasing;
    if c == 0 {
      ScanStart(indexes, size, total);
    } else {
      ScansList(indexes, size, total, c - 1);
      ConsumedStep(indexes, total, c - 1);
      ScanStep(indexes, size, total, c - 1, Consumed(indexes, total, c - 1));
    }
  }

  lemma ScanStart(indexes: seq<int>, size: nat, total: nat)
    requires Listed(indexes, size, total)
    ensures Consumed(indexes, total, 0) == 0 && ScannedTo(indexes[..size], 0, 0)
  {
  }

  lemma ConsumedStep(indexes: seq<int>, total: nat, c: nat)
    ensures var check := Consumed(indexes, total, c);
      Consumed(indexes, total, c + 1) == if check < total && check < |indexes| && c == indexes[check] then check + 1 else check
  {
  }

  lemma ScanStep(indexes: seq<int>, size: nat, total: nat, c: nat, check: nat)
    requires Listed(indexes, size, total) && c < total && check <= size
    requires NamesAnother(indexes, size, total) ==> c < indexes[size]
    requires ScannedTo(indexes[..size], c, check)
    ensures var hit := check < total && check < |indexes| && c == indexes[check];
      (hit ==> check < size) && ScannedTo(indexes[..size], c + 1, if hit then check + 1 else check)
  {
    if check < size {
      assert indexes[check] == indexes[..size][check];
    } else if size > 0 {
      assert indexes[size - 1] == indexes[..size][size - 1];
    }
  }

  /** And has written exactly the others. */
  lemma {:induction false} PassesKept(lanes: seq<bv32>, indexes: seq<int>, size: nat, total: nat, c: nat)
    requires Listed(indexes, size, total) && c <= total <= |lanes|
    requires NamesAnother(indexes, size, total) ==> c <= indexes[size]
    ensures Passed(lanes, indexes, total, c) == Kept(lanes, indexes[..size], c)
  {
    hide Skipped, Consumed, Increasing;
    if c > 0 {
      PassesKept(lanes, indexes, size, total, c - 1);
      SkipsListed(indexes, size, total, c - 1);
    }
  }

  lemma SkipsListed(indexes: seq<int>, size: nat, total: nat, c: nat)
    requires Listed(indexes, size, total) && c < total
    requires NamesAnother(indexes, size, total) ==> c < indexes[size]
    ensures Skipped(indexes, total, c) <==> c in indexes[..size]
  {
    ScansList(indexes, size, total, c);
    ScansList(indexes, size, total, c + 1);
    var dummies, check := indexes[..size], Consumed(indexes, total, c);
    if check < size {
      assert indexes[check] == dummies[check];
      if c in dummies {
        var i :| 0 <= i < size && dummies[i] == c;
        assert i == check;
      }
    } else {
      assert c !in dummies;
    }
  }

  lemma {:induction false} ConsumedGrows(indexes: seq<int>, total: nat, c: nat, d: nat)
    requires c <= d
    ensures Consumed(indexes, total, c) <= Consumed(indexes, total, d)
    decreases d - c
  {
    if c < d {
      ConsumedGrows(indexes, total, c, d - 1);
    }
  }

  lemma PastList(dummies: seq<int>, c: nat, check: nat)
    requires ScannedTo(dummies, c, check)
    requires |dummies| > 0 ==> dummies[|dummies| - 1] < c
    ensures check == |dummies|
  {
  }

  /** At the end of a scan that meets no other channel, all of the list has been passed. */
  lemma ScansAll(indexes: seq<int>, size: nat, total: nat)
    requires Listed(indexes, size, total) && !NamesAnother(indexes, size, total)
    ensures Consumed(indexes, total, total) == size
  {
    ScansList(indexes, size, total, total);
    PastList(indexes[..size], total, Consumed(indexes, total, total));
  }

  lemma ScansMore(indexes: seq<int>, size: nat, total: nat)
    requires Listed(indexes, size, total) && NamesAnother(indexes, size, total)
    ensures Consumed(indexes, total, total) > size
  {
    var next := indexes[size];
    ScansList(indexes, size, total, next);
    if size > 0 {
      assert indexes[..size][size - 1] == indexes[size - 1];
    }
    PastList(indexes[..size], next, Consumed(indexes, total, next));
    assert Consumed(indexes, total, next + 1) == size + 1;
    ConsumedGrows(indexes, total, next + 1, total);
  }

  /** The words written are the decoded lanes without the listed ones if and only if the entry
      behind the list names no channel after the last one listed; if it does, fewer words are
      written and the end of the pixel keeps its old contents. */
  lemma TerminatorDecides(lanes: seq<bv32>, indexes: seq<int>, size: nat, total: nat)
    requires Listed(indexes, size, total) && total <= |lanes|
    ensures |Kept(lanes, indexes[..size], total)| == total - size
    ensures Passed(lanes, indexes, total, total) == Kept(lanes, indexes[..size], total) <==> !NamesAnother(indexes, size, total)
    ensures NamesAnother(indexes, size, total) ==> |Passed(lanes, indexes, total, total)| < total - size
  {
    hide Passed, Consumed, Kept, Listed, NamesAnother;
    PassedLength(lanes, indexes, total, total);
    KeptTotal(lanes, indexes, size, total);
    if NamesAnother(indexes, size, total) {
      ScansMore(indexes, size, total);
    } else {
      PassesKept(lanes, indexes, size, total, total);
    }
  }

  /** Deleting size in-range channels from total leaves total - size words. */
  lemma KeptTotal(lanes: seq<bv32>, indexes: seq<int>, size: nat, total: nat)
    requires Listed(indexes, size, total) && total <= |lanes|
    ensures |Kept(lanes, indexes[..size], total)| == total - size
  {
    var ended := indexes[..size] + [-1];
    assert ended[..size] == indexes[..size];
    PassesKept(lanes, ended, size, total, total);
    PassedLength(lanes, ended, total, total);
    ScansAll(ended, size, total);
  }

  lemma {:induction false} KeptAll(lanes: seq<bv32>, n: nat)
    requires n <= |lanes|
    ensures Kept(lanes, [], n) == lanes[..n]
  {
    if n > 0 {
      KeptAll(lanes, n - 1);
    }
  }

  lemma {:induction false} StopsAtNegative(indexes: seq<int>, k: nat, total: nat, c: nat)
    requires k < |indexes| && indexes[k] < 0
    ensures Consumed(indexes, total, c) <= k
    decreases c
  {
    if c > 0 {
      StopsAtNegative(indexes, k, total, c - 1);
    }
  }

  /** Such a pixel: channel 3 of 12 is listed, the entry behind the list happens to be 7, and one
      word less is written. */
  lemma UnterminatedList(lanes: seq<bv32>)
    requires |lanes| == 16
    ensures var indexes := [3, 7, -1];
      && Listed(indexes, 1, 12) && Readable(indexes, 12)
      && |Kept(lanes, indexes[..1], 12)| == 11 && |Passed(lanes, indexes, 12, 12)| == 10
  {
    var indexes := [3, 7, -1];
    TerminatorDecides(lanes, indexes, 1, 12);
    PassedLength(lanes, indexes, 12, 12);
    assert Consumed(indexes, 12, 3) == 0;
    assert Consumed(indexes, 12, 7) == 1;
    assert Consumed(indexes, 12, 8) == 2;
    assert Consumed(indexes, 12, 12) == 2;
    forall c: nat | c < 8 * GroupCount(12)
      ensures Consumed(indexes, 12, c) <= 2
    {
      StopsAtNegative(indexes, 2, 12, c);
    }
  }

  /** The channel count is a proper end of the list, whatever follows it. */
  lemma CountTerminates(indexes: seq<int>, size: nat, total: nat)
    requires Listed(indexes, size, total) && size < total && indexes[size] == total
    ensures !NamesAnother(indexes, size, total)
  {
  }
}
