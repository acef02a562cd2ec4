/** unconvert_gbf_row_pad and unconvert_gbf_hpoc, and the round trip of a padded tensor. */
module TensorDecode {
  import opened Float32
  import opened GbfCodec
  import opened GbfDecoder
  import opened GbfLaws
  import GbfLane
  import opened DummyChannels
  import opened Tensor

  /** The channels of a pixel as packed, and which of them are dropped. */
  datatype Channels = Channels(total: nat, dummies: seq<int>) {
    predicate Ok() { |dummies| <= total }
    function Words(): nat requires Ok() { total - |dummies| }
    function Bytes(): nat { PixelBytes(total) }
  }

  /** The packets of pixel i of a run that starts at byte at. */
  function Packets(src: seq<bv8>, at: nat, total: nat, i: nat): (b: seq<bv8>)
    requires at + At(i, PixelBytes(total)) + PixelBytes(total) <= |src|
    ensures |b| == 10 * GroupCount(total)
  {
    PixelBytesAreGroups(total);
    src[at + At(i, PixelBytes(total))..at + At(i, PixelBytes(total)) + PixelBytes(total)]
  }

  /** The words of a pixel: its decoded lanes without the dummy channels. */
  function PixelOutput(packets: seq<bv8>, c: Channels): seq<bv32>
    requires |packets| == 10 * GroupCount(c.total)
  {
    Kept(DecodeGroups(packets, GroupCount(c.total)), c.dummies, c.total)
  }

  lemma NoDummies(packets: seq<bv8>, total: nat)
    requires |packets| == 10 * GroupCount(total)
    ensures PixelOutput(packets, Channels(total, [])) == Decode(packets, total)
  {
    KeptAll(DecodeGroups(packets, GroupCount(total)), total);
  }

  ghost predicate PixelDecoded(dst: seq<bv32>, at: nat, packets: seq<bv8>, c: Channels)
    requires c.Ok() && at + c.Words() <= |dst| && |packets| == 10 * GroupCount(c.total)
  {
    dst[at..at + c.Words()] == PixelOutput(packets, c)
  }

  ghost predicate RunDecoded(dst: seq<bv32>, base: nat, src: seq<bv8>, at: nat, c: Channels, n: nat)
    requires c.Ok() && base + At(n, c.Words()) <= |dst| && at + At(n, c.Bytes()) <= |src|
  {
    forall i: nat :: i < n ==>
      (Fits(i, n, c.Words()); Fits(i, n, c.Bytes());
       PixelDecoded(dst, base + At(i, c.Words()), Packets(src, at, c.total, i), c))
  }

  lemma RunDecodedStable(dst: seq<bv32>, was: seq<bv32>, base: nat, src: seq<bv8>, at: nat, c: Channels, n: nat)
    requires c.Ok() && base + At(n, c.Words()) <= |dst| == |was| && at + At(n, c.Bytes()) <= |src|
    requires RunDecoded(was, base, src, at, c, n)
    requires forall j :: base <= j < base + At(n, c.Words()) ==> dst[j] == was[j]
    ensures RunDecoded(dst, base, src, at, c, n)
  {
    hide At, PixelBytes, PixelOutput;
    forall i: nat | i < n
      ensures (Fits(i, n, c.Words()); Fits(i, n, c.Bytes());
               PixelDecoded(dst, base + At(i, c.Words()), Packets(src, at, c.total, i), c))
    {
      Fits(i, n, c.Words());
      Fits(i, n, c.Bytes());
      var lo := base + At(i, c.Words());
      assert PixelDecoded(was, lo, Packets(src, at, c.total, i), c);
      assert dst[lo..lo + c.Words()] == was[lo..lo + c.Words()];
    }
  }

  lemma RunDecodedGrows(dst: seq<bv32>, was: seq<bv32>, base: nat, src: seq<bv8>, at: nat, c: Channels, n: nat)
    requires c.Ok() && base + At(n + 1, c.Words()) <= |dst| == |was| && at + At(n + 1, c.Bytes()) <= |src|
    requires (Fits(n, n + 1, c.Words()); Fits(n, n + 1, c.Bytes());
              && RunDecoded(was, base, src, at, c, n)
              && PixelDecoded(dst, base + At(n, c.Words()), Packets(src, at, c.total, n), c))
    requires forall j :: 0 <= j < base + At(n, c.Words()) ==> dst[j] == was[j]
    ensures RunDecoded(dst, base, src, at, c, n + 1)
  {
    hide At, PixelBytes, PixelOutput;
    Fits(n, n + 1, c.Words());
    Fits(n, n + 1, c.Bytes());
    RunDecodedStable(dst, was, base, src, at, c, n);
    forall i: nat | i < n + 1
      ensures (Fits(i, n + 1, c.Words()); Fits(i, n + 1, c.Bytes());
               PixelDecoded(dst, base + At(i, c.Words()), Packets(src, at, c.total, i), c))
    {
      Fits(i, n + 1, c.Words());
      Fits(i, n + 1, c.Bytes());
      if i < n {
        Fits(i, n, c.Words());
        Fits(i, n, c.Bytes());
      }
    }
  }

  lemma EmptyRunDecoded(dst: seq<bv32>, base: nat, src: seq<bv8>, at: nat, c: Channels)
    requires c.Ok() && base + At(0, c.Words()) <= |dst| && at + At(0, c.Bytes()) <= |src|
    ensures RunDecoded(dst, base, src, at, c, 0)
  {
  }

  ghost predicate SameWordsOutside(now: seq<bv32>, was: seq<bv32>, lo: nat, hi: nat) {
    |now| == |was| && forall j :: 0 <= j < |now| && !(lo <= j < hi) ==> now[j] == was[j]
  }

  /** The index array of unconvert_gbf_hpoc starts with exactly the dummies, and what is behind them
      can be read and names no other channel. */
  ghost predicate Lists(indexes: seq<int>, c: Channels) {
    && c.Ok() && Listed(indexes, |c.dummies|, c.total) && !NamesAnother(indexes, |c.dummies|, c.total)
    && Readable(indexes, c.total) && indexes[..|c.dummies|] == c.dummies
  }

  /** One pixel with dummy channels: the scan skips exactly the listed ones. */
  method UnconvertListed(form: Form, src: array<bv8>, at: nat, dst: array<bv32>, base: nat, c: Channels, indexes: seq<int>)
    requires Lists(indexes, c) && base + c.Words() <= dst.Length && at + 10 * GroupCount(c.total) <= src.Length
    modifies dst
    ensures dst[base..base + c.Words()] == PixelOutput(src[at..at + 10 * GroupCount(c.total)], c)
    ensures SameWordsOutside(dst[..], old(dst[..]), base, base + c.Words())
  {
    hide Kept, Passed, Consumed, Readable, Listed, NamesAnother;
    ghost var lanes := DecodeGroups(src[at..at + 10 * GroupCount(c.total)], GroupCount(c.total));
    TerminatorDecides(lanes, indexes, |c.dummies|, c.total);
    ScansAll(indexes, |c.dummies|, c.total);
    var _, _ := DropDummies(form, src, at, dst, base, c.total, indexes);
  }

  /** The body of the pixel loops: gbf_decode of all channels, or the packet loop that drops some. */
  method UnconvertPixel(form: Form, src: array<bv8>, at: nat, dst: array<bv32>, base: nat, c: Channels, indexes: seq<int>,
                        gbfOffset: nat, fltOffset: nat, ghost k: nat)
    requires c.dummies != [] ==> Lists(indexes, c)
    requires c.Ok() && fltOffset == At(k, c.Words()) && gbfOffset == At(k, c.Bytes())
    requires base + fltOffset + c.Words() <= dst.Length && at + gbfOffset + c.Bytes() <= src.Length
    modifies dst
    ensures PixelDecoded(dst[..], base + fltOffset, Packets(src[..], at, c.total, k), c)
    ensures SameWordsOutside(dst[..], old(dst[..]), base + fltOffset, base + fltOffset + c.Words())
  {
    hide At, Decode, Lists, Kept;
    PixelBytesAreGroups(c.total);
    if c.dummies == [] {
      GbfDecode(form, src, at + gbfOffset, dst, base + fltOffset, c.total);
      NoDummies(Packets(src[..], at, c.total, k), c.total);
    } else {
      UnconvertListed(form, src, at + gbfOffset, dst, base + fltOffset, c, indexes);
    }
  }

  method UnconvertRow(form: Form, src: array<bv8>, at: nat, dst: array<bv32>, base: nat, width: nat, z: nat, c: Channels,
                      indexes: seq<int>)
    requires c.dummies != [] ==> Lists(indexes, c)
    requires c.Ok() && base + At(At(width, z), c.Words()) <= dst.Length
    requires at + At(At(width, z), c.Bytes()) <= src.Length
    modifies dst
    ensures RunDecoded(dst[..], base, src[..], at, c, At(width, z))
    ensures SameWordsOutside(dst[..], old(dst[..]), base, base + At(At(width, z), c.Words()))
  {
    hide At, PixelBytes, PixelDecoded, RunDecoded, Lists;
    ghost var before, n, k := dst[..], At(width, z), 0;
    var size, words := c.Bytes(), c.Words();
    var gbfOffset, fltOffset := 0, 0;
    AtNext(0, z);
    AtNext(0, words);
    AtNext(0, size);
    EmptyRunDecoded(dst[..], base, src[..], at, c);
    for w := 0 to width
      invariant k == At(w, z)
      invariant fltOffset == At(k, words) && gbfOffset == At(k, size) && base + fltOffset <= dst.Length && at + gbfOffset <= src.Length
      invariant RunDecoded(dst[..], base, src[..], at, c, k)
      invariant SameWordsOutside(dst[..], before, base, base + fltOffset)
    {
      AtNext(w, z);
      for zIdx := 0 to z
        invariant k == At(w, z) + zIdx
        invariant fltOffset == At(k, words) && gbfOffset == At(k, size) && base + fltOffset <= dst.Length && at + gbfOffset <= src.Length
        invariant RunDecoded(dst[..], base, src[..], at, c, k)
        invariant SameWordsOutside(dst[..], before, base, base + fltOffset)
      {
        AtOrder(w, width, z);
        assert k < n;
        Fits(k, n, words);
        Fits(k, n, size);
        AtNext(k, words);
        AtNext(k, size);
        ghost var was := dst[..];
        UnconvertPixel(form, src, at, dst, base, c, indexes, gbfOffset, fltOffset, k);
        RunDecodedGrows(dst[..], was, base, src[..], at, c, k);
        gbfOffset := gbfOffset + size;
        fltOffset := fltOffset + words;
        k := k + 1;
      }
    }
  }

  ghost predicate RowsDecoded(dst: seq<bv32>, rowWords: nat, src: seq<bv8>, rowBytes: nat, c: Channels, n: nat, h: nat)
    requires c.Ok() && rowWords == At(n, c.Words()) && At(n, c.Bytes()) <= rowBytes
    requires At(h, rowWords) <= |dst| && At(h, rowBytes) <= |src|
  {
    forall r: nat :: r < h ==>
      (Fits(r, h, rowWords); Fits(r, h, rowBytes);
       RunDecoded(dst, At(r, rowWords), src, At(r, rowBytes), c, n))
  }

  lemma RowsDecodedGrow(dst: seq<bv32>, was: seq<bv32>, rowWords: nat, src: seq<bv8>, rowBytes: nat, c: Channels, n: nat, h: nat)
    requires c.Ok() && rowWords == At(n, c.Words()) && At(n, c.Bytes()) <= rowBytes && |dst| == |was|
    requires At(h + 1, rowWords) <= |dst| && At(h + 1, rowBytes) <= |src|
    requires (Fits(h, h + 1, rowWords); Fits(h, h + 1, rowBytes);
              && RowsDecoded(was, rowWords, src, rowBytes, c, n, h)
              && RunDecoded(dst, At(h, rowWords), src, At(h, rowBytes), c, n))
    requires forall j :: 0 <= j < At(h, rowWords) ==> dst[j] == was[j]
    ensures RowsDecoded(dst, rowWords, src, rowBytes, c, n, h + 1)
  {
    hide At, PixelBytes, RunDecoded;
    forall r: nat | r < h + 1
      ensures (Fits(r, h + 1, rowWords); Fits(r, h + 1, rowBytes);
               RunDecoded(dst, At(r, rowWords), src, At(r, rowBytes), c, n))
    {
      Fits(r, h + 1, rowWords);
      Fits(r, h + 1, rowBytes);
      Fits(h, h + 1, rowWords);
      Fits(h, h + 1, rowBytes);
      if r < h {
        Fits(r, h, rowWords);
        Fits(r, h, rowBytes);
        RunDecodedStable(dst, was, At(r, rowWords), src, At(r, rowBytes), c, n);
      }
    }
  }

  /** The row loop of unconvert_gbf_row_pad (padded, no dummies) and of unconvert_gbf_hpoc
      (padded or not, with dummies). */
  method UnconvertRows(form: Form, src: array<bv8>, dst: array<bv32>, height: nat, width: nat, z: nat, c: Channels,
                       indexes: seq<int>, padded: bool) returns (ghost rowBytes: nat)
    requires c.dummies != [] ==> Lists(indexes, c)
    requires c.Ok() && At(height, At(At(width, z), c.Words())) <= dst.Length
    requires var data := At(At(width, z), c.Bytes()); At(height, if padded then PadTo4(data) else data) <= src.Length
    modifies dst
    ensures var n := At(width, z);
            && rowBytes == (if padded then PadTo4(At(n, c.Bytes())) else At(n, c.Bytes()))
            && RowsDecoded(dst[..], At(n, c.Words()), src[..], rowBytes, c, n, height)
            && SameWordsOutside(dst[..], old(dst[..]), 0, At(height, At(n, c.Words())))
  {
    hide At, PixelBytes, PadTo4, RunDecoded, Lists;
    ghost var before, n := dst[..], At(width, z);
    var gbf80RowSize, flt32RowSize := At(At(width, z), c.Bytes()), At(At(width, z), c.Words());
    if padded {
      gbf80RowSize := PadTo4(gbf80RowSize);
    }
    rowBytes := gbf80RowSize;
    var gbf80RowOffset, flt32RowOffset := 0, 0;
    AtNext(0, flt32RowSize);
    AtNext(0, gbf80RowSize);
    for h := 0 to height
      invariant flt32RowOffset == At(h, flt32RowSize) <= dst.Length && gbf80RowOffset == At(h, gbf80RowSize) <= src.Length
      invariant RowsDecoded(dst[..], flt32RowSize, src[..], gbf80RowSize, c, n, h)
      invariant SameWordsOutside(dst[..], before, 0, flt32RowOffset)
    {
      Fits(h, height, flt32RowSize);
      Fits(h, height, gbf80RowSize);
      AtNext(h, flt32RowSize);
      AtNext(h, gbf80RowSize);
      ghost var mid := dst[..];
      UnconvertRow(form, src, gbf80RowOffset, dst, flt32RowOffset, width, z, c, indexes);
      RowsDecodedGrow(dst[..], mid, flt32RowSize, src[..], gbf80RowSize, c, n, h);
      gbf80RowOffset := gbf80RowOffset + gbf80RowSize;
      flt32RowOffset := flt32RowOffset + flt32RowSize;
    }
  }

  /** unconvert_gbf: the whole pixels of a tensor of tensorSize words, one after the other. */
  method UnconvertGbf(form: Form, src: array<bv8>, dst: array<bv32>, tensorSize: nat, channels: nat)
    requires channels > 0
    requires var n := tensorSize / channels; At(n, channels) <= dst.Length && At(n, PixelBytes(channels)) <= src.Length
    modifies dst
    ensures RunDecoded(dst[..], 0, src[..], 0, Channels(channels, []), tensorSize / channels)
    ensures SameWordsOutside(dst[..], old(dst[..]), 0, At(tensorSize / channels, channels))
  {
    hide At, PixelBytes, PixelDecoded, RunDecoded;
    ghost var before := dst[..];
    var n, size, c := tensorSize / channels, PixelBytes(channels), Channels(channels, []);
    AtNext(0, channels);
    AtNext(0, size);
    EmptyRunDecoded(dst[..], 0, src[..], 0, c);
    for i := 0 to n
      invariant At(i, channels) <= dst.Length && At(i, size) <= src.Length
      invariant RunDecoded(dst[..], 0, src[..], 0, c, i)
      invariant SameWordsOutside(dst[..], before, 0, At(i, channels))
    {
      Fits(i, n, channels);
      Fits(i, n, size);
      AtNext(i, channels);
      AtNext(i, size);
      ghost var was := dst[..];
      UnconvertPixel(form, src, 0, dst, 0, c, [], At(i, size), At(i, channels), i);
      RunDecodedGrows(dst[..], was, 0, src[..], 0, c, i);
    }
  }

  // ----- the round trip of a tensor

  /** The words out are the round trip of the words ws: rounded to 16 bits, then to the unit of
      their group. */
  ghost predicate PixelRoundTripped(ws: seq<bv32>, out: seq<bv32>) {
    |out| == |ws| && forall c: nat :: c < |ws| ==>
      var rounded := RoundAll(ws);
      var exp := GroupExponent(Group(rounded, c / 8));
      Exponent(rounded[c]) <= exp && GbfLane.RoundTripped(exp, rounded[c], out[c])
  }

  lemma PixelRoundTrip(ws: seq<bv32>)
    requires Defined(RoundAll(ws))
    ensures PixelRoundTripped(ws, Decode(Encode(RoundAll(ws)), |ws|))
  {
    hide Encode, Decode, Defined, Exponent, GroupExponent, GbfLane.RoundTripped, Round16;
    RoundAllIsRounded(ws);
    CodecRoundTrip(RoundAll(ws));
  }

  /** Unpadding a padded tensor yields, pixel by pixel, the codec's round trip of the source. */
  lemma TensorRoundTrip(src: seq<bv32>, was: seq<bv8>, packed: seq<bv8>, out: seq<bv32>, s: Shape, r: nat, i: nat)
    requires s.Words() <= |src| && s.Words() <= |out| && s.Bytes() <= |packed| == |was|
    requires RowsEncoded(packed, was, src, s, s.height)
    requires RowsDecoded(out, s.RowWords(), packed, s.RowBytes(), Channels(s.channels, []), s.RowPixels(), s.height)
    requires r < s.height && i < s.RowPixels()
    ensures (Fits(r, s.height, s.RowWords()); Fits(i, s.RowPixels(), s.channels);
             var base := At(r, s.RowWords());
             PixelRoundTripped(Pixel(src, base, s.channels, i), Pixel(out, base, s.channels, i)))
  {
    hide At, PixelBytes, PadTo4, Encode, Decode, Defined, PixelRoundTripped, PixelOutput;
    Fits(r, s.height, s.RowWords());
    Fits(r, s.height, s.RowBytes());
    Fits(i, s.RowPixels(), s.channels);
    Fits(i, s.RowPixels(), PixelBytes(s.channels));
    PixelBytesAreGroups(s.channels);
    var base, at := At(r, s.RowWords()), At(r, s.RowBytes());
    var pixel := Pixel(src, base, s.channels, i);
    assert PixelEncoded(packed, at + At(i, PixelBytes(s.channels)), pixel);
    assert PixelDecoded(out, base + At(i, s.channels), Packets(packed, at, s.channels, i), Channels(s.channels, []));
    NoDummies(Packets(packed, at, s.channels, i), s.channels);
    PixelRoundTrip(pixel);
  }

  lemma RoundAllIsRounded(ws: seq<bv32>)
    ensures AllRounded(RoundAll(ws))
  {
    hide Round16, IsRounded;
    forall i | 0 <= i < |ws|
      ensures IsRounded(RoundAll(ws)[i])
    {
      RoundedStays(ws[i]);
    }
  }
}
