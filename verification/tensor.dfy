/** The tensor walkers convert_gbf, convert_gbf_row_pad and their inverses: pixels of num_ch
    floats become runs of packets; rows may be padded to multiples of four bytes. */
module Tensor {
  import opened Float32
  import opened GbfCodec

  // ----- offsets

  /** The offset of item i in a run of items of a given size. */
  function At(i: nat, size: nat): nat { i * size }

  lemma AtNext(i: nat, size: nat)
    ensures At(0, size) == 0
    ensures At(i + 1, size) == At(i, size) + size
  {
    assert (i + 1) * size == i * size + size;
  }

  lemma {:induction false} AtOrder(i: nat, j: nat, size: nat)
    requires i < j
    ensures At(i, size) + size <= At(j, size)
  {
    hide At;
    AtNext(j - 1, size);
    if i < j - 1 {
      AtOrder(i, j - 1, size);
    }
    AtNext(i, size);
  }

  /** num_gbf_per_pixel * 10. */
  function PixelBytes(channels: nat): nat { 10 * (channels / 8 + if channels % 8 != 0 then 1 else 0) }

  lemma PixelBytesAreGroups(channels: nat)
    ensures PixelBytes(channels) == 10 * GroupCount(channels)
  {
  }

  /** (n + 3) & ~3 for a non-negative n. */
  function PadTo4(n: nat): (r: nat)
    ensures n <= r < n + 4 && r % 4 == 0
  {
    (n + 3) / 4 * 4
  }

  // ----- what the regions of a tensor hold

  ghost predicate PixelEncoded(dst: seq<bv8>, at: nat, pixel: seq<bv32>)
    requires at + PixelBytes(|pixel|) <= |dst|
  {
    Defined(RoundAll(pixel)) && dst[at..at + PixelBytes(|pixel|)] == Encode(RoundAll(pixel))
  }

  /** Pixel i of a run of pixels that starts at word base. */
  function Pixel(src: seq<bv32>, base: nat, channels: nat, i: nat): (pixel: seq<bv32>)
    requires base + At(i, channels) + channels <= |src|
    ensures |pixel| == channels
  {
    src[base + At(i, channels)..base + At(i, channels) + channels]
  }

  lemma Fits(i: nat, n: nat, size: nat)
    ensures i < n ==> At(i, size) + size <= At(n, size)
  {
    if i < n {
      AtOrder(i, n, size);
    }
  }

  /** C defines every shift of the run. */
  ghost predicate RunDefined(src: seq<bv32>, base: nat, channels: nat, n: nat)
    requires base + At(n, channels) <= |src|
  {
    forall i: nat :: i < n ==> (Fits(i, n, channels); Defined(RoundAll(Pixel(src, base, channels, i))))
  }

  /** The first n pixels of the run at word base of src are encoded at byte at of dst. */
  ghost predicate RunEncoded(dst: seq<bv8>, at: nat, src: seq<bv32>, base: nat, channels: nat, n: nat)
    requires base + At(n, channels) <= |src| && at + At(n, PixelBytes(channels)) <= |dst|
  {
    forall i: nat :: i < n ==>
      (Fits(i, n, channels); Fits(i, n, PixelBytes(channels));
       PixelEncoded(dst, at + At(i, PixelBytes(channels)), Pixel(src, base, channels, i)))
  }

  lemma RunGrows(dst: seq<bv8>, was: seq<bv8>, at: nat, src: seq<bv32>, base: nat, channels: nat, n: nat)
    requires base + At(n + 1, channels) <= |src| && at + At(n + 1, PixelBytes(channels)) <= |dst| == |was|
    requires (Fits(n, n + 1, channels); Fits(n, n + 1, PixelBytes(channels));
              RunEncoded(was, at, src, base, channels, n)
              && PixelEncoded(dst, at + At(n, PixelBytes(channels)), Pixel(src, base, channels, n)))
    requires forall j :: 0 <= j < at + At(n, PixelBytes(channels)) ==> dst[j] == was[j]
    ensures RunEncoded(dst, at, src, base, channels, n + 1)
  {
    hide At, PixelBytes, Encode, RoundAll, Defined;
    forall i: nat | i < n + 1
      ensures (Fits(i, n + 1, channels); Fits(i, n + 1, PixelBytes(channels));
               PixelEncoded(dst, at + At(i, PixelBytes(channels)), Pixel(src, base, channels, i)))
    {
      Fits(i, n + 1, channels);
      Fits(i, n + 1, PixelBytes(channels));
      Fits(n, n + 1, PixelBytes(channels));
      if i < n {
        Fits(i, n, channels);
        Fits(i, n, PixelBytes(channels));
        var lo := at + At(i, PixelBytes(channels));
        assert PixelEncoded(was, lo, Pixel(src, base, channels, i));
        assert dst[lo..lo + PixelBytes(channels)] == was[lo..lo + PixelBytes(channels)];
      }
    }
  }

  // ----- convert_gbf_row_pad

  /** The source words once k pixels of the run are converted: rounded in place, the rest as before. */
  ghost predicate RoundedUpTo(now: seq<bv32>, was: seq<bv32>, base: nat, end: nat) {
    |now| == |was| && forall j :: 0 <= j < |now| ==> now[j] == if base <= j < end then Round16(was[j]) else was[j]
  }

  ghost predicate SameOutside(now: seq<bv8>, was: seq<bv8>, lo: nat, hi: nat) {
    |now| == |was| && forall j :: 0 <= j < |now| && !(lo <= j < hi) ==> now[j] == was[j]
  }

  /** The body of the pixel loops: encode pixel k at the running offsets. */
  method ConvertPixel(src: array<bv32>, base: nat, dst: array<bv8>, at: nat, channels: nat, fltOffset: nat, gbfOffset: nat,
                      ghost source: seq<bv32>, ghost k: nat)
    requires fltOffset == At(k, channels) && gbfOffset == At(k, PixelBytes(channels))
    requires |source| == src.Length && base + fltOffset + channels <= src.Length && at + gbfOffset + PixelBytes(channels) <= dst.Length
    requires RoundedUpTo(src[..], source, base, base + fltOffset)
    requires Defined(RoundAll(Pixel(source, base, channels, k)))
    modifies src, dst
    ensures RoundedUpTo(src[..], source, base, base + fltOffset + channels)
    ensures PixelEncoded(dst[..], at + gbfOffset, Pixel(source, base, channels, k))
    ensures SameOutside(dst[..], old(dst[..]), at + gbfOffset, at + gbfOffset + PixelBytes(channels))
  {
    hide At, Round16, Encode, Defined;
    PixelBytesAreGroups(channels);
    var from := base + fltOffset;
    assert src[from..from + channels] == Pixel(source, base, channels, k);
    GbfEncode(src, from, dst, at + gbfOffset, channels);
    if channels == 0 {
      EmptyPixel();
    } else {
      forall j | from <= j < from + channels
        ensures src[j] == Round16(source[j])
      {
        assert src[from..from + channels][j - from] == src[j];
        assert old(src[from..from + channels])[j - from] == old(src[j]);
      }
    }
  }

  lemma EmptyPixel()
    ensures Defined(RoundAll([])) && Encode(RoundAll([])) == []
  {
  }

  /** One row of pixels: the loops over width and z with their running offsets. */
  method ConvertRow(src: array<bv32>, base: nat, dst: array<bv8>, at: nat, width: nat, z: nat, channels: nat)
    requires base + At(At(width, z), channels) <= src.Length
    requires at + At(At(width, z), PixelBytes(channels)) <= dst.Length
    requires RunDefined(src[..], base, channels, At(width, z))
    modifies src, dst
    ensures RoundedUpTo(src[..], old(src[..]), base, base + At(At(width, z), channels))
    ensures RunEncoded(dst[..], at, old(src[..]), base, channels, At(width, z))
    ensures SameOutside(dst[..], old(dst[..]), at, at + At(At(width, z), PixelBytes(channels)))
  {
    hide At, PixelBytes, Round16, Encode, Defined, PixelEncoded, RunEncoded;
    ghost var source, before, n, k := src[..], dst[..], At(width, z), 0;
    var size := PixelBytes(channels);
    var gbfOffset, fltOffset := 0, 0;
    AtNext(0, z);
    AtNext(0, channels);
    AtNext(0, size);
    EmptyRun(dst[..], at, source, base, channels);
    for w := 0 to width
      invariant k == At(w, z)
      invariant fltOffset == At(k, channels) && gbfOffset == At(k, size) && base + fltOffset <= src.Length && at + gbfOffset <= dst.Length
      invariant RoundedUpTo(src[..], source, base, base + fltOffset)
      invariant RunEncoded(dst[..], at, source, base, channels, k)
      invariant SameOutside(dst[..], before, at, at + gbfOffset)
    {
      AtNext(w, z);
      for zIdx := 0 to z
        invariant k == At(w, z) + zIdx
        invariant fltOffset == At(k, channels) && gbfOffset == At(k, size) && base + fltOffset <= src.Length && at + gbfOffset <= dst.Length
        invariant RoundedUpTo(src[..], source, base, base + fltOffset)
        invariant RunEncoded(dst[..], at, source, base, channels, k)
        invariant SameOutside(dst[..], before, at, at + gbfOffset)
      {
        AtOrder(w, width, z);
        assert k < n;
        Fits(k, n, channels);
        Fits(k, n, size);
        AtNext(k, channels);
        AtNext(k, size);
        ghost var was := dst[..];
        ConvertPixel(src, base, dst, at, channels, fltOffset, gbfOffset, source, k);
        RunGrows(dst[..], was, at, source, base, channels, k);
        gbfOffset := gbfOffset + size;
        fltOffset := fltOffset + channels;
        k := k + 1;
      }
    }
  }

  lemma EmptyRun(dst: seq<bv8>, at: nat, src: seq<bv32>, base: nat, channels: nat)
    requires base + At(0, channels) <= |src| && at + At(0, PixelBytes(channels)) <= |dst|
    ensures RunEncoded(dst, at, src, base, channels, 0)
  {
  }

  lemma RunStable(dst: seq<bv8>, was: seq<bv8>, at: nat, src: seq<bv32>, source: seq<bv32>, base: nat, channels: nat, n: nat)
    requires base + At(n, channels) <= |src| == |source| && at + At(n, PixelBytes(channels)) <= |dst| == |was|
    requires RunEncoded(was, at, src, base, channels, n)
    requires forall j :: at <= j < at + At(n, PixelBytes(channels)) ==> dst[j] == was[j]
    requires forall j :: base <= j < base + At(n, channels) ==> src[j] == source[j]
    ensures RunEncoded(dst, at, source, base, channels, n)
  {
    hide At, PixelBytes, Encode, RoundAll, Defined;
    forall i: nat | i < n
      ensures (Fits(i, n, channels); Fits(i, n, PixelBytes(channels));
               PixelEncoded(dst, at + At(i, PixelBytes(channels)), Pixel(source, base, channels, i)))
    {
      Fits(i, n, channels);
      Fits(i, n, PixelBytes(channels));
      var lo := at + At(i, PixelBytes(channels));
      assert Pixel(src, base, channels, i) == Pixel(source, base, channels, i);
      assert PixelEncoded(was, lo, Pixel(src, base, channels, i));
      assert dst[lo..lo + PixelBytes(channels)] == was[lo..lo + PixelBytes(channels)];
    }
  }

  lemma RunDefinedStable(src: seq<bv32>, source: seq<bv32>, base: nat, channels: nat, n: nat)
    requires base + At(n, channels) <= |src| == |source| && RunDefined(source, base, channels, n)
    requires forall j :: base <= j < base + At(n, channels) ==> src[j] == source[j]
    ensures RunDefined(src, base, channels, n)
  {
    hide At, RoundAll, Defined;
    forall i: nat | i < n
      ensures (Fits(i, n, channels); Defined(RoundAll(Pixel(src, base, channels, i))))
    {
      Fits(i, n, channels);
      assert Pixel(src, base, channels, i) == Pixel(source, base, channels, i);
    }
  }

  // ----- rows of a padded tensor

  /** The geometry of a tensor: pixels of a row in (width, z) order. */
  datatype Shape = Shape(height: nat, width: nat, z: nat, channels: nat) {
    function RowPixels(): nat { At(width, z) }
    function RowWords(): nat { At(RowPixels(), channels) }
    function RowData(): nat { At(RowPixels(), PixelBytes(channels)) }
    function RowBytes(): nat { PadTo4(RowData()) }
    /** The size the caller allocates for the padded packets. */
    function Bytes(): nat { At(height, RowBytes()) }
    function Words(): nat { At(height, RowWords()) }
  }

  ghost predicate RowsDefined(src: seq<bv32>, s: Shape)
    requires s.Words() <= |src|
  {
    forall r: nat :: r < s.height ==> (Fits(r, s.height, s.RowWords()); RunDefined(src, At(r, s.RowWords()), s.channels, s.RowPixels()))
  }

  /** The first h rows: every pixel encoded in place, the padding bytes as they were. */
  ghost predicate RowsEncoded(dst: seq<bv8>, was: seq<bv8>, src: seq<bv32>, s: Shape, h: nat)
    requires h <= s.height && s.Words() <= |src| && s.Bytes() <= |dst| == |was|
  {
    forall r: nat :: r < h ==>
      (Fits(r, s.height, s.RowWords()); Fits(r, s.height, s.RowBytes());
       RunEncoded(dst, At(r, s.RowBytes()), src, At(r, s.RowWords()), s.channels, s.RowPixels())
       && forall j :: At(r, s.RowBytes()) + s.RowData() <= j < At(r, s.RowBytes()) + s.RowBytes() ==> dst[j] == was[j])
  }

  lemma RowsGrow(dst: seq<bv8>, mid: seq<bv8>, was: seq<bv8>, src: seq<bv32>, source: seq<bv32>, s: Shape, h: nat)
    requires h < s.height && s.Words() <= |src| == |source| && s.Bytes() <= |dst| == |mid| == |was|
    requires RowsEncoded(mid, was, source, s, h)
    requires (Fits(h, s.height, s.RowWords()); Fits(h, s.height, s.RowBytes());
              && RunEncoded(dst, At(h, s.RowBytes()), src, At(h, s.RowWords()), s.channels, s.RowPixels())
              && SameOutside(dst, mid, At(h, s.RowBytes()), At(h, s.RowBytes()) + s.RowData()))
    requires forall j :: At(h, s.RowBytes()) <= j < |mid| ==> mid[j] == was[j]
    requires (Fits(h, s.height, s.RowWords());
              forall j :: At(h, s.RowWords()) <= j < At(h, s.RowWords()) + s.RowWords() ==> src[j] == source[j])
    ensures RowsEncoded(dst, was, source, s, h + 1)
  {
    hide At, PixelBytes, RunEncoded, PadTo4;
    forall r: nat | r < h + 1
      ensures (Fits(r, s.height, s.RowWords()); Fits(r, s.height, s.RowBytes());
               RunEncoded(dst, At(r, s.RowBytes()), source, At(r, s.RowWords()), s.channels, s.RowPixels())
               && forall j :: At(r, s.RowBytes()) + s.RowData() <= j < At(r, s.RowBytes()) + s.RowBytes() ==> dst[j] == was[j])
    {
      Fits(r, s.height, s.RowWords());
      Fits(r, s.height, s.RowBytes());
      if r < h {
        Fits(r, h, s.RowBytes());
        RunStable(dst, mid, At(r, s.RowBytes()), source, source, At(r, s.RowWords()), s.channels, s.RowPixels());
      } else {
        RunStable(dst, dst, At(r, s.RowBytes()), src, source, At(r, s.RowWords()), s.channels, s.RowPixels());
      }
    }
  }

  /** convert_gbf_row_pad. */
  method ConvertGbfRowPad(src: array<bv32>, dst: array<bv8>, height: nat, width: nat, z: nat, channels: nat)
    requires var s := Shape(height, width, z, channels);
             s.Words() <= src.Length && s.Bytes() <= dst.Length && RowsDefined(src[..], s)
    modifies src, dst
    ensures var s := Shape(height, width, z, channels);
            && RoundedUpTo(src[..], old(src[..]), 0, s.Words())
            && RowsEncoded(dst[..], old(dst[..]), old(src[..]), s, height)
            && SameOutside(dst[..], old(dst[..]), 0, s.Bytes())
  {
    hide At, PixelBytes, PadTo4, RunEncoded, RunDefined, Round16;
    ghost var s, source, before := Shape(height, width, z, channels), src[..], dst[..];
    var gbf80RowSize, flt32RowSize := PadTo4(At(At(width, z), PixelBytes(channels))), At(At(width, z), channels);
    var gbf80RowOffset, flt32RowOffset := 0, 0;
    AtNext(0, flt32RowSize);
    AtNext(0, gbf80RowSize);
    for h := 0 to height
      invariant flt32RowOffset == At(h, flt32RowSize) && gbf80RowOffset == At(h, gbf80RowSize)
      invariant flt32RowOffset <= s.Words() && gbf80RowOffset <= s.Bytes()
      invariant RoundedUpTo(src[..], source, 0, flt32RowOffset)
      invariant RowsEncoded(dst[..], before, source, s, h)
      invariant SameOutside(dst[..], before, 0, gbf80RowOffset)
    {
      Fits(h, height, flt32RowSize);
      Fits(h, height, gbf80RowSize);
      ghost var mid, now := dst[..], src[..];
      RunDefinedStable(now, source, flt32RowOffset, channels, s.RowPixels());
      ConvertRow(src, flt32RowOffset, dst, gbf80RowOffset, width, z, channels);
      RowsGrow(dst[..], mid, before, now, source, s, h);
      AtNext(h, flt32RowSize);
      AtNext(h, gbf80RowSize);
      gbf80RowOffset := gbf80RowOffset + gbf80RowSize;
      flt32RowOffset := flt32RowOffset + flt32RowSize;
    }
  }

  // ----- the layout of a padded tensor

  /** Where the packets of pixel i of row r start. */
  function PixelStart(s: Shape, r: nat, i: nat): nat { At(r, s.RowBytes()) + At(i, PixelBytes(s.channels)) }

  lemma {:induction false} RowsAreAligned(s: Shape, r: nat)
    ensures At(r, s.RowBytes()) % 4 == 0
  {
    hide At, PixelBytes;
    if r == 0 {
      AtNext(0, s.RowBytes());
    } else {
      RowsAreAligned(s, r - 1);
      AtNext(r - 1, s.RowBytes());
    }
  }

  /** Distinct pixels own disjoint regions, each inside its row, and rows start at multiples of
      four bytes; the last region ends within the size the caller allocates. */
  lemma PixelRegions(s: Shape, r: nat, i: nat, r2: nat, i2: nat)
    requires r <= r2 < s.height && i < s.RowPixels() && i2 < s.RowPixels() && (r < r2 || i < i2)
    ensures PixelStart(s, r, i) + PixelBytes(s.channels) <= PixelStart(s, r2, i2)
    ensures PixelStart(s, r2, i2) + PixelBytes(s.channels) <= At(r2, s.RowBytes()) + s.RowData() <= s.Bytes()
    ensures At(r2, s.RowBytes()) % 4 == 0
  {
    hide At, PixelBytes, PadTo4;
    RowsAreAligned(s, r2);
    Fits(i, s.RowPixels(), PixelBytes(s.channels));
    Fits(i2, s.RowPixels(), PixelBytes(s.channels));
    Fits(i, i2, PixelBytes(s.channels));
    Fits(r, r2, s.RowBytes());
    Fits(r2, s.height, s.RowBytes());
  }

  /** The padded size is the number the caller passes to malloc. */
  lemma AllocatedSize(s: Shape)
    ensures var groups := s.channels / 8 + if s.channels % 8 != 0 then 1 else 0;
            s.Bytes() == s.height * ((s.width * s.z * groups * 10 + 3) / 4 * 4)
  {
    var groups := s.channels / 8 + if s.channels % 8 != 0 then 1 else 0;
    assert s.width * s.z * (10 * groups) == s.width * s.z * groups * 10;
  }

  // ----- convert_gbf

  /** convert_gbf: the whole pixels of a tensor of tensorSize words, one after the other. */
  method ConvertGbf(src: array<bv32>, dst: array<bv8>, tensorSize: nat, channels: nat)
    requires channels > 0
    requires var n := tensorSize / channels;
             At(n, channels) <= src.Length && At(n, PixelBytes(channels)) <= dst.Length && RunDefined(src[..], 0, channels, n)
    modifies src, dst
    ensures var n := tensorSize / channels;
            && RoundedUpTo(src[..], old(src[..]), 0, At(n, channels))
            && RunEncoded(dst[..], 0, old(src[..]), 0, channels, n)
            && SameOutside(dst[..], old(dst[..]), 0, At(n, PixelBytes(channels)))
  {
    hide At, PixelBytes, Round16, Encode, Defined, PixelEncoded, RunEncoded;
    ghost var source, before := src[..], dst[..];
    var n, size := tensorSize / channels, PixelBytes(channels);
    AtNext(0, channels);
    AtNext(0, size);
    EmptyRun(dst[..], 0, source, 0, channels);
    for i := 0 to n
      invariant RoundedUpTo(src[..], source, 0, At(i, channels))
      invariant At(i, channels) <= src.Length && At(i, size) <= dst.Length
      invariant RunEncoded(dst[..], 0, source, 0, channels, i)
      invariant SameOutside(dst[..], before, 0, At(i, size))
    {
      Fits(i, n, channels);
      Fits(i, n, size);
      AtNext(i, channels);
      AtNext(i, size);
      ghost var was := dst[..];
      ConvertPixel(src, 0, dst, 0, channels, At(i, channels), At(i, size), source, i);
      RunGrows(dst[..], was, 0, source, 0, channels, i);
    }
  }
}
