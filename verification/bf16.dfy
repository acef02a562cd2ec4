/** convert_bf16 and unconvert_bf16: 16-bit words without a shared exponent, with the vector
    forms of the conversion loop. */
module Bf16 {
  import opened Float32
  import opened GbfDecoder
  import opened Slices

  function UpperHalf(y: bv32): bv32 { y >> 16 }

  function HalfUp(w: bv32): bv32 { UpperHalf(PlusHalf(w)) }

  /** The uint16_t cast. */
  function Narrow(x: bv32): bv16 { (x & 0xFFFF) as bv16 }

  /** The scalar conversion of one word. */
  function ToBf16(w: bv32): bv16 { Narrow(HalfUp(w)) }

  function FromBf16(h: bv16): bv32 { (h as bv32) << 16 }

  function AllToBf16(ws: seq<bv32>): (hs: seq<bv16>)
    ensures |hs| == |ws|
  {
    seq(|ws|, i requires 0 <= i < |ws| => ToBf16(ws[i]))
  }

  /** Converting there and back is exactly the rounding the packet encoder does in place. */
  lemma Bf16RoundTrip(w: bv32)
    ensures FromBf16(ToBf16(w)) == Round16(w)
  {
    hide FromBf16, Narrow, UpperHalf, PlusHalf, HighHalf;
    WidenNarrow(PlusHalf(w));
  }

  lemma WidenNarrow(y: bv32)
    ensures FromBf16(Narrow(UpperHalf(y))) == HighHalf(y)
  {
    hide HighHalf;
    WidenIsShift(UpperHalf(y));
    ClearLowHalf(y);
  }

  lemma WidenIsShift(x: bv32)
    ensures FromBf16(Narrow(x)) == x << 16
  {
  }

  lemma ClearLowHalf(y: bv32)
    ensures UpperHalf(y) << 16 == HighHalf(y)
  {
  }

  // ----- AVX2: 16 words at a time

  /** One 32-bit lane of _mm256_packus_epi32: signed value, saturated to 16 unsigned bits. */
  function PackSaturated(x: bv32): bv16 {
    if x >= 0x8000_0000 then 0 else if x > 0xFFFF then 0xFFFF else (x & 0xFFFF) as bv16
  }

  function PackFour(v: seq<bv32>, at: nat): (r: seq<bv16>)
    requires at + 4 <= |v|
    ensures |r| == 4
  {
    [PackSaturated(v[at]), PackSaturated(v[at + 1]), PackSaturated(v[at + 2]), PackSaturated(v[at + 3])]
  }

  /** _mm256_packus_epi32 works within 128-bit halves, so the two inputs come out interleaved. */
  function PackUnsigned(a: seq<bv32>, b: seq<bv32>): (r: seq<bv16>)
    requires |a| == |b| == 8
    ensures |r| == 16
  {
    PackFour(a, 0) + PackFour(b, 0) + PackFour(a, 4) + PackFour(b, 4)
  }

  /** The two control bits of a permutation slot. */
  function Control(imm: bv8, slot: nat): (k: nat)
    requires slot < 4
    ensures k < 4
  {
    var bits := if slot == 0 then imm & 3 else if slot == 1 then (imm >> 2) & 3 else if slot == 2 then (imm >> 4) & 3 else (imm >> 6) & 3;
    if bits == 0 then 0 else if bits == 1 then 1 else if bits == 2 then 2 else 3
  }

  /** _mm256_permute4x64_epi64: four quarters of four 16-bit words, selected by the immediate. */
  function PermuteQuarters(v: seq<bv16>, imm: bv8): (r: seq<bv16>)
    requires |v| == 16
    ensures |r| == 16
  {
    var q := (slot: nat) requires slot < 4 => v[4 * Control(imm, slot)..4 * Control(imm, slot) + 4];
    q(0) + q(1) + q(2) + q(3)
  }

  function AddAndShift(v: seq<bv32>): (r: seq<bv32>)
    ensures |r| == |v|
  {
    seq(|v|, i requires 0 <= i < |v| => HalfUp(v[i]))
  }

  function Avx2Block(v: seq<bv32>): (r: seq<bv16>)
    requires |v| == 16
    ensures |r| == 16
  {
    PermuteQuarters(PackUnsigned(AddAndShift(v[..8]), AddAndShift(v[8..])), 0xD8)
  }

  lemma PackIsTruncation(w: bv32)
    ensures PackSaturated(HalfUp(w)) == ToBf16(w)
  {
    hide PackSaturated, Narrow, UpperHalf, PlusHalf;
    NothingSaturates(PlusHalf(w));
  }

  /** After the shift every lane is within 16 bits, so the saturating pack only truncates. */
  lemma NothingSaturates(y: bv32)
    ensures PackSaturated(UpperHalf(y)) == Narrow(UpperHalf(y))
  {
  }

  lemma PermutationSlots()
    ensures Control(0xD8, 0) == 0 && Control(0xD8, 1) == 2 && Control(0xD8, 2) == 1 && Control(0xD8, 3) == 3
  {
  }

  /** Four packed lanes are the four scalar conversions. */
  lemma PackedLanes(v: seq<bv32>, half: nat, at: nat)
    requires half + at + 4 <= |v| && at + 4 <= 8 && half + 8 <= |v|
    ensures PackFour(AddAndShift(v[half..half + 8]), at) == AllToBf16(v)[half + at..half + at + 4]
  {
    hide PackSaturated, ToBf16, HalfUp;
    PackIsTruncation(v[half + at]);
    PackIsTruncation(v[half + at + 1]);
    PackIsTruncation(v[half + at + 2]);
    PackIsTruncation(v[half + at + 3]);
  }

  /** The permutation 0, 2, 1, 3 undoes the interleaving of the two inputs. */
  lemma QuartersInOrder(a: seq<bv32>, b: seq<bv32>)
    requires |a| == |b| == 8
    ensures PermuteQuarters(PackUnsigned(a, b), 0xD8) == PackFour(a, 0) + PackFour(a, 4) + PackFour(b, 0) + PackFour(b, 4)
  {
    hide PackFour, Control;
    PermutationSlots();
    var p := PackUnsigned(a, b);
    assert p[0..4] == PackFour(a, 0);
    assert p[4..8] == PackFour(b, 0);
    assert p[8..12] == PackFour(a, 4);
    assert p[12..16] == PackFour(b, 4);
  }

  /** Pack and permute together put the sixteen words back in order. */
  lemma Avx2BlockIsScalar(v: seq<bv32>)
    requires |v| == 16
    ensures Avx2Block(v) == AllToBf16(v)
  {
    hide PackUnsigned, PackFour, PermuteQuarters, AddAndShift, AllToBf16;
    QuartersInOrder(AddAndShift(v[..8]), AddAndShift(v[8..]));
    assert v[0..8] == v[..8] && v[8..16] == v[8..];
    PackedLanes(v, 0, 0);
    PackedLanes(v, 0, 4);
    PackedLanes(v, 8, 0);
    PackedLanes(v, 8, 4);
    var all := AllToBf16(v);
    assert all == all[0..4] + all[4..8] + all[8..12] + all[12..16];
  }

  /** vmovn_u32 on eight words: plain truncation. */
  function NeonBlock(v: seq<bv32>): (r: seq<bv16>)
    requires |v| == 8
    ensures |r| == 8
  {
    seq(8, i requires 0 <= i < 8 => Narrow(HalfUp(v[i])))
  }

  lemma NeonBlockIsScalar(v: seq<bv32>)
    requires |v| == 8
    ensures NeonBlock(v) == AllToBf16(v)
  {
  }

  // ----- the loops

  function BlockSize(form: Form): nat { if form == Avx2 then 16 else if form == Neon then 8 else 1 }

  function Block(form: Form, v: seq<bv32>): (r: seq<bv16>)
    requires |v| == BlockSize(form)
    ensures |r| == |v|
  {
    match form
    case Avx2 => Avx2Block(v)
    case Neon => NeonBlock(v)
    case Portable => [ToBf16(v[0])]
  }

  lemma BlockIsScalar(form: Form, v: seq<bv32>)
    requires |v| == BlockSize(form)
    ensures Block(form, v) == AllToBf16(v)
  {
    hide ToBf16, Avx2Block, NeonBlock;
    match form
    case Avx2 => Avx2BlockIsScalar(v);
    case Neon => NeonBlockIsScalar(v);
    case Portable =>
  }

  /** One vector store. */
  method StoreBlock(block: seq<bv16>, dst: array<bv16>, at: nat)
    requires at + |block| <= dst.Length
    modifies dst
    ensures dst[..at] == old(dst[..at]) && dst[at..at + |block|] == block
    ensures dst[at + |block|..] == old(dst[at + |block|..])
  {
    for k := 0 to |block|
      invariant dst[..at] == old(dst[..at]) && dst[at..at + k] == block[..k]
      invariant dst[at + |block|..] == old(dst[at + |block|..])
    {
      dst[at + k] := block[k];
    }
    assert block[..|block|] == block;
  }

  lemma AllToBf16Extends(ws: seq<bv32>, i: nat, j: nat)
    requires i <= j <= |ws|
    ensures AllToBf16(ws[..j]) == AllToBf16(ws[..i]) + AllToBf16(ws[i..j])
  {
    hide ToBf16;
  }

  lemma OneWord(ws: seq<bv32>)
    requires |ws| == 1
    ensures AllToBf16(ws) == [ToBf16(ws[0])]
  {
    hide ToBf16;
  }

  /** convert_bf16: whole vector blocks, then the scalar tail. */
  method ConvertBf16(form: Form, src: seq<bv32>, dst: array<bv16>, n: nat)
    requires n <= |src| && n <= dst.Length
    modifies dst
    ensures dst[..n] == AllToBf16(src[..n])
    ensures dst[n..] == old(dst[n..])
  {
    hide ToBf16, Block, AllToBf16;
    var size := BlockSize(form);
    var i := 0;
    assert dst[..0] == AllToBf16(src[..0]);
    while i + size <= n
      invariant i <= n
      invariant dst[..i] == AllToBf16(src[..i])
      invariant dst[n..] == old(dst[n..])
    {
      BlockIsScalar(form, src[i..i + size]);
      AllToBf16Extends(src, i, i + size);
      StoreBlock(Block(form, src[i..i + size]), dst, i);
      assert dst[n..] == dst[i + size..][n - i - size..];
      Extend(dst[..], 0, i, size);
      assert dst[..][0..i + size] == dst[..i + size] && dst[..][0..i] == dst[..i] && dst[..][i..i + size] == dst[i..i + size];
      i := i + size;
    }
    while i < n
      invariant i <= n
      invariant dst[..i] == AllToBf16(src[..i])
      invariant dst[n..] == old(dst[n..])
    {
      dst[i] := ToBf16(src[i]);
      AllToBf16Extends(src, i, i + 1);
      OneWord(src[i..i + 1]);
      Extend(dst[..], 0, i, 1);
      assert dst[..][0..i + 1] == dst[..i + 1] && dst[..][0..i] == dst[..i] && dst[..][i..i + 1] == [dst[i]];
      i := i + 1;
    }
  }

  /** unconvert_bf16 of what convert_bf16 wrote gives the source words rounded to 16 bits. */
  method UnconvertBf16(src: array<bv16>, dst: array<bv32>, n: nat)
    requires n <= src.Length && n <= dst.Length
    modifies dst
    ensures forall j :: 0 <= j < n ==> dst[j] == FromBf16(src[j])
    ensures forall ws: seq<bv32> :: |ws| == n && src[..n] == AllToBf16(ws) ==> dst[..n] == RoundAll(ws)
    ensures forall j :: n <= j < dst.Length ==> dst[j] == old(dst[j])
  {
    hide ToBf16, FromBf16, Round16;
    for i := 0 to n
      invariant forall j :: 0 <= j < i ==> dst[j] == FromBf16(src[j])
      invariant forall j :: n <= j < dst.Length ==> dst[j] == old(dst[j])
    {
      dst[i] := FromBf16(src[i]);
    }
    forall ws: seq<bv32> | |ws| == n && src[..n] == AllToBf16(ws)
      ensures dst[..n] == RoundAll(ws)
    {
      forall j | 0 <= j < n
        ensures dst[j] == Round16(ws[j])
      {
        assert src[..n][j] == ToBf16(ws[j]);
        Bf16RoundTrip(ws[j]);
      }
    }
  }
}
