/** The check of a firmware image before it is loaded: which bytes each image format
    covers with its checksum, and what a corrupted image cannot get past. */
module FirmwareCheck {
  import opened Crc32
  import opened Crc32Detection
  import opened Crc32Laws

  const FORMAT_AT := 0x6F08
  const TYPE_AT := 0x6FF8

  datatype Verdict = CrcFailed | TypeFailed | Accepted

  function Word(image: seq<bv8>, at: nat): bv32
    requires at + 4 <= |image|
  {
    FromBytes(image[at], image[at + 1], image[at + 2], image[at + 3])
  }

  function FromBytes(a: bv8, b: bv8, c: bv8, d: bv8): bv32 {
    (a as bv32) | ((b as bv32) << 8) | ((c as bv32) << 16) | ((d as bv32) << 24)
  }

  /** Every word that the check reads exists. An image of no known format is not looked at behind
      its format word. */
  predicate Readable(image: seq<bv8>) {
    && FORMAT_AT + 4 <= |image|
    && (Word(image, FORMAT_AT) == 0 || Word(image, FORMAT_AT) == 1 ==> TYPE_AT + 4 <= |image|)
  }

  /** The check recognises two formats. */
  predicate Known(image: seq<bv8>)
    requires Readable(image)
  {
    Word(image, FORMAT_AT) == 0 || Word(image, FORMAT_AT) == 1
  }

  /** The bytes under the checksum. Format 0 starts with a length word and ends with a word after
      the checksum. */
  function CoveredFrom(image: seq<bv8>): nat
    requires Readable(image)
  {
    if Word(image, FORMAT_AT) == 0 then 4 else 0
  }

  function CoveredTo(image: seq<bv8>): (to: nat)
    requires Readable(image)
    ensures CoveredFrom(image) <= to <= |image| - 4
  {
    if Word(image, FORMAT_AT) == 0 then |image| - 8 else |image| - 4
  }

  /** The image carries the checksum of its covered bytes. */
  predicate Sound(image: seq<bv8>)
    requires Readable(image)
  {
    Known(image) && Word(image, CoveredTo(image)) == Crc(image[CoveredFrom(image)..CoveredTo(image)])
  }

  /** The check of the driver's firmware download: the board's type word is read from its SRAM.
      When the checksum table cannot be allocated, the computed checksum is 0. */
  method Check(image: seq<bv8>, boardType: bv32, granted: bool) returns (v: Verdict)
    requires Readable(image)
    ensures granted ==> (v == CrcFailed <==> !Sound(image))
    ensures granted && Sound(image) ==> (v == Accepted <==> Word(image, TYPE_AT) == boardType)
    ensures !granted ==> (v != CrcFailed <==> Known(image) && Word(image, CoveredTo(image)) == 0)
  {
    hide Crc, FromBytes;
    var crcValue, crcCheck := 0, 1;
    var typeValue, typeCheck := 0, 0;
    if Word(image, FORMAT_AT) == 0 {
      crcValue := Word(image, |image| - 8);
      crcCheck := MemxCrc32(image[4..][..|image| - 12], granted);
      typeValue, typeCheck := Word(image, TYPE_AT), boardType;
      assert image[4..][..|image| - 12] == image[4..|image| - 8];
    } else if Word(image, FORMAT_AT) == 1 {
      crcValue := Word(image, |image| - 4);
      crcCheck := MemxCrc32(image[..|image| - 4], granted);
      typeValue, typeCheck := Word(image, TYPE_AT), boardType;
      assert image[..|image| - 4] == image[0..|image| - 4];
    }
    if crcValue != crcCheck {
      return CrcFailed;
    }
    if typeValue != typeCheck {
      return TypeFailed;
    }
    return Accepted;
  }

  /** An image that passes the checksum, changed only inside four consecutive covered bytes with
      the format word as it was, does not pass it any more. */
  lemma CorruptionRejected(image: seq<bv8>, other: seq<bv8>, at: nat, n: nat)
    requires |image| == |other| && Readable(image) && Sound(image)
    requires n <= 4 && CoveredFrom(image) <= at && at + n <= CoveredTo(image)
    requires image[..at] == other[..at] && image[at + n..] == other[at + n..] && image != other
    requires image[FORMAT_AT..FORMAT_AT + 4] == other[FORMAT_AT..FORMAT_AT + 4]
    ensures Readable(other) && !Sound(other)
  {
    hide Crc, FromBytes;
    SameWord(image, other, FORMAT_AT);
    var lo, hi := CoveredFrom(image), CoveredTo(image);
    WordPastChange(image, other, at + n, hi);
    CutOut(image, other, lo, hi, at, n);
    FourBytesDetected(image[lo..hi], other[lo..hi], at - lo, n);
  }

  lemma WordPastChange(a: seq<bv8>, b: seq<bv8>, from: nat, at: nat)
    requires from <= at && at + 4 <= |a| == |b| && a[from..] == b[from..]
    ensures Word(a, at) == Word(b, at)
  {
    hide FromBytes;
    assert a[at..at + 4] == a[from..][at - from..at - from + 4];
    assert b[at..at + 4] == b[from..][at - from..at - from + 4];
    SameWord(a, b, at);
  }

  /** The covered parts differ, and only in the same bytes. */
  lemma CutOut(a: seq<bv8>, b: seq<bv8>, lo: nat, hi: nat, at: nat, n: nat)
    requires |a| == |b| && lo <= at && at + n <= hi <= |a|
    requires a[..at] == b[..at] && a[at + n..] == b[at + n..] && a != b
    ensures a[lo..hi][..at - lo] == b[lo..hi][..at - lo]
    ensures a[lo..hi][at - lo + n..] == b[lo..hi][at - lo + n..]
    ensures a[lo..hi] != b[lo..hi]
  {
    SameStart(a, b, lo, hi, at);
    SameEnd(a, b, lo, hi, at + n);
    PartsDetermine(a, b, lo, hi, at, n);
  }

  lemma SameStart(a: seq<bv8>, b: seq<bv8>, lo: nat, hi: nat, at: nat)
    requires |a| == |b| && lo <= at <= hi <= |a| && a[..at] == b[..at]
    ensures a[lo..hi][..at - lo] == b[lo..hi][..at - lo]
  {
    assert a[lo..hi][..at - lo] == a[..at][lo..];
    assert b[lo..hi][..at - lo] == b[..at][lo..];
  }

  lemma SameEnd(a: seq<bv8>, b: seq<bv8>, lo: nat, hi: nat, from: nat)
    requires |a| == |b| && lo <= from <= hi <= |a| && a[from..] == b[from..]
    ensures a[lo..hi][from - lo..] == b[lo..hi][from - lo..]
  {
    assert a[lo..hi][from - lo..] == a[from..][..hi - from];
    assert b[lo..hi][from - lo..] == b[from..][..hi - from];
  }

  lemma PartsDetermine(a: seq<bv8>, b: seq<bv8>, lo: nat, hi: nat, at: nat, n: nat)
    requires |a| == |b| && lo <= at && at + n <= hi <= |a|
    requires a[..at] == b[..at] && a[at + n..] == b[at + n..]
    ensures a[lo..hi] == b[lo..hi] ==> a == b
  {
    if a[lo..hi] == b[lo..hi] {
      forall j | 0 <= j < |a|
        ensures a[j] == b[j]
      {
        if j < at {
          assert a[..at][j] == b[..at][j];
        } else if j < at + n {
          assert a[lo..hi][j - lo] == b[lo..hi][j - lo];
        } else {
          assert a[at + n..][j - at - n] == b[at + n..][j - at - n];
        }
      }
    }
  }

  lemma SameWord(a: seq<bv8>, b: seq<bv8>, at: nat)
    requires at + 4 <= |a| == |b| && a[at..at + 4] == b[at..at + 4]
    ensures Word(a, at) == Word(b, at)
  {
    hide FromBytes;
    assert a[at..at + 4][0] == a[at] && a[at..at + 4][1] == a[at + 1] && a[at..at + 4][2] == a[at + 2] && a[at..at + 4][3] == a[at + 3];
    assert b[at..at + 4][0] == b[at] && b[at..at + 4][1] == b[at + 1] && b[at..at + 4][2] == b[at + 2] && b[at..at + 4][3] == b[at + 3];
  }

  // ----- images that pass

  lemma FromStoredBytes(x: bv32)
    ensures FromBytes(AsByte(x), AsByte(ShiftByte(x)), AsByte(ShiftByte(ShiftByte(x))), AsByte(ShiftByte(ShiftByte(ShiftByte(x))))) == x
  {
  }

  lemma StoredFromBytes(a: bv8, b: bv8, c: bv8, d: bv8)
    ensures var x := FromBytes(a, b, c, d);
      AsByte(x) == a && AsByte(ShiftByte(x)) == b && AsByte(ShiftByte(ShiftByte(x))) == c && AsByte(ShiftByte(ShiftByte(ShiftByte(x)))) == d
  {
  }

  /** Reading a word and storing it are inverse. */
  lemma WordIsStored(image: seq<bv8>, at: nat, x: bv32)
    requires at + 4 <= |image|
    ensures Word(image, at) == x <==> image[at..at + 4] == Stored(x)
  {
    hide FromBytes, Stored;
    var b := image[at..at + 4];
    assert b == [image[at], image[at + 1], image[at + 2], image[at + 3]];
    FourStored(image[at], image[at + 1], image[at + 2], image[at + 3], x);
  }

  lemma FourStored(a: bv8, b: bv8, c: bv8, d: bv8, x: bv32)
    ensures FromBytes(a, b, c, d) == x <==> [a, b, c, d] == Stored(x)
  {
    hide FromBytes, AsByte, ShiftByte;
    FromStoredBytes(x);
    StoredFromBytes(a, b, c, d);
    assert [a, b, c, d] == Stored(x) ==>
      a == Stored(x)[0] && b == Stored(x)[1] && c == Stored(x)[2] && d == Stored(x)[3];
  }

  /** An image with the checksum put where its format has it: format 0 begins with a length word that
      is not covered and ends with a word behind the checksum, format 1 is covered from its first
      byte and ends with the checksum. */
  function Signed(image: seq<bv8>): (r: seq<bv8>)
    requires 0x6FFC <= |image|
    ensures |r| == |image|
  {
    var n := |image|;
    if Word(image, 0x6F08) == 0 then image[..n - 8] + Stored(Crc(image[4..n - 8])) + image[n - 4..]
    else image[..n - 4] + Stored(Crc(image[..n - 4]))
  }

  lemma Replaced(image: seq<bv8>, at: nat, x: seq<bv8>)
    requires at + |x| <= |image|
    ensures image == image[..at] + x + image[at + |x|..] <==> image[at..at + |x|] == x
  {
    assert image == image[..at] + image[at..at + |x|] + image[at + |x|..];
    assert (image[..at] + x + image[at + |x|..])[at..at + |x|] == x;
  }

  /** The images that pass the checksum are those that signing leaves alone. */
  lemma SoundExactly(image: seq<bv8>)
    requires Readable(image)
    ensures Sound(image) <==> (Word(image, 0x6F08) == 0 || Word(image, 0x6F08) == 1) && image == Signed(image)
  {
    hide Crc, FromBytes, Stored;
    if Known(image) {
      var n := |image|;
      var at := if Word(image, 0x6F08) == 0 then n - 8 else n - 4;
      assert image[0..n - 4] == image[..n - 4] && image[n..] == [];
      var sum := Crc(image[CoveredFrom(image)..at]);
      WordIsStored(image, at, sum);
      Replaced(image, at, Stored(sum));
      assert image[..n - 4] + Stored(sum) + [] == image[..n - 4] + Stored(sum);
    }
  }

  /** Signing makes any image of a known format pass, and keeps its format and type words. */
  lemma SigningWorks(image: seq<bv8>)
    requires 0x7004 <= |image| && (Word(image, 0x6F08) == 0 || Word(image, 0x6F08) == 1)
    ensures Readable(Signed(image)) && Sound(Signed(image))
    ensures Word(Signed(image), 0x6F08) == Word(image, 0x6F08) && Word(Signed(image), 0x6FF8) == Word(image, 0x6FF8)
  {
    hide Crc, FromBytes, Stored, Sound;
    var n, s := |image|, Signed(image);
    assert s[..n - 8] == image[..n - 8];
    assert s[0x6F08..0x6F0C] == s[..n - 8][0x6F08..0x6F0C] == image[0x6F08..0x6F0C];
    assert s[0x6FF8..0x6FFC] == s[..n - 8][0x6FF8..0x6FFC] == image[0x6FF8..0x6FFC];
    SameWord(s, image, 0x6F08);
    SameWord(s, image, 0x6FF8);
    assert Readable(s);
    SoundExactly(s);
    if Word(image, 0x6F08) == 0 {
      assert s[4..n - 8] == image[4..n - 8] && s[n - 4..] == image[n - 4..];
    } else {
      assert s[..n - 4] == image[..n - 4];
    }
  }
}
