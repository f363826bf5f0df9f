/** Appending a vbmeta blob and a footer to an image of a partition, and taking them away again. */
module FooterPlacement {
  import opened BigEndian
  import opened CText
  import opened SparseFormat
  import opened SparseImage
  import opened ImageHandler
  import Bits
  import HashTree

  // ----- The footer

  const FOOTER_SIZE := 64
  const FOOTER_MAGIC: seq<Byte> := [65, 86, 66, 102]

  datatype Footer = Footer(major: nat, minor: nat, originalSize: nat, vbmetaOffset: nat, vbmetaSize: nat)

  function Encode(f: Footer): (b: seq<Byte>)
    ensures |b| == FOOTER_SIZE
  {
    FOOTER_MAGIC + Cell(f.major) + Cell(f.minor) + Cell64(f.originalSize) + Cell64(f.vbmetaOffset) + Cell64(f.vbmetaSize) + Zeros(28)
  }

  /** A footer, unless the magic or the length is wrong; no data at all gives an empty footer. */
  function Decode(b: seq<Byte>): Option<Footer> {
    if b == [] then Some(Footer(1, 0, 0, 0, 0))
    else if |b| != FOOTER_SIZE || b[..4] != FOOTER_MAGIC then None
    else Some(Footer(CellValue(b[4..8]), CellValue(b[8..12]), Cell64Value(b[12..20]), Cell64Value(b[20..28]), Cell64Value(b[28..36])))
  }

  lemma FooterRoundTrip(f: Footer)
    requires f.major < BigEndian.WORD && f.minor < BigEndian.WORD
    requires f.originalSize < BigEndian.WORD * BigEndian.WORD && f.vbmetaOffset < BigEndian.WORD * BigEndian.WORD
    requires f.vbmetaSize < BigEndian.WORD * BigEndian.WORD
    ensures Decode(Encode(f)) == Some(f)
  {
    hide Cell, CellValue, Cell64, Cell64Value;
    var b := Encode(f);
    CellRoundTrip(f.major);
    CellRoundTrip(f.minor);
    Cell64RoundTrip(f.originalSize);
    Cell64RoundTrip(f.vbmetaOffset);
    Cell64RoundTrip(f.vbmetaSize);
    assert b[..4] == FOOTER_MAGIC && b[4..8] == Cell(f.major) && b[8..12] == Cell(f.minor);
    assert b[12..20] == Cell64(f.originalSize) && b[20..28] == Cell64(f.vbmetaOffset) && b[28..36] == Cell64(f.vbmetaSize);
  }

  /** The bytes of a footer by position: magic, version, and the three sizes and offsets, the highest digit first. */
  predicate FooterFields(b: seq<Byte>, f: Footer) {
    && |b| == 64 && b[0] == 'A' as int && b[1] == 'V' as int && b[2] == 'B' as int && b[3] == 'f' as int
    && DigitsAt(b, 4, 4, f.major) && DigitsAt(b, 8, 4, f.minor)
    && DigitsAt(b, 12, 8, f.originalSize) && DigitsAt(b, 20, 8, f.vbmetaOffset) && DigitsAt(b, 28, 8, f.vbmetaSize)
  }

  predicate InRange(f: Footer) {
    && f.major < BigEndian.WORD && f.minor < BigEndian.WORD
    && f.originalSize < BigEndian.WORD * BigEndian.WORD && f.vbmetaOffset < BigEndian.WORD * BigEndian.WORD
    && f.vbmetaSize < BigEndian.WORD * BigEndian.WORD
  }

  lemma PartStays(a: seq<Byte>, b: seq<Byte>, pos: nat, n: nat, v: nat)
    requires |a| == n && pos + n <= |b| && b[pos..pos + n] == a
    ensures DigitsAt(a, 0, n, v) <==> DigitsAt(b, pos, n, v)
  {
    hide Digit;
    if DigitsAt(a, 0, n, v) {
      forall i | pos <= i < pos + n
        ensures b[i] == Digit(v, pos + n - 1 - i)
      {
        assert b[i] == a[i - pos];
      }
    }
    if DigitsAt(b, pos, n, v) {
      forall i | 0 <= i < n
        ensures a[i] == Digit(v, n - 1 - i)
      {
        assert a[i] == b[pos + i];
      }
    }
  }

  /** An encoded footer has these fields, and zeros behind them. */
  lemma EncodedFields(f: Footer)
    ensures FooterFields(Encode(f), f) && forall i :: 36 <= i < 64 ==> Encode(f)[i] == 0
  {
    hide Cell, Cell64, DigitsAt;
    var b := Encode(f);
    assert b[0..4] == FOOTER_MAGIC && b[4..8] == Cell(f.major) && b[8..12] == Cell(f.minor);
    assert b[12..20] == Cell64(f.originalSize) && b[20..28] == Cell64(f.vbmetaOffset) && b[28..36] == Cell64(f.vbmetaSize);
    MagicBytes(b);
    CellDigits(f.major);
    CellDigits(f.minor);
    Cell64Digits(f.originalSize);
    Cell64Digits(f.vbmetaOffset);
    Cell64Digits(f.vbmetaSize);
    PartStays(Cell(f.major), b, 4, 4, f.major);
    PartStays(Cell(f.minor), b, 8, 4, f.minor);
    PartStays(Cell64(f.originalSize), b, 12, 8, f.originalSize);
    PartStays(Cell64(f.vbmetaOffset), b, 20, 8, f.vbmetaOffset);
    PartStays(Cell64(f.vbmetaSize), b, 28, 8, f.vbmetaSize);
  }

  lemma MagicBytes(b: seq<Byte>)
    requires |b| >= 4
    ensures b[..4] == FOOTER_MAGIC <==> b[0] == 'A' as int && b[1] == 'V' as int && b[2] == 'B' as int && b[3] == 'f' as int
  {
    assert b[..4] == [b[0], b[1], b[2], b[3]];
  }

  /** Sixty-four bytes are a footer exactly when they have its fields. */
  lemma DecodedFields(b: seq<Byte>, f: Footer)
    requires |b| == 64 && InRange(f)
    ensures Decode(b) == Some(f) <==> FooterFields(b, f)
  {
    hide CellValue, Cell64Value, DigitsAt;
    MagicBytes(b);
    CellValueIs(b[4..8], f.major);
    CellValueIs(b[8..12], f.minor);
    Cell64ValueIs(b[12..20], f.originalSize);
    Cell64ValueIs(b[20..28], f.vbmetaOffset);
    Cell64ValueIs(b[28..36], f.vbmetaSize);
    PartStays(b[4..8], b, 4, 4, f.major);
    PartStays(b[8..12], b, 8, 4, f.minor);
    PartStays(b[12..20], b, 12, 8, f.originalSize);
    PartStays(b[20..28], b, 20, 8, f.vbmetaOffset);
    PartStays(b[28..36], b, 28, 8, f.vbmetaSize);
  }

  // ----- Placement, on flat images

  /** The footer at the end of an image. */
  function FooterOf(image: seq<Byte>): Option<Footer> {
    if |image| < FOOTER_SIZE then None else Decode(image[|image| - FOOTER_SIZE..])
  }

  /** The image that a footer was added to. */
  function Stripped(image: seq<Byte>): seq<Byte> {
    var f := FooterOf(image);
    if f.Some? then Resized(image, f.value.originalSize) else image
  }

  function RoundUp(n: nat, bs: nat): (r: nat)
    requires bs >= 1
    ensures n <= r < n + bs && Whole(r, bs)
  {
    HashTree.RoundToMultiple(n, bs)
  }

  /** There is room for whole blocks of image and vbmeta and for a block with the footer. */
  predicate Room(size: nat, vbmetaSize: nat, partition: nat, bs: nat)
    requires bs >= 1
  {
    Whole(partition, bs) && bs >= FOOTER_SIZE && RoundUp(size, bs) + RoundUp(vbmetaSize, bs) + bs <= partition
  }

  /** Image, vbmeta, hole and footer block. */
  function Placed(image: seq<Byte>, vbmeta: seq<Byte>, partition: nat, bs: nat): seq<Byte>
    requires bs >= 1 && Room(|image|, |vbmeta|, partition, bs)
  {
    var offset := RoundUp(|image|, bs);
    var end := offset + RoundUp(|vbmeta|, bs);
    Resized(image, offset) + Resized(vbmeta, end - offset) + Zeros(partition - end - bs)
    + (Zeros(bs - FOOTER_SIZE) + Encode(Footer(1, 0, |image|, offset, |vbmeta|)))
  }

  /**
   The result has exactly the size of the partition; its footer is found, gives
   back the original image, and points at the vbmeta bytes.
   */
  lemma PlacementWorks(image: seq<Byte>, vbmeta: seq<Byte>, partition: nat, bs: nat)
    requires bs >= 1 && Room(|image|, |vbmeta|, partition, bs) && partition < BigEndian.WORD * BigEndian.WORD
    ensures var placed, offset := Placed(image, vbmeta, partition, bs), RoundUp(|image|, bs);
            && |placed| == partition
            && FooterOf(placed) == Some(Footer(1, 0, |image|, offset, |vbmeta|))
            && offset + |vbmeta| <= |placed| && placed[offset..offset + |vbmeta|] == vbmeta
            && Stripped(placed) == image
  {
    hide Encode, Decode, RoundUp, Zeros, Resized, Placed, FooterOf;
    var offset := RoundUp(|image|, bs);
    var end := offset + RoundUp(|vbmeta|, bs);
    var f := Footer(1, 0, |image|, offset, |vbmeta|);
    FooterRoundTrip(f);
    Enlarged(image, offset);
    Enlarged(vbmeta, end - offset);
    PlacedParts(image, vbmeta, partition, bs);
    FivePieces(Resized(image, offset), Resized(vbmeta, end - offset), Zeros(partition - end - bs), Zeros(bs - FOOTER_SIZE), Encode(f));
    var placed := Placed(image, vbmeta, partition, bs);
    assert placed[offset..offset + |vbmeta|] == placed[offset..end][..|vbmeta|];
    FooterFound(placed);
    CutBack(placed, offset, image);
  }

  /** The footer for an image of a size, with the vbmeta blob behind its last whole block. */
  function FooterFor(size: nat, vbmetaSize: nat, bs: nat): Footer
    requires bs >= 1
  {
    Footer(1, 0, size, RoundUp(size, bs), vbmetaSize)
  }

  /** The result by its bytes: the image, the vbmeta blob where the footer says, and the footer at the end. */
  predicate PlacedBytes(image: seq<Byte>, vbmeta: seq<Byte>, partition: nat, bs: nat, r: seq<Byte>)
    requires bs >= 1
  {
    var f := FooterFor(|image|, |vbmeta|, bs);
    && |r| == partition && image <= r
    && f.vbmetaOffset + |vbmeta| + FOOTER_SIZE <= |r| && r[f.vbmetaOffset..f.vbmetaOffset + |vbmeta|] == vbmeta
    && FooterFields(r[|r| - 64..], f)
    && forall i :: |image| <= i < |r| - 64 && !(f.vbmetaOffset <= i < f.vbmetaOffset + |vbmeta|) ==> r[i] == 0
  }

  lemma PlacedIsLaid(image: seq<Byte>, vbmeta: seq<Byte>, partition: nat, bs: nat)
    requires bs >= 1 && Room(|image|, |vbmeta|, partition, bs)
    ensures PlacedBytes(image, vbmeta, partition, bs, Placed(image, vbmeta, partition, bs))
  {
    hide Encode, RoundUp, Resized, FooterFields, Zeros;
    var offset := RoundUp(|image|, bs);
    var end := offset + RoundUp(|vbmeta|, bs);
    var f := Footer(1, 0, |image|, offset, |vbmeta|);
    EncodedFields(f);
    Filled(image, offset);
    Filled(vbmeta, end - offset);
    SixPieces(image, Zeros(offset - |image|), vbmeta, Zeros(end - offset - |vbmeta|), Zeros(partition - end - bs), Zeros(bs - FOOTER_SIZE), Encode(f));
  }

  lemma Filled(s: seq<Byte>, size: nat)
    requires |s| <= size
    ensures Resized(s, size) == s + Zeros(size - |s|)
  {
    if size == |s| {
      assert s[..size] == s + Zeros(0);
    }
  }

  lemma SixPieces(a: seq<Byte>, z1: seq<Byte>, b: seq<Byte>, z2: seq<Byte>, z3: seq<Byte>, z4: seq<Byte>, e: seq<Byte>)
    requires forall i :: 0 <= i < |z1| ==> z1[i] == 0
    requires forall i :: 0 <= i < |z2| ==> z2[i] == 0
    requires forall i :: 0 <= i < |z3| ==> z3[i] == 0
    requires forall i :: 0 <= i < |z4| ==> z4[i] == 0
    ensures var r := (a + z1) + (b + z2) + z3 + (z4 + e);
            var start := |a| + |z1|;
            && |r| == start + |b| + |z2| + |z3| + |z4| + |e|
            && a <= r && r[start..start + |b|] == b && r[|r| - |e|..] == e
            && forall i :: |a| <= i < |r| - |e| && !(start <= i < start + |b|) ==> r[i] == 0
  {
  }

  lemma Enlarged(s: seq<Byte>, size: nat)
    requires |s| <= size
    ensures |Resized(s, size)| == size && Resized(s, size)[..|s|] == s
  {
  }

  lemma PlacedParts(image: seq<Byte>, vbmeta: seq<Byte>, partition: nat, bs: nat)
    requires bs >= 1 && Room(|image|, |vbmeta|, partition, bs)
    ensures var offset := RoundUp(|image|, bs);
            var end := offset + RoundUp(|vbmeta|, bs);
            Placed(image, vbmeta, partition, bs)
            == Resized(image, offset) + Resized(vbmeta, end - offset) + Zeros(partition - end - bs)
               + (Zeros(bs - FOOTER_SIZE) + Encode(Footer(1, 0, |image|, offset, |vbmeta|)))
  {
  }

  lemma FivePieces(a: seq<Byte>, b: seq<Byte>, c: seq<Byte>, d: seq<Byte>, e: seq<Byte>)
    ensures var s := a + b + c + (d + e);
            && |s| == |a| + |b| + |c| + |d| + |e|
            && s[..|a|] == a && s[|a|..|a| + |b|] == b && s[|s| - |e|..] == e
  {
  }

  lemma FooterFound(image: seq<Byte>)
    ensures |image| >= FOOTER_SIZE ==> FooterOf(image) == Decode(image[|image| - FOOTER_SIZE..])
  {
  }

  lemma CutBack(placed: seq<Byte>, offset: nat, image: seq<Byte>)
    requires |image| <= offset <= |placed| && placed[..offset][..|image|] == image
    ensures Resized(placed, |image|) == image
  {
  }

  /** Placing again, on the image that already has a footer, changes nothing. */
  lemma PlacementIdempotent(image: seq<Byte>, vbmeta: seq<Byte>, partition: nat, bs: nat)
    requires bs >= 1 && Room(|Stripped(image)|, |vbmeta|, partition, bs) && partition < BigEndian.WORD * BigEndian.WORD
    ensures var once := Placed(Stripped(image), vbmeta, partition, bs);
            && Room(|Stripped(once)|, |vbmeta|, partition, bs)
            && Placed(Stripped(once), vbmeta, partition, bs) == once
    ensures FooterOf(image) == None ==> Stripped(Placed(Stripped(image), vbmeta, partition, bs)) == image
  {
    hide Placed, RoundUp;
    PlacementWorks(Stripped(image), vbmeta, partition, bs);
  }

  // ----- The commands

  lemma TailFields(image: seq<Byte>)
    requires |image| >= FOOTER_SIZE
    ensures forall g :: InRange(g) ==> (FooterOf(image) == Some(g) <==> FooterFields(image[|image| - 64..], g))
  {
    hide Decode, FooterFields;
    forall g | InRange(g)
      ensures FooterOf(image) == Some(g) <==> FooterFields(image[|image| - 64..], g)
    {
      DecodedFields(image[|image| - 64..], g);
    }
  }

  /** Looks for a footer in the last bytes of an image. */
  method ReadFooter(image: Handler) returns (f: Option<Footer>)
    requires image.Valid() && |image.Image()| >= FOOTER_SIZE
    modifies image`filePos
    ensures image.Valid() && image.Image() == old(image.Image()) && f == FooterOf(image.Image())
    ensures forall g :: InRange(g) ==> (f == Some(g) <==> FooterFields(image.Image()[|image.Image()| - 64..], g))
  {
    hide Handler.Valid, Handler.Image, Decode, FooterFields;
    TailFields(image.Image());
    if image.isSparse {
      image.ImageSizeIs();
      image.HasChunks();
    }
    SizeIs(image);
    ghost var bytes := image.Image();
    var ok := image.Seek(image.imageSize - FOOTER_SIZE);
    var data := image.Read(FOOTER_SIZE);
    assert bytes[|bytes| - FOOTER_SIZE..] == bytes[|bytes| - FOOTER_SIZE..|bytes|];
    f := Decode(data);
  }

  /**
   Takes an existing footer and everything it covers away. A flat image may be
   cut below the size of a header; that it then cannot be read again is ignored.
   */
  method StripFooter(image: Handler) returns (ok: bool)
    requires image.Valid() && !image.readOnly
    requires image.isSparse ==>
               |Stripped(image.Image())| < SparseFormat.WORD * image.blockSize && image.numTotalChunks + 1 < SparseFormat.WORD
    modifies image
    ensures ok <==> !old(image.isSparse) || Whole(|Stripped(old(image.Image()))|, old(image.blockSize))
    ensures ok ==> image.Valid() && image.isSparse == old(image.isSparse) && image.blockSize == old(image.blockSize)
    ensures ok ==> image.Image() == Stripped(old(image.Image()))
    ensures ok && image.isSparse ==> image.numTotalChunks <= old(image.numTotalChunks) + 1
  {
    hide Handler.Valid, Handler.Image, Decode;
    ghost var before := image.Image();
    SizeIs(image);
    if image.imageSize >= FOOTER_SIZE {
      var f := ReadFooter(image);
      if f.Some? {
        ok := image.Truncate(f.value.originalSize);
        ok := ok || !image.isSparse;
        return;
      }
    }
    ok := true;
    WholeImage(image);
  }

  lemma SizeIs(image: Handler)
    requires image.Valid()
    ensures image.imageSize == |image.Image()|
  {
    if image.isSparse {
      image.ImageSizeIs();
    }
  }

  /** A sparse image is a whole number of blocks. */
  lemma WholeImage(image: Handler)
    requires image.Valid()
    ensures image.isSparse ==> Whole(|image.Image()|, image.blockSize)
  {
    if image.isSparse {
      hide EncodeImage, EncodeParts, Chunks, Expand, TotalBlocks, Content, ValidPart, Bytes;
      ExpandLength(image.parts, image.blockSize);
      BlocksOf(TotalBlocks(image.parts), image.blockSize);
    }
  }

  /** The block that ends with the footer. */
  function FooterBlock(f: Footer, bs: nat): (b: seq<Byte>)
    requires bs >= FOOTER_SIZE
    ensures |b| == bs
  {
    Zeros(bs - FOOTER_SIZE) + Encode(f)
  }

  const VBMETA_MAGIC: seq<Byte> := [65, 86, 66, 48]

  /** What the loader of vbmeta blobs returns: nothing, or a blob with its magic number. */
  predicate Loaded(vbmeta: seq<Byte>) {
    vbmeta == [] || VBMETA_MAGIC <= vbmeta
  }

  /** What the 32-bit fields of a sparse image and the 64-bit ones of a footer must hold. */
  ghost predicate Representable(image: Handler, vbmetaSize: nat, partition: nat)
    requires image.Valid()
    reads image
  {
    && partition < BigEndian.WORD * BigEndian.WORD
    && (image.isSparse ==>
          && partition < SparseFormat.WORD * image.blockSize && image.numTotalChunks + 4 < SparseFormat.WORD
          && |Stripped(image.Image())| < SparseFormat.WORD * image.blockSize
          && vbmetaSize + image.blockSize + CHUNK_HEADER_SIZE < SparseFormat.WORD)
  }

  lemma VbmetaIsFlat(vbmeta: seq<Byte>, size: nat)
    requires Loaded(vbmeta) && |vbmeta| <= size
    ensures NoMagic(Resized(vbmeta, size))
  {
    if vbmeta != [] {
      var b := Resized(vbmeta, size);
      assert b[0..4] == VBMETA_MAGIC;
    } else {
      ZerosNoMagic([], size);
      assert Resized([], size) == [] + Zeros(size);
    }
  }

  /**
   Appends the vbmeta blob, a hole and the footer block to a stripped image. It
   fails only for an empty blob on an empty flat image, which cannot be read.
   */
  method AppendParts(image: Handler, vbmeta: seq<Byte>, partition: nat) returns (ok: bool)
    requires image.Valid() && !image.readOnly && partition < BigEndian.WORD * BigEndian.WORD && Loaded(vbmeta)
    requires Room(|image.Image()|, |vbmeta|, partition, image.blockSize)
    requires image.isSparse ==> partition < SparseFormat.WORD * image.blockSize && image.numTotalChunks + 3 < SparseFormat.WORD
    requires image.isSparse ==> |vbmeta| + image.blockSize + CHUNK_HEADER_SIZE < SparseFormat.WORD
    modifies image
    ensures ok <==> old(image.isSparse) || old(image.Image()) != [] || vbmeta != []
    ensures ok ==> image.Valid() && image.blockSize == old(image.blockSize)
    ensures ok ==> image.Image() == Placed(old(image.Image()), vbmeta, partition, old(image.blockSize))
  {
    hide Handler.Valid, Handler.Image, Encode, Zeros, NoMagic, Resized, RoundUp, Whole;
    var bs := image.blockSize;
    SizeIs(image);
    ghost var o := image.Image();
    var originalSize := image.imageSize;
    var vbmetaOffset := GrowToBlocks(image);
    Enlarged(o, vbmetaOffset);
    Enlarged(vbmeta, RoundUp(|vbmeta|, bs));
    var padded := Resized(vbmeta, RoundUp(|vbmeta|, bs));
    var end := vbmetaOffset + |padded|;
    HoleIsWhole(vbmetaOffset, |padded|, partition, bs);
    SizeIs(image);
    RoundUpSize(originalSize, bs);
    RoundUpSize(|vbmeta|, bs);
    VbmetaIsFlat(vbmeta, |padded|);
    AppendedToNothing(image, padded);
    ok := image.AppendRaw(padded, true);
    if !ok {
      return;
    }
    SizeIs(image);
    ok := image.AppendDontCare(partition - end - bs);
    SizeIs(image);
    ok := image.AppendRaw(FooterBlock(Footer(1, 0, originalSize, vbmetaOffset, |vbmeta|), bs), true);
  }

  /** Grows a flat image to whole blocks; a sparse one has whole blocks. */
  method GrowToBlocks(image: Handler) returns (size: nat)
    requires image.Valid() && !image.readOnly && image.blockSize >= FOOTER_SIZE
    modifies image
    ensures image.Valid() && image.isSparse == old(image.isSparse) && image.blockSize == old(image.blockSize)
    ensures size == RoundUp(|old(image.Image())|, image.blockSize) && image.Image() == Resized(old(image.Image()), size)
    ensures image.isSparse ==> image.numTotalChunks == old(image.numTotalChunks)
  {
    hide Handler.Valid, Handler.Image, Zeros;
    ghost var o := image.Image();
    var bs := image.blockSize;
    SizeIs(image);
    WholeImage(image);
    size := RoundUp(image.imageSize, bs);
    RoundUpWhole(image.imageSize, bs);
    FullSize(o);
    if !Whole(image.imageSize, bs) {
      var ok := image.Truncate(size);
    }
  }

  /** Data that does not look sparse may be appended to an empty flat image. */
  lemma AppendedToNothing(image: Handler, data: seq<Byte>)
    requires image.Valid() && NoMagic(data) && (image.Image() == [] || |image.Image()| >= 4)
    ensures image.StaysFlat(data) && (!image.isSparse ==> image.file == image.Image())
  {
    assert [] + data == data;
  }

  lemma RoundUpSize(n: nat, bs: nat)
    requires bs >= 1
    ensures if n == 0 then RoundUp(n, bs) == 0 else RoundUp(n, bs) >= bs
  {
    var r := RoundUp(n, bs);
    var q := r / bs;
    assert r == q * bs;
    if n > 0 && q <= 0 {
      Bits.MulMono(q, 0, bs);
    } else if n > 0 {
      Bits.MulMono(1, q, bs);
    }
  }

  lemma FullSize(o: seq<Byte>)
    ensures Resized(o, |o|) == o
  {
    assert o[..|o|] == o;
  }

  lemma RoundUpWhole(n: nat, bs: nat)
    requires bs >= 1
    ensures Whole(n, bs) ==> RoundUp(n, bs) == n
  {
  }

  lemma HoleIsWhole(offset: nat, size: nat, partition: nat, bs: nat)
    requires bs >= 1 && Whole(offset, bs) && Whole(size, bs) && Whole(partition, bs) && offset + size + bs <= partition
    ensures Whole(partition - (offset + size) - bs, bs) && Whole(bs, bs)
  {
    var a, b, c := offset / bs, size / bs, partition / bs;
    Bits.ModUnique(partition - (offset + size) - bs, bs, c - a - b - 1, 0);
    Bits.ModUnique(bs, bs, 1, 0);
  }

  /**
   Makes an image of exactly the size of the partition, with the vbmeta blob
   and a footer that locates it. An image that has a footer is stripped first.
   */
  method AppendVbmetaImage(image: Handler, vbmeta: seq<Byte>, partition: nat) returns (ok: bool)
    requires image.Valid() && !image.readOnly && Representable(image, |vbmeta|, partition) && Loaded(vbmeta)
    requires Whole(partition, image.blockSize) ==> Room(|Stripped(image.Image())|, |vbmeta|, partition, image.blockSize)
    modifies image
    ensures ok <==> old(Whole(partition, image.blockSize)
                        && if image.isSparse then Whole(|Stripped(image.Image())|, image.blockSize)
                           else Stripped(image.Image()) != [] || vbmeta != [])
    ensures ok ==> image.Valid() && image.blockSize == old(image.blockSize)
    ensures ok ==> image.Image() == Placed(Stripped(old(image.Image())), vbmeta, partition, old(image.blockSize))
    ensures ok ==> PlacedBytes(Stripped(old(image.Image())), vbmeta, partition, old(image.blockSize), image.Image())
  {
    hide Handler.Valid, Handler.Image, Stripped, Placed, Room, PlacedBytes;
    ghost var bare, bs := Stripped(image.Image()), image.blockSize;
    if !Whole(partition, image.blockSize) {
      return false;
    }
    ok := StripFooter(image);
    if ok {
      ok := AppendParts(image, vbmeta, partition);
      PlacedIsLaid(bare, vbmeta, partition, bs);
    }
  }

  // ----- Taking the footer away

  /** What erasing needs of the descriptors in a vbmeta blob. */
  datatype Descriptor = HashtreeDescriptor(treeOffset: nat, treeSize: nat, fecOffset: nat, fecSize: nat) | OtherDescriptor

  /** What parsing the vbmeta header that a footer points at, and its descriptors, gave; None when it raised. */
  type Parsed = Option<seq<Descriptor>>

  /** The end of the hash tree and of its error correction codes, of the first descriptor that has them, or 0. */
  function KeptSize(descs: seq<Descriptor>): nat {
    if descs == [] then 0
    else
      match descs[0]
      case OtherDescriptor => KeptSize(descs[1..])
      case HashtreeDescriptor(offset, size, fecOffset, fecSize) =>
        var end := offset + size;
        if fecOffset > 0 && fecOffset + fecSize > end then fecOffset + fecSize else end
  }

  /** The descriptor covers up to this size, and to no less: the end of the tree, or of its codes if it has any. */
  predicate EndsAt(d: Descriptor, size: nat)
    requires d.HashtreeDescriptor?
  {
    && size >= d.treeOffset + d.treeSize && (d.fecOffset > 0 ==> size >= d.fecOffset + d.fecSize)
    && (size == d.treeOffset + d.treeSize || (d.fecOffset > 0 && size == d.fecOffset + d.fecSize))
  }

  /** Where the first hash tree descriptor ends; 0 when there is none. */
  predicate CoversFirst(descs: seq<Descriptor>, size: nat) {
    && (forall i :: 0 <= i < |descs| && descs[i].HashtreeDescriptor? && (forall j :: 0 <= j < i ==> descs[j].OtherDescriptor?) ==>
          EndsAt(descs[i], size))
    && ((forall i :: 0 <= i < |descs| ==> descs[i].OtherDescriptor?) ==> size == 0)
  }

  lemma {:induction false} KeptCovers(descs: seq<Descriptor>)
    ensures CoversFirst(descs, KeptSize(descs))
  {
    if descs != [] && descs[0].OtherDescriptor? {
      var rest := descs[1..];
      KeptCovers(rest);
      forall i | 0 <= i < |descs| && descs[i].HashtreeDescriptor? && (forall j :: 0 <= j < i ==> descs[j].OtherDescriptor?)
        ensures EndsAt(descs[i], KeptSize(descs))
      {
        assert rest[i - 1] == descs[i] && forall j :: 0 <= j < i - 1 ==> rest[j] == descs[j + 1];
      }
      assert forall i :: 0 <= i < |rest| ==> rest[i] == descs[i + 1];
    }
  }

  method FindKeptSize(descs: seq<Descriptor>) returns (newSize: nat)
    ensures newSize == KeptSize(descs)
    ensures CoversFirst(descs, newSize)
  {
    KeptCovers(descs);
    hide CoversFirst;
    newSize := 0;
    assert descs[0..] == descs;
    for i := 0 to |descs|
      invariant newSize == 0 && KeptSize(descs) == KeptSize(descs[i..])
    {
      assert descs[i..][0] == descs[i] && descs[i..][1..] == descs[i + 1..];
      if descs[i].HashtreeDescriptor? {
        newSize := descs[i].treeOffset + descs[i].treeSize;
        if descs[i].fecOffset > 0 {
          var fecEnd := descs[i].fecOffset + descs[i].fecSize;
          newSize := if fecEnd > newSize then fecEnd else newSize;
        }
        return;
      }
    }
  }

  /** The size that erasing cuts an image to, unless there is nothing to erase or something does not parse. */
  function ErasedSize(image: seq<Byte>, keepHashtree: bool, parsed: Parsed): Option<nat> {
    var f := FooterOf(image);
    if f.None? || parsed.None? then None
    else if !keepHashtree then Some(f.value.originalSize)
    else if KeptSize(parsed.value) == 0 then None
    else Some(KeptSize(parsed.value))
  }

  /** Without keeping the hash tree, the image before the footer is what remains. */
  lemma ErasedIsStripped(image: seq<Byte>, parsed: Parsed)
    ensures var s := ErasedSize(image, false, parsed); s.Some? ==> Resized(image, s.value) == Stripped(image)
  {
    hide Resized, Decode;
  }

  /** Erasing what was placed gives the original image back, provided that the vbmeta blob parses. */
  lemma PlacedIsErased(image: seq<Byte>, vbmeta: seq<Byte>, partition: nat, bs: nat, parsed: Parsed)
    requires bs >= 1 && Room(|image|, |vbmeta|, partition, bs) && partition < BigEndian.WORD * BigEndian.WORD
    ensures var placed := Placed(image, vbmeta, partition, bs);
            && ErasedSize(placed, false, parsed) == (if parsed.Some? then Some(|image|) else None)
            && |image| <= |placed| && Resized(placed, |image|) == image
  {
    hide Placed, RoundUp, Resized, Room, Decode, FooterOf;
    PlacementWorks(image, vbmeta, partition, bs);
    RoomIsLarger(|image|, |vbmeta|, partition, bs);
    StrippedByFooter(Placed(image, vbmeta, partition, bs));
  }

  lemma RoomIsLarger(size: nat, vbmetaSize: nat, partition: nat, bs: nat)
    requires bs >= 1 && Room(size, vbmetaSize, partition, bs)
    ensures size <= partition
  {
  }

  lemma StrippedByFooter(image: seq<Byte>)
    ensures FooterOf(image).Some? ==> Stripped(image) == Resized(image, FooterOf(image).value.originalSize)
  {
  }

  /**
   Removes the footer and what was added with it, keeping the hash tree or not.
   Nothing changes when there is no footer or what it points at does not parse.
   */
  method EraseFooter(image: Handler, keepHashtree: bool, parsed: Parsed) returns (ok: bool)
    requires image.Valid() && !image.readOnly
    requires var size := ErasedSize(image.Image(), keepHashtree, parsed);
             size.Some? && image.isSparse ==>
               size.value < SparseFormat.WORD * image.blockSize && image.numTotalChunks + 1 < SparseFormat.WORD
    modifies image
    ensures var size := ErasedSize(old(image.Image()), keepHashtree, parsed);
            var fits := size.Some? && (old(image.isSparse) ==> Whole(size.value, old(image.blockSize)));
            && (ok <==> fits && (old(image.isSparse) || size.value >= HEADER_SIZE))
            && image.Valid() && image.isSparse == old(image.isSparse)
            && image.Image() == if fits then Resized(old(image.Image()), size.value) else old(image.Image())
  {
    hide Handler.Valid, Handler.Image, Decode, Resized, FooterOf;
    SizeIs(image);
    if image.imageSize < FOOTER_SIZE {
      // Seeking in front of the image fails.
      NoFooter(image.Image());
      return false;
    }
    var f := ReadFooter(image);
    if f.None? || parsed.None? {
      return false;
    }
    var newSize := f.value.originalSize;
    if keepHashtree {
      newSize := FindKeptSize(parsed.value);
      if newSize == 0 {
        return false;
      }
    }
    SizeIs(image);
    ok := image.Truncate(newSize);
  }

  lemma NoFooter(image: seq<Byte>)
    ensures |image| < FOOTER_SIZE ==> FooterOf(image) == None
  {
  }
}
