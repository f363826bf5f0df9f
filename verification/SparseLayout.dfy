/** The bytes of a sparse image by position and value. */
module SparseLayout {
  import opened CText
  import opened SparseFormat
  import opened SparseImage
  import BigEndian

  /** The n bytes from a position on are the lowest n digits of a number to the base 256, the lowest first. */
  predicate LittleAt(b: seq<Byte>, pos: nat, n: nat, v: nat) {
    pos + n <= |b| && forall i :: pos <= i < pos + n ==> b[i] == BigEndian.Digit(v, i - pos)
  }

  /** Magic number, version 1.0, sizes of both headers, block size, blocks, chunks and checksum. */
  predicate HeaderLaid(b: seq<Byte>, bs: nat, blocks: nat, chunks: nat, checksum: nat) {
    && |b| >= 28 && b[..12] == [0x3a, 0xff, 0x26, 0xed, 1, 0, 0, 0, 28, 0, 12, 0]
    && LittleAt(b, 12, 4, bs) && LittleAt(b, 16, 4, blocks) && LittleAt(b, 20, 4, chunks) && LittleAt(b, 24, 4, checksum)
  }

  /** Kind, a reserved field, blocks of output and total bytes, then the data. */
  predicate PartLaid(b: seq<Byte>, pos: nat, p: Part) {
    && LittleAt(b, pos, 2, match p.kind case Raw => 0xcac1 case Fill => 0xcac2 case DontCare => 0xcac3)
    && LittleAt(b, pos + 2, 2, p.reserved) && LittleAt(b, pos + 4, 4, p.blocks) && LittleAt(b, pos + 8, 4, 12 + |p.payload|)
    && pos + 12 + |p.payload| <= |b| && b[pos + 12..pos + 12 + |p.payload|] == p.payload
  }

  /** Parts one after the other, from a position up to another. */
  predicate PartsLaid(b: seq<Byte>, pos: nat, parts: seq<Part>, end: nat)
    decreases parts
  {
    if parts == [] then pos == end
    else PartLaid(b, pos, parts[0]) && PartsLaid(b, pos + 12 + |parts[0].payload|, parts[1..], end)
  }

  lemma Le16Digits(v: nat)
    ensures LittleAt(Le16(v), 0, 2, v)
  {
    BigEndian.SmallPowers();
  }

  lemma Le32Digits(v: nat)
    ensures LittleAt(Le32(v), 0, 4, v)
  {
    BigEndian.SmallPowers();
  }

  lemma LittleStays(a: seq<Byte>, b: seq<Byte>, pos: nat, n: nat, v: nat)
    requires |a| == n && pos + n <= |b| && b[pos..pos + n] == a && LittleAt(a, 0, n, v)
    ensures LittleAt(b, pos, n, v)
  {
    forall i | pos <= i < pos + n
      ensures b[i] == BigEndian.Digit(v, i - pos)
    {
      assert b[i] == a[i - pos];
    }
  }

  lemma EncodedHeader(bs: nat, blocks: nat, chunks: nat, checksum: nat)
    ensures HeaderLaid(EncodeHeader(bs, blocks, chunks, checksum), bs, blocks, chunks, checksum)
  {
    var b := EncodeHeader(bs, blocks, chunks, checksum);
    FirstFields(b, bs, blocks, chunks, checksum);
    hide LittleAt, Le16, Le32;
    assert b[12..16] == Le32(bs) && b[16..20] == Le32(blocks) && b[20..24] == Le32(chunks) && b[24..28] == Le32(checksum);
    Le32Digits(bs);
    Le32Digits(blocks);
    Le32Digits(chunks);
    Le32Digits(checksum);
    LittleStays(Le32(bs), b, 12, 4, bs);
    LittleStays(Le32(blocks), b, 16, 4, blocks);
    LittleStays(Le32(chunks), b, 20, 4, chunks);
    LittleStays(Le32(checksum), b, 24, 4, checksum);
  }

  lemma FirstFields(b: seq<Byte>, bs: nat, blocks: nat, chunks: nat, checksum: nat)
    requires b == EncodeHeader(bs, blocks, chunks, checksum)
    ensures b[..12] == [0x3a, 0xff, 0x26, 0xed, 1, 0, 0, 0, 28, 0, 12, 0]
  {
    assert Le32(MAGIC) == [0x3a, 0xff, 0x26, 0xed];
    assert Le16(1) == [1, 0] && Le16(0) == [0, 0] && Le16(HEADER_SIZE) == [28, 0] && Le16(CHUNK_HEADER_SIZE) == [12, 0];
    hide Le16, Le32;
  }

  lemma EncodedPart(p: Part, b: seq<Byte>, pos: nat)
    requires pos + 12 + |p.payload| <= |b| && b[pos..pos + 12 + |p.payload|] == EncodePart(p)
    ensures PartLaid(b, pos, p)
  {
    hide LittleAt, Le16, Le32;
    var e := EncodePart(p);
    assert e[0..2] == Le16(Tag(p.kind)) && e[2..4] == Le16(p.reserved);
    assert e[4..8] == Le32(p.blocks) && e[8..12] == Le32(12 + |p.payload|) && e[12..] == p.payload;
    FieldInPart(e, b, pos);
    Le16Digits(Tag(p.kind));
    Le16Digits(p.reserved);
    Le32Digits(p.blocks);
    Le32Digits(12 + |p.payload|);
    LittleStays(Le16(Tag(p.kind)), b, pos, 2, Tag(p.kind));
    LittleStays(Le16(p.reserved), b, pos + 2, 2, p.reserved);
    LittleStays(Le32(p.blocks), b, pos + 4, 4, p.blocks);
    LittleStays(Le32(12 + |p.payload|), b, pos + 8, 4, 12 + |p.payload|);
  }

  lemma FieldInPart(e: seq<Byte>, b: seq<Byte>, pos: nat)
    requires |e| >= 12 && pos + |e| <= |b| && b[pos..pos + |e|] == e
    ensures b[pos..pos + 2] == e[0..2] && b[pos + 2..pos + 4] == e[2..4]
    ensures b[pos + 4..pos + 8] == e[4..8] && b[pos + 8..pos + 12] == e[8..12] && b[pos + 12..pos + |e|] == e[12..]
  {
    SubSlice(b, pos, |e|, 0, 2);
    SubSlice(b, pos, |e|, 2, 4);
    SubSlice(b, pos, |e|, 4, 8);
    SubSlice(b, pos, |e|, 8, 12);
    SubSlice(b, pos, |e|, 12, |e|);
    assert e[12..|e|] == e[12..];
  }

  lemma SubSlice(b: seq<Byte>, pos: nat, n: nat, i: nat, j: nat)
    requires pos + n <= |b| && i <= j <= n
    ensures b[pos..pos + n][i..j] == b[pos + i..pos + j]
  {
    var x, y := b[pos..pos + n][i..j], b[pos + i..pos + j];
    assert |x| == |y| && forall k :: 0 <= k < |x| ==> x[k] == b[pos + i + k] == y[k];
  }

  lemma {:induction false} EncodedParts(parts: seq<Part>, b: seq<Byte>, pos: nat)
    requires pos + |EncodeParts(parts)| <= |b| && b[pos..pos + |EncodeParts(parts)|] == EncodeParts(parts)
    ensures PartsLaid(b, pos, parts, pos + |EncodeParts(parts)|)
    decreases parts
  {
    hide EncodePart, PartLaid;
    if parts != [] {
      var e, more := EncodePart(parts[0]), EncodeParts(parts[1..]);
      assert EncodeParts(parts) == e + more;
      assert b[pos..pos + |e|] == EncodeParts(parts)[..|e|] == e;
      assert b[pos + |e|..pos + |e| + |more|] == EncodeParts(parts)[|e|..] == more;
      EncodedPart(parts[0], b, pos);
      EncodedParts(parts[1..], b, pos + |e|);
    }
  }

  /** A sparse file by its bytes: the header with the counts of the parts, then the parts, then the end. */
  predicate ImageLaid(b: seq<Byte>, bs: nat, checksum: nat, parts: seq<Part>) {
    HeaderLaid(b, bs, TotalBlocks(parts), |parts|, checksum) && PartsLaid(b, 28, parts, |b|)
  }

  lemma EncodedImage(bs: nat, checksum: nat, parts: seq<Part>)
    ensures ImageLaid(EncodeImage(bs, checksum, parts), bs, checksum, parts)
  {
    hide EncodeHeader, EncodeParts, PartsLaid, TotalBlocks, LittleAt;
    var b := EncodeImage(bs, checksum, parts);
    var h := EncodeHeader(bs, TotalBlocks(parts), |parts|, checksum);
    EncodedHeader(bs, TotalBlocks(parts), |parts|, checksum);
    assert h <= b && b[28..28 + |EncodeParts(parts)|] == EncodeParts(parts);
    HeaderInPrefix(h, b, bs, TotalBlocks(parts), |parts|, checksum);
    EncodedParts(parts, b, 28);
  }

  lemma HeaderInPrefix(h: seq<Byte>, b: seq<Byte>, bs: nat, blocks: nat, chunks: nat, checksum: nat)
    requires h <= b && HeaderLaid(h, bs, blocks, chunks, checksum)
    ensures HeaderLaid(b, bs, blocks, chunks, checksum)
  {
    assert b[..12] == h[..12];
  }

  // ----- What the parts stand for

  /** Byte i of the output of a part. */
  function OutputByte(p: Part, i: nat): Byte
    requires (p.kind == Raw ==> i < |p.payload|) && (p.kind == Fill ==> |p.payload| == 4)
  {
    match p.kind
    case Raw => p.payload[i]
    case Fill => p.payload[i % 4]
    case DontCare => 0
  }

  /** The image is the outputs of the parts one after the other. */
  predicate Outputs(image: seq<Byte>, pos: nat, parts: seq<Part>, bs: nat)
    decreases parts
  {
    if parts == [] then pos == |image|
    else
      var p, n := parts[0], Bytes(parts[0].blocks, bs);
      && pos + n <= |image|
      && (p.kind == Raw ==> |p.payload| == n) && (p.kind == Fill ==> |p.payload| == 4)
      && (forall i :: 0 <= i < n ==> image[pos + i] == OutputByte(p, i))
      && Outputs(image, pos + n, parts[1..], bs)
  }

  lemma {:induction false} ExpandedOutputs(parts: seq<Part>, bs: nat, image: seq<Byte>, pos: nat)
    requires ValidParts(parts, bs) && pos <= |image| && image[pos..] == Expand(parts, bs)
    ensures Outputs(image, pos, parts, bs)
    decreases parts
  {
    hide Bytes, Content, OutputByte;
    if parts != [] {
      var p, n := parts[0], Bytes(parts[0].blocks, bs);
      assert ValidPart(p, bs);
      FirstOutput(p, bs, image, pos, Expand(parts[1..], bs));
      ExpandedOutputs(parts[1..], bs, image, pos + n);
    }
  }

  lemma FirstOutput(p: Part, bs: nat, image: seq<Byte>, pos: nat, rest: seq<Byte>)
    requires ValidPart(p, bs) && pos <= |image| && image[pos..] == Content(p, bs) + rest
    ensures pos + Bytes(p.blocks, bs) <= |image| && image[pos + Bytes(p.blocks, bs)..] == rest
    ensures forall i :: 0 <= i < Bytes(p.blocks, bs) ==> image[pos + i] == OutputByte(p, i)
  {
    hide Bytes;
    var n, c := Bytes(p.blocks, bs), Content(p, bs);
    forall i | 0 <= i < n
      ensures image[pos + i] == OutputByte(p, i)
    {
      assert image[pos + i] == image[pos..][i] == c[i];
    }
    assert image[pos + n..] == image[pos..][n..] == rest;
  }
}
