/** Android sparse images: a header and parts that each stand for a run of blocks. */
module SparseFormat {
  import opened CText

  const WORD := 0x1_0000_0000
  const MAGIC := 0xed26_ff3a
  const HEADER_SIZE := 28
  const CHUNK_HEADER_SIZE := 12

  // ----- Little-endian fields

  function Le16(v: nat): (b: seq<Byte>)
    ensures |b| == 2
  {
    [v % 0x100, v / 0x100 % 0x100]
  }

  function Le32(v: nat): (b: seq<Byte>)
    ensures |b| == 4
  {
    [v % 0x100, v / 0x100 % 0x100, v / 0x1_0000 % 0x100, v / 0x100_0000 % 0x100]
  }

  function Value16(b: seq<Byte>): (v: nat)
    requires |b| == 2
    ensures v < 0x1_0000
  {
    (b[1] as nat) * 0x100 + b[0]
  }

  function Value32(b: seq<Byte>): (v: nat)
    requires |b| == 4
    ensures v < WORD
  {
    (b[3] as nat) * 0x100_0000 + (b[2] as nat) * 0x1_0000 + (b[1] as nat) * 0x100 + b[0]
  }

  lemma Le16RoundTrip(v: nat)
    requires v < 0x1_0000
    ensures Value16(Le16(v)) == v
  {
  }

  lemma Le32RoundTrip(v: nat)
    requires v < WORD
    ensures Value32(Le32(v)) == v
  {
    var v1 := v / 0x100;
    var v2 := v1 / 0x100;
    var v3 := v2 / 0x100;
    assert v / 0x1_0000 == v2 && v / 0x100_0000 == v3;
    FourDigits(v, v1, v2, v3, Le32(v));
  }

  lemma FourDigits(v: nat, v1: nat, v2: nat, v3: nat, b: seq<Byte>)
    requires |b| == 4 && v == 0x100 * v1 + b[0] && v1 == 0x100 * v2 + b[1] && v2 == 0x100 * v3 + b[2] && v3 == b[3]
    ensures Value32(b) == v
  {
  }

  lemma Value16Unique(b: seq<Byte>)
    requires |b| == 2
    ensures Le16(Value16(b)) == b
  {
  }

  lemma Value32Unique(b: seq<Byte>)
    requires |b| == 4
    ensures Le32(Value32(b)) == b
  {
    var v := Value32(b);
    var v1, v2 := v / 0x100, v / 0x1_0000;
    assert v1 == (b[3] as nat) * 0x1_0000 + (b[2] as nat) * 0x100 + b[1];
    assert v2 == (b[3] as nat) * 0x100 + b[2] && v1 / 0x100 == v2;
    assert v / 0x100_0000 == b[3] as nat;
  }

  // ----- Parts

  datatype Kind = Raw | Fill | DontCare

  function Tag(k: Kind): nat {
    match k
    case Raw => 0xcac1
    case Fill => 0xcac2
    case DontCare => 0xcac3
  }

  const CRC32 := 0xcac4

  /** A part as stored: its kind, its length in blocks and what it carries. */
  datatype Part = Part(kind: Kind, reserved: nat, blocks: nat, payload: seq<Byte>)

  function Bytes(blocks: nat, bs: nat): nat {
    blocks * bs
  }

  predicate ValidPart(p: Part, bs: nat) {
    && p.reserved < 0x1_0000 && p.blocks < WORD && |p.payload| + CHUNK_HEADER_SIZE < WORD
    && match p.kind
       case Raw => |p.payload| == Bytes(p.blocks, bs)
       case Fill => |p.payload| == 4
       case DontCare => p.payload == []
  }

  ghost predicate ValidParts(parts: seq<Part>, bs: nat) {
    forall i :: 0 <= i < |parts| ==> ValidPart(parts[i], bs)
  }

  function PartHead(k: Kind, reserved: nat, blocks: nat, size: nat): (b: seq<Byte>)
    ensures |b| == CHUNK_HEADER_SIZE
  {
    Le16(Tag(k)) + Le16(reserved) + Le32(blocks) + Le32(CHUNK_HEADER_SIZE + size)
  }

  function EncodePart(p: Part): (b: seq<Byte>)
    ensures |b| == CHUNK_HEADER_SIZE + |p.payload|
  {
    PartHead(p.kind, p.reserved, p.blocks, |p.payload|) + p.payload
  }

  function EncodeParts(parts: seq<Part>): seq<Byte> {
    if parts == [] then [] else EncodePart(parts[0]) + EncodeParts(parts[1..])
  }

  function TotalBlocks(parts: seq<Part>): nat {
    if parts == [] then 0 else parts[0].blocks + TotalBlocks(parts[1..])
  }

  /** The bytes that a part stands for. */
  function Content(p: Part, bs: nat): (c: seq<Byte>)
    requires ValidPart(p, bs)
    ensures |c| == Bytes(p.blocks, bs)
  {
    match p.kind
    case Raw => p.payload
    case Fill => seq(Bytes(p.blocks, bs), i requires 0 <= i => p.payload[i % 4])
    case DontCare => seq(Bytes(p.blocks, bs), _ => 0)
  }

  /** The flat image that a list of parts stands for. */
  function Expand(parts: seq<Part>, bs: nat): seq<Byte>
    requires forall i :: 0 <= i < |parts| ==> ValidPart(parts[i], bs)
  {
    if parts == [] then [] else Content(parts[0], bs) + Expand(parts[1..], bs)
  }

  function EncodeHeader(bs: nat, blocks: nat, chunks: nat, checksum: nat): (b: seq<Byte>)
    ensures |b| == HEADER_SIZE
  {
    Le32(MAGIC) + Le16(1) + Le16(0) + Le16(HEADER_SIZE) + Le16(CHUNK_HEADER_SIZE)
    + Le32(bs) + (Le32(blocks) + Le32(chunks)) + Le32(checksum)
  }

  function EncodeImage(bs: nat, checksum: nat, parts: seq<Part>): seq<Byte> {
    EncodeHeader(bs, TotalBlocks(parts), |parts|, checksum) + EncodeParts(parts)
  }

  // ----- Parsing

  /** What the handler remembers of a part. */
  datatype ImageChunk = ImageChunk(kind: Kind, chunkOffset: nat, outputOffset: nat, outputSize: nat, inputOffset: nat, fill: seq<Byte>)

  /** The chunks found, the position after the last one and their total length in blocks. */
  datatype Scan = Bad | Scan(chunks: seq<ImageChunk>, end: nat, blocks: nat)

  function AddChunk(c: ImageChunk, blocks: nat, rest: Scan): Scan {
    if rest.Bad? then Bad else Scan([c] + rest.chunks, rest.end, blocks + rest.blocks)
  }

  /** The position after reading up to `end`: no further than the end of the file. */
  function UpTo(file: seq<Byte>, end: nat): nat {
    if end <= |file| then end else |file|
  }

  /**
   Reads n chunks from `pos` on. Only the head of a chunk must be there: the data
   of a raw chunk is skipped, and of a fill pattern whatever the file still has is taken.
   */
  function ParseChunks(file: seq<Byte>, pos: nat, n: nat, bs: nat, out: nat): (r: Scan)
    ensures r.Scan? ==> |r.chunks| <= n && r.end >= pos
    decreases n
  {
    if n == 0 then Scan([], pos, 0)
    else if pos + CHUNK_HEADER_SIZE > |file| then Bad
    else
      var tag, blocks := Value16(file[pos..pos + 2]), Value32(file[pos + 4..pos + 8]);
      var dataSize := Value32(file[pos + 8..pos + 12]) - CHUNK_HEADER_SIZE;
      var start, size := pos + CHUNK_HEADER_SIZE, Bytes(blocks, bs);
      if tag == Tag(Raw) then
        if dataSize != size then Bad
        else AddChunk(ImageChunk(Raw, pos, out, size, start, []), blocks, ParseChunks(file, start + size, n - 1, bs, out + size))
      else if tag == Tag(Fill) then
        if dataSize != 4 then Bad
        else
          var next := UpTo(file, start + 4);
          AddChunk(ImageChunk(Fill, pos, out, size, 0, file[start..next]), blocks, ParseChunks(file, next, n - 1, bs, out + size))
      else if tag == Tag(DontCare) then
        if dataSize != 0 then Bad
        else AddChunk(ImageChunk(DontCare, pos, out, size, 0, []), blocks, ParseChunks(file, start, n - 1, bs, out + size))
      else if tag == CRC32 then
        if dataSize != 4 then Bad
        else
          var rest := ParseChunks(file, UpTo(file, start + 4), n - 1, bs, out + size);
          if rest.Bad? then Bad else Scan(rest.chunks, rest.end, blocks + rest.blocks)
      else Bad
  }

  /** All of the n chunks are in the file, none of them a checksum. */
  predicate Complete(s: Scan, n: nat, file: seq<Byte>) {
    && s.Scan? && |s.chunks| == n && s.end <= |file|
    && forall i :: 0 <= i < |s.chunks| && s.chunks[i].kind == Fill ==> |s.chunks[i].fill| == 4
  }

  /** What opening a file makes of it. */
  datatype Layout = Invalid | Flat | Sparse(bs: nat, blocks: nat, count: nat, scan: Scan)

  function Parse(file: seq<Byte>): Layout {
    if |file| < HEADER_SIZE then Invalid
    else if Value32(file[0..4]) != MAGIC then Flat
    else if Value16(file[4..6]) != 1 || Value16(file[6..8]) != 0 then Invalid
    else if Value16(file[8..10]) != HEADER_SIZE || Value16(file[10..12]) != CHUNK_HEADER_SIZE then Invalid
    else
      var bs, blocks, count := Value32(file[12..16]), Value32(file[16..20]), Value32(file[20..24]);
      var scan := ParseChunks(file, HEADER_SIZE, count, bs, 0);
      if scan.Bad? || blocks != scan.blocks || scan.end < |file| then Invalid
      else Sparse(bs, blocks, count, scan)
  }

  /** The file does not begin like a sparse one, as far as it goes. */
  predicate NoMagic(file: seq<Byte>) {
    |file| >= 4 ==> Value32(file[0..4]) != MAGIC
  }

  lemma FlatHasNoMagic(file: seq<Byte>)
    requires Parse(file) == Flat
    ensures NoMagic(file)
  {
    hide Value32, Value16, ParseChunks;
  }

  // ----- A file made of parts is parsed into them

  function Chunk(p: Part, bs: nat, pos: nat, out: nat): ImageChunk {
    ImageChunk(p.kind, pos, out, Bytes(p.blocks, bs), if p.kind == Raw then pos + CHUNK_HEADER_SIZE else 0,
               if p.kind == Fill then p.payload else [])
  }

  function Chunks(parts: seq<Part>, bs: nat, pos: nat, out: nat): (cs: seq<ImageChunk>)
    ensures |cs| == |parts|
  {
    if parts == [] then []
    else [Chunk(parts[0], bs, pos, out)]
         + Chunks(parts[1..], bs, pos + CHUNK_HEADER_SIZE + |parts[0].payload|, out + Bytes(parts[0].blocks, bs))
  }

  lemma HeadFields(k: Kind, reserved: nat, blocks: nat, size: nat, file: seq<Byte>, pos: nat)
    requires reserved < 0x1_0000 && blocks < WORD && size + CHUNK_HEADER_SIZE < WORD
    requires pos + CHUNK_HEADER_SIZE <= |file| && file[pos..pos + CHUNK_HEADER_SIZE] == PartHead(k, reserved, blocks, size)
    ensures Value16(file[pos..pos + 2]) == Tag(k)
    ensures Value32(file[pos + 4..pos + 8]) == blocks
    ensures Value32(file[pos + 8..pos + 12]) == size + CHUNK_HEADER_SIZE
  {
    hide Le16, Le32, Value16, Value32;
    var h := PartHead(k, reserved, blocks, size);
    Le16RoundTrip(Tag(k));
    Le32RoundTrip(blocks);
    Le32RoundTrip(size + CHUNK_HEADER_SIZE);
    assert file[pos..pos + 2] == h[..2] == Le16(Tag(k));
    assert file[pos + 4..pos + 8] == h[4..8] == Le32(blocks);
    assert file[pos + 8..pos + 12] == h[8..12] == Le32(CHUNK_HEADER_SIZE + size);
  }

  lemma {:induction false} ParseEncoded(file: seq<Byte>, pos: nat, parts: seq<Part>, bs: nat, out: nat)
    requires ValidParts(parts, bs)
    requires pos + |EncodeParts(parts)| <= |file| && file[pos..pos + |EncodeParts(parts)|] == EncodeParts(parts)
    ensures ParseChunks(file, pos, |parts|, bs, out)
            == Scan(Chunks(parts, bs, pos, out), pos + |EncodeParts(parts)|, TotalBlocks(parts))
    decreases parts
  {
    hide PartHead, Value16, Value32, Bytes, ParseChunks, EncodePart;
    if parts == [] {
      NoChunks(file, pos, bs, out);
    } else {
      var p, rest := parts[0], parts[1..];
      var next := pos + CHUNK_HEADER_SIZE + |p.payload|;
      assert ValidPart(p, bs);
      assert EncodeParts(parts) == EncodePart(p) + EncodeParts(rest);
      assert file[pos..next] == EncodeParts(parts)[..CHUNK_HEADER_SIZE + |p.payload|] == EncodePart(p);
      assert file[next..next + |EncodeParts(rest)|] == EncodeParts(parts)[CHUNK_HEADER_SIZE + |p.payload|..] == EncodeParts(rest);
      ParsePart(file, pos, p, |parts|, bs, out);
      ParseEncoded(file, next, rest, bs, out + Bytes(p.blocks, bs));
    }
  }

  lemma NoChunks(file: seq<Byte>, pos: nat, bs: nat, out: nat)
    ensures ParseChunks(file, pos, 0, bs, out) == Scan([], pos, 0)
  {
  }

  /** A part at a position is parsed into its chunk. */
  lemma ParsePart(file: seq<Byte>, pos: nat, p: Part, n: nat, bs: nat, out: nat)
    requires ValidPart(p, bs) && n > 0
    requires pos + CHUNK_HEADER_SIZE + |p.payload| <= |file|
    requires file[pos..pos + CHUNK_HEADER_SIZE + |p.payload|] == EncodePart(p)
    ensures ParseChunks(file, pos, n, bs, out)
            == AddChunk(Chunk(p, bs, pos, out), p.blocks,
                        ParseChunks(file, pos + CHUNK_HEADER_SIZE + |p.payload|, n - 1, bs, out + Bytes(p.blocks, bs)))
  {
    hide PartHead, Value16, Value32, Bytes, AddChunk;
    var start := pos + CHUNK_HEADER_SIZE;
    assert file[pos..start] == EncodePart(p)[..CHUNK_HEADER_SIZE] == PartHead(p.kind, p.reserved, p.blocks, |p.payload|);
    assert file[start..start + |p.payload|] == EncodePart(p)[CHUNK_HEADER_SIZE..] == p.payload;
    HeadFields(p.kind, p.reserved, p.blocks, |p.payload|, file, pos);
  }

  lemma HeaderFields(bs: nat, blocks: nat, chunks: nat, checksum: nat, file: seq<Byte>)
    requires bs < WORD && blocks < WORD && chunks < WORD && checksum < WORD
    requires EncodeHeader(bs, blocks, chunks, checksum) <= file
    ensures Value32(file[0..4]) == MAGIC && Value16(file[4..6]) == 1 && Value16(file[6..8]) == 0
    ensures Value16(file[8..10]) == HEADER_SIZE && Value16(file[10..12]) == CHUNK_HEADER_SIZE
    ensures Value32(file[12..16]) == bs && Value32(file[16..20]) == blocks && Value32(file[20..24]) == chunks
  {
    hide Le16, Le32, Value16, Value32;
    var h := EncodeHeader(bs, blocks, chunks, checksum);
    Le32RoundTrip(MAGIC);
    Le16RoundTrip(1);
    Le16RoundTrip(0);
    Le16RoundTrip(HEADER_SIZE);
    Le16RoundTrip(CHUNK_HEADER_SIZE);
    Le32RoundTrip(bs);
    Le32RoundTrip(blocks);
    Le32RoundTrip(chunks);
    assert file[0..4] == h[0..4] == Le32(MAGIC);
    assert file[4..6] == h[4..6] == Le16(1);
    assert file[6..8] == h[6..8] == Le16(0);
    assert file[8..10] == h[8..10] == Le16(HEADER_SIZE);
    assert file[10..12] == h[10..12] == Le16(CHUNK_HEADER_SIZE);
    assert file[12..16] == h[12..16] == Le32(bs);
    assert file[16..20] == h[16..20] == Le32(blocks);
    assert file[20..24] == h[20..24] == Le32(chunks);
  }

  /** Parts, block size and checksum that the fields of a header can hold. */
  ghost predicate ValidImage(bs: nat, checksum: nat, parts: seq<Part>) {
    ValidParts(parts, bs) && bs < WORD && checksum < WORD && TotalBlocks(parts) < WORD && |parts| < WORD
  }

  /** A file that is written from parts is accepted and parsed into them. */
  lemma ParseImage(bs: nat, checksum: nat, parts: seq<Part>)
    requires ValidImage(bs, checksum, parts)
    ensures var file := EncodeImage(bs, checksum, parts);
            Parse(file) == Sparse(bs, TotalBlocks(parts), |parts|, Scan(Chunks(parts, bs, HEADER_SIZE, 0), |file|, TotalBlocks(parts)))
  {
    hide Le16, Le32, Value16, Value32, EncodeHeader, EncodeParts, ParseChunks, Chunks, TotalBlocks;
    var file := EncodeImage(bs, checksum, parts);
    assert EncodeHeader(bs, TotalBlocks(parts), |parts|, checksum) <= file;
    HeaderFields(bs, TotalBlocks(parts), |parts|, checksum, file);
    assert file[HEADER_SIZE..HEADER_SIZE + |EncodeParts(parts)|] == EncodeParts(parts);
    ParseEncoded(file, HEADER_SIZE, parts, bs, 0);
  }

  /** No chunk can be read at the position. */
  ghost predicate BadAt(file: seq<Byte>, pos: nat, bs: nat) {
    forall out: nat :: ParseChunks(file, pos, 1, bs, out) == Bad
  }

  /** A file that ends with a raw part of no whole number of blocks is refused. */
  lemma RaggedImage(bs: nat, checksum: nat, parts: seq<Part>, data: seq<Byte>, blocks: nat)
    requires ValidImage(bs, checksum, parts) && Bytes(blocks, bs) != |data| && |data| + CHUNK_HEADER_SIZE < WORD
    requires TotalBlocks(parts) + blocks < WORD && |parts| + 1 < WORD
    ensures Parse(EncodeHeader(bs, TotalBlocks(parts) + blocks, |parts| + 1, checksum)
                  + (EncodeParts(parts) + (PartHead(Raw, 0, blocks, |data|) + data))) == Invalid
  {
    hide ValidImage, Bytes, EncodeParts, EncodeHeader, PartHead, Parse, TotalBlocks;
    var h := EncodeHeader(bs, TotalBlocks(parts) + blocks, |parts| + 1, checksum);
    var head := PartHead(Raw, 0, blocks, |data|);
    FourPieces(h, EncodeParts(parts), head, data);
    var file := h + (EncodeParts(parts) + (head + data));
    assert EndsRagged(file, parts, data, blocks);
    RaggedScan(file, bs, checksum, parts, data, blocks);
  }

  /** Behind the header and some parts stands the head of a raw part for this data. */
  predicate EndsRagged(file: seq<Byte>, parts: seq<Part>, data: seq<Byte>, blocks: nat) {
    var pos := HEADER_SIZE + |EncodeParts(parts)|;
    && pos + CHUNK_HEADER_SIZE <= |file| && file[HEADER_SIZE..pos] == EncodeParts(parts)
    && file[pos..pos + CHUNK_HEADER_SIZE] == PartHead(Raw, 0, blocks, |data|)
  }

  lemma RaggedScan(file: seq<Byte>, bs: nat, checksum: nat, parts: seq<Part>, data: seq<Byte>, blocks: nat)
    requires ValidImage(bs, checksum, parts) && Bytes(blocks, bs) != |data| && |data| + CHUNK_HEADER_SIZE < WORD
    requires TotalBlocks(parts) + blocks < WORD && |parts| + 1 < WORD
    requires EncodeHeader(bs, TotalBlocks(parts) + blocks, |parts| + 1, checksum) <= file
    requires EndsRagged(file, parts, data, blocks)
    ensures Parse(file) == Invalid
  {
    hide *;
    ImageFields(bs, checksum, parts);
    RaggedChunks(file, bs, parts, data, blocks);
    BadScan(bs, TotalBlocks(parts) + blocks, |parts| + 1, checksum, file);
  }

  lemma RaggedChunks(file: seq<Byte>, bs: nat, parts: seq<Part>, data: seq<Byte>, blocks: nat)
    requires ValidParts(parts, bs) && Bytes(blocks, bs) != |data| && |data| + CHUNK_HEADER_SIZE < WORD && blocks < WORD
    requires EndsRagged(file, parts, data, blocks)
    ensures ParseChunks(file, HEADER_SIZE, |parts| + 1, bs, 0) == Bad
  {
    hide ValidParts, Bytes, EncodeParts, PartHead, ParseChunks, BadAt;
    RaggedPart(file, HEADER_SIZE + |EncodeParts(parts)|, data, blocks, bs);
    BadTail(file, HEADER_SIZE, parts, bs, 0);
  }

  lemma ImageFields(bs: nat, checksum: nat, parts: seq<Part>)
    requires ValidImage(bs, checksum, parts)
    ensures ValidParts(parts, bs) && bs < WORD && checksum < WORD
  {
  }

  lemma FourPieces(h: seq<Byte>, a: seq<Byte>, head: seq<Byte>, data: seq<Byte>)
    ensures var file := h + (a + (head + data));
            && |file| >= |h| + |a| + |head| && h <= file
            && file[|h|..|h| + |a|] == a && file[|h| + |a|..|h| + |a| + |head|] == head
  {
  }

  lemma BadScan(bs: nat, blocks: nat, chunks: nat, checksum: nat, file: seq<Byte>)
    requires bs < WORD && blocks < WORD && chunks < WORD && checksum < WORD
    requires EncodeHeader(bs, blocks, chunks, checksum) <= file
    requires ParseChunks(file, HEADER_SIZE, chunks, bs, 0) == Bad
    ensures Parse(file) == Invalid
  {
    hide ParseChunks, Value32, Value16, EncodeHeader;
    HeaderFields(bs, blocks, chunks, checksum, file);
  }

  lemma RaggedPart(file: seq<Byte>, pos: nat, data: seq<Byte>, blocks: nat, bs: nat)
    requires Bytes(blocks, bs) != |data| && |data| + CHUNK_HEADER_SIZE < WORD && blocks < WORD
    requires pos + CHUNK_HEADER_SIZE <= |file|
    requires file[pos..pos + CHUNK_HEADER_SIZE] == PartHead(Raw, 0, blocks, |data|)
    ensures BadAt(file, pos, bs)
  {
    hide PartHead, Value16, Value32, Bytes;
    HeadFields(Raw, 0, blocks, |data|, file, pos);
  }

  /** A bad chunk behind some parts makes the whole file bad. */
  lemma {:induction false} BadTail(file: seq<Byte>, pos: nat, parts: seq<Part>, bs: nat, out: nat)
    requires ValidParts(parts, bs)
    requires pos + |EncodeParts(parts)| <= |file| && file[pos..pos + |EncodeParts(parts)|] == EncodeParts(parts)
    requires BadAt(file, pos + |EncodeParts(parts)|, bs)
    ensures ParseChunks(file, pos, |parts| + 1, bs, out) == Bad
    decreases parts
  {
    hide PartHead, Value16, Value32, Bytes, ParseChunks, EncodePart;
    if parts != [] {
      var p, rest := parts[0], parts[1..];
      var next := pos + CHUNK_HEADER_SIZE + |p.payload|;
      assert ValidPart(p, bs);
      assert EncodeParts(parts) == EncodePart(p) + EncodeParts(rest);
      assert file[pos..next] == EncodeParts(parts)[..CHUNK_HEADER_SIZE + |p.payload|] == EncodePart(p);
      assert file[next..next + |EncodeParts(rest)|] == EncodeParts(parts)[CHUNK_HEADER_SIZE + |p.payload|..] == EncodeParts(rest);
      ParsePart(file, pos, p, |parts| + 1, bs, out);
      BadTail(file, next, rest, bs, out + Bytes(p.blocks, bs));
    }
  }

  // ----- A file that is parsed is made of parts

  lemma HeadIsEncoded(file: seq<Byte>, pos: nat, k: Kind)
    requires pos + CHUNK_HEADER_SIZE <= |file| && Value16(file[pos..pos + 2]) == Tag(k)
    requires Value32(file[pos + 8..pos + 12]) >= CHUNK_HEADER_SIZE
    ensures file[pos..pos + CHUNK_HEADER_SIZE]
            == PartHead(k, Value16(file[pos + 2..pos + 4]), Value32(file[pos + 4..pos + 8]),
                        Value32(file[pos + 8..pos + 12]) - CHUNK_HEADER_SIZE)
  {
    hide Le16, Le32, Value16, Value32;
    Value16Unique(file[pos..pos + 2]);
    Value16Unique(file[pos + 2..pos + 4]);
    Value32Unique(file[pos + 4..pos + 8]);
    Value32Unique(file[pos + 8..pos + 12]);
    assert file[pos..pos + 12] == file[pos..pos + 2] + file[pos + 2..pos + 4] + file[pos + 4..pos + 8] + file[pos + 8..pos + 12];
  }

  /** The part at a position where a chunk without checksum was parsed. */
  lemma PartAt(file: seq<Byte>, pos: nat, n: nat, bs: nat, out: nat) returns (p: Part)
    requires n > 0 && Complete(ParseChunks(file, pos, n, bs, out), n, file)
    ensures ValidPart(p, bs) && pos + CHUNK_HEADER_SIZE + |p.payload| <= |file|
    ensures file[pos..pos + CHUNK_HEADER_SIZE + |p.payload|] == EncodePart(p)
  {
    hide PartHead, Value16, Value32, Bytes;
    var tag, blocks := Value16(file[pos..pos + 2]), Value32(file[pos + 4..pos + 8]);
    var size := Value32(file[pos + 8..pos + 12]) - CHUNK_HEADER_SIZE;
    var k := if tag == Tag(Raw) then Raw else if tag == Tag(Fill) then Fill else DontCare;
    var start := pos + CHUNK_HEADER_SIZE;
    if k == Fill {
      var r := ParseChunks(file, pos, n, bs, out);
      assert r.chunks[0].fill == file[start..UpTo(file, start + 4)];
    }
    p := Part(k, Value16(file[pos + 2..pos + 4]), blocks, file[start..start + size]);
    HeadIsEncoded(file, pos, k);
    assert file[pos..start + size] == file[pos..start] + file[start..start + size];
  }

  lemma CompleteRest(c: ImageChunk, blocks: nat, rest: Scan, n: nat, file: seq<Byte>)
    requires n > 0 && Complete(AddChunk(c, blocks, rest), n, file)
    ensures Complete(rest, n - 1, file)
  {
    assert forall i :: 0 <= i < |rest.chunks| ==> AddChunk(c, blocks, rest).chunks[i + 1] == rest.chunks[i];
  }

  lemma {:induction false} ParsedParts(file: seq<Byte>, pos: nat, n: nat, bs: nat, out: nat) returns (parts: seq<Part>)
    requires pos <= |file| && Complete(ParseChunks(file, pos, n, bs, out), n, file)
    ensures |parts| == n && ValidParts(parts, bs)
    ensures file[pos..ParseChunks(file, pos, n, bs, out).end] == EncodeParts(parts)
    ensures ParseChunks(file, pos, n, bs, out).blocks == TotalBlocks(parts)
    decreases n
  {
    hide ParseChunks, EncodePart, ValidPart, Chunk;
    if n == 0 {
      NoChunks(file, pos, bs, out);
      parts := [];
    } else {
      var p := PartAt(file, pos, n, bs, out);
      ParsePart(file, pos, p, n, bs, out);
      var next := pos + CHUNK_HEADER_SIZE + |p.payload|;
      CompleteRest(Chunk(p, bs, pos, out), p.blocks, ParseChunks(file, next, n - 1, bs, out + Bytes(p.blocks, bs)), n, file);
      var rest := ParsedParts(file, next, n - 1, bs, out + Bytes(p.blocks, bs));
      parts := [p] + rest;
      var end := ParseChunks(file, pos, n, bs, out).end;
      assert parts[1..] == rest;
      assert file[pos..end] == file[pos..next] + file[next..end];
    }
  }

  /**
   Every complete sparse file without checksum chunks is made of parts: what
   is accepted and what can be written are the same.
   */
  lemma AcceptedIsEncoded(file: seq<Byte>) returns (checksum: nat, parts: seq<Part>)
    requires var l := Parse(file); l.Sparse? && Complete(l.scan, l.count, file)
    ensures var l := Parse(file); ValidImage(l.bs, checksum, parts) && file == EncodeImage(l.bs, checksum, parts)
  {
    hide Le16, Le32, Value16, Value32, ParseChunks, EncodeParts, TotalBlocks;
    var l := Parse(file);
    parts := ParsedParts(file, HEADER_SIZE, l.count, l.bs, 0);
    checksum := Value32(file[24..28]);
    Value32Unique(file[0..4]);
    Value16Unique(file[4..6]);
    Value16Unique(file[6..8]);
    Value16Unique(file[8..10]);
    Value16Unique(file[10..12]);
    Value32Unique(file[12..16]);
    Value32Unique(file[16..20]);
    Value32Unique(file[20..24]);
    Value32Unique(file[24..28]);
    HeaderPieces(file);
  }

  lemma HeaderPieces(file: seq<Byte>)
    requires |file| >= HEADER_SIZE
    ensures file == file[0..4] + file[4..6] + file[6..8] + file[8..10] + file[10..12] + file[12..16]
                    + (file[16..20] + file[20..24]) + file[24..28] + file[28..]
  {
    var front := file[0..4] + file[4..6] + file[6..8];
    assert front == file[..8];
    assert front + file[8..10] + file[10..12] + file[12..16] == file[..16];
    assert file[..16] + (file[16..20] + file[20..24]) + file[24..28] == file[..28];
  }
}
