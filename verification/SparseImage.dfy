/** The image handler: a sparse file that behaves like the flat image it stands for. */
module SparseImage {
  import Bits
  import opened CText
  import opened SparseFormat

  /** A whole number of blocks. */
  predicate Whole(n: nat, bs: nat)
    requires bs >= 1
  {
    n % bs == 0
  }

  // ----- Parts before and after a place

  lemma {:induction false} EncodeSplit(a: seq<Part>, b: seq<Part>)
    ensures EncodeParts(a + b) == EncodeParts(a) + EncodeParts(b)
    ensures TotalBlocks(a + b) == TotalBlocks(a) + TotalBlocks(b)
  {
    hide EncodePart;
    if a == [] {
      assert a + b == b;
    } else {
      assert (a + b)[1..] == a[1..] + b;
      EncodeSplit(a[1..], b);
    }
  }

  lemma {:induction false} ExpandSplit(a: seq<Part>, b: seq<Part>, bs: nat)
    requires ValidParts(a, bs) && ValidParts(b, bs)
    ensures Expand(a + b, bs) == Expand(a, bs) + Expand(b, bs)
  {
    hide ValidPart, Content;
    if a == [] {
      assert a + b == b;
    } else {
      assert (a + b)[1..] == a[1..] + b;
      ExpandSplit(a[1..], b, bs);
    }
  }

  lemma {:induction false} ExpandLength(parts: seq<Part>, bs: nat)
    requires ValidParts(parts, bs)
    ensures |Expand(parts, bs)| == Bytes(TotalBlocks(parts), bs)
  {
    if parts != [] {
      ExpandLength(parts[1..], bs);
      BytesAdd(parts[0].blocks, TotalBlocks(parts[1..]), bs);
    }
  }

  lemma BytesAdd(a: nat, b: nat, bs: nat)
    ensures Bytes(a, bs) + Bytes(b, bs) == Bytes(a + b, bs)
  {
  }

  /** The chunk of part i starts where the parts before it end, in the file and in the image. */
  lemma {:induction false} ChunkAt(parts: seq<Part>, bs: nat, pos: nat, out: nat, i: nat)
    requires ValidParts(parts, bs) && i < |parts|
    ensures Chunks(parts, bs, pos, out)[i]
            == Chunk(parts[i], bs, pos + |EncodeParts(parts[..i])|, out + |Expand(parts[..i], bs)|)
  {
    hide EncodePart, ValidPart, Content, Chunk;
    if i == 0 {
      assert parts[..0] == [];
    } else {
      var rest := parts[1..];
      assert rest[..i - 1] == parts[..i][1..];
      ChunkAt(rest, bs, pos + CHUNK_HEADER_SIZE + |parts[0].payload|, out + Bytes(parts[0].blocks, bs), i - 1);
    }
  }

  /** What surrounds part i, in the file and in the image. */
  lemma PartInPlace(parts: seq<Part>, bs: nat, i: nat)
    requires ValidParts(parts, bs) && i < |parts|
    ensures EncodeParts(parts) == EncodeParts(parts[..i]) + EncodePart(parts[i]) + EncodeParts(parts[i + 1..])
    ensures Expand(parts, bs) == Expand(parts[..i], bs) + Content(parts[i], bs) + Expand(parts[i + 1..], bs)
    ensures EncodeParts(parts[..i + 1]) == EncodeParts(parts[..i]) + EncodePart(parts[i])
    ensures Expand(parts[..i + 1], bs) == Expand(parts[..i], bs) + Content(parts[i], bs)
  {
    hide EncodePart, ValidPart, Content;
    var a, b := parts[..i], parts[i + 1..];
    assert parts == a + [parts[i]] + b && parts[..i + 1] == a + [parts[i]];
    EncodeSplit(a, [parts[i]]);
    EncodeSplit(a + [parts[i]], b);
    ExpandSplit(a, [parts[i]], bs);
    ExpandSplit(a + [parts[i]], b, bs);
    SinglePart(parts[i], bs);
  }

  lemma SinglePart(p: Part, bs: nat)
    requires ValidPart(p, bs)
    ensures EncodeParts([p]) == EncodePart(p) && Expand([p], bs) == Content(p, bs) && TotalBlocks([p]) == p.blocks
  {
    assert [p][1..] == [];
    assert EncodePart(p) + [] == EncodePart(p) && Content(p, bs) + [] == Content(p, bs);
  }

  // ----- Changes to the file

  /** Overwrites bytes of a file, which may grow by it. */
  function WriteAt(file: seq<Byte>, off: nat, data: seq<Byte>): (r: seq<Byte>)
    requires off <= |file|
    ensures |r| == if off + |data| <= |file| then |file| else off + |data|
  {
    file[..off] + data + if off + |data| <= |file| then file[off + |data|..] else []
  }

  /** Updating the two counts in the header and appending a part. */
  lemma AppendedImage(bs: nat, checksum: nat, parts: seq<Part>, p: Part)
    requires ValidPart(p, bs)
    ensures var file := EncodeImage(bs, checksum, parts);
            var blocks, count := TotalBlocks(parts) + p.blocks, |parts| + 1;
            WriteAt(file, 16, Le32(blocks) + Le32(count)) + EncodePart(p) == EncodeImage(bs, checksum, parts + [p])
  {
    hide EncodePart, EncodeParts, TotalBlocks, Le32, Le16, ValidPart, WriteAt, EncodeHeader, EncodeImage;
    var blocks, count := TotalBlocks(parts) + p.blocks, |parts| + 1;
    CountsOfImage(bs, checksum, parts, blocks, count);
    ImageOfMore(bs, checksum, parts, p);
    Regroup(EncodeHeader(bs, blocks, count, checksum), EncodeParts(parts), EncodePart(p));
  }

  lemma CountsOfImage(bs: nat, checksum: nat, parts: seq<Part>, blocks: nat, count: nat)
    ensures |EncodeImage(bs, checksum, parts)| == HEADER_SIZE + |EncodeParts(parts)|
    ensures WriteAt(EncodeImage(bs, checksum, parts), 16, Le32(blocks) + Le32(count))
            == EncodeHeader(bs, blocks, count, checksum) + EncodeParts(parts)
  {
    hide EncodeParts, TotalBlocks, Le32, Le16, WriteAt, EncodeHeader;
    CountsWritten(bs, TotalBlocks(parts), |parts|, checksum, EncodeParts(parts), blocks, count);
  }

  lemma ImageOfMore(bs: nat, checksum: nat, parts: seq<Part>, p: Part)
    requires ValidPart(p, bs)
    ensures EncodeImage(bs, checksum, parts + [p])
            == EncodeHeader(bs, TotalBlocks(parts) + p.blocks, |parts| + 1, checksum) + (EncodeParts(parts) + EncodePart(p))
  {
    hide EncodePart, EncodeParts, TotalBlocks, ValidPart, EncodeHeader, EncodeImage, Content, Expand;
    EncodeSplit(parts, [p]);
    SinglePart(p, bs);
    ImageParts(bs, checksum, parts + [p]);
  }

  lemma ImageParts(bs: nat, checksum: nat, parts: seq<Part>)
    ensures EncodeImage(bs, checksum, parts) == EncodeHeader(bs, TotalBlocks(parts), |parts|, checksum) + EncodeParts(parts)
  {
  }

  lemma Regroup(a: seq<Byte>, b: seq<Byte>, c: seq<Byte>)
    ensures a + b + c == a + (b + c)
  {
  }

  lemma CountsWritten(bs: nat, blocks: nat, count: nat, checksum: nat, body: seq<Byte>, blocks': nat, count': nat)
    ensures WriteAt(EncodeHeader(bs, blocks, count, checksum) + body, 16, Le32(blocks') + Le32(count'))
            == EncodeHeader(bs, blocks', count', checksum) + body
  {
    hide Le32, Le16;
    var front := Le32(MAGIC) + Le16(1) + Le16(0) + Le16(HEADER_SIZE) + Le16(CHUNK_HEADER_SIZE) + Le32(bs);
    var file := EncodeHeader(bs, blocks, count, checksum) + body;
    assert file == front + (Le32(blocks) + Le32(count)) + Le32(checksum) + body;
    assert file[..16] == front && file[24..] == Le32(checksum) + body;
  }

  function Min(a: int, b: int): int {
    if a <= b then a else b
  }

  /** A flat image cut or filled up with zeros. */
  function Resized(image: seq<Byte>, size: nat): seq<Byte> {
    if size <= |image| then image[..size] else image + Zeros(size - |image|)
  }

  /** The number of entries of a sorted list that are at most x. */
  method BisectRight(a: seq<nat>, x: nat) returns (r: nat)
    requires forall i, j :: 0 <= i < j < |a| ==> a[i] <= a[j]
    ensures r <= |a|
    ensures forall i :: 0 <= i < r ==> a[i] <= x
    ensures forall i :: r <= i < |a| ==> x < a[i]
  {
    var lo, hi := 0, |a|;
    while lo < hi
      invariant 0 <= lo <= hi <= |a|
      invariant forall i :: 0 <= i < lo ==> a[i] <= x
      invariant forall i :: hi <= i < |a| ==> x < a[i]
    {
      var mid := (lo + hi) / 2;
      if x < a[mid] {
        hi := mid;
      } else {
        lo := mid + 1;
      }
    }
    r := lo;
  }

  /** The chunks read so far in front of what the rest of the file gives. */
  ghost function Continue(cs: seq<ImageChunk>, blocks: nat, rest: Scan): Scan {
    if rest.Bad? then Bad else Scan(cs + rest.chunks, rest.end, blocks + rest.blocks)
  }

  lemma ContinueMore(cs: seq<ImageChunk>, blocks: nat, c: ImageChunk, n: nat, rest: Scan)
    ensures Continue(cs, blocks, AddChunk(c, n, rest)) == Continue(cs + [c], blocks + n, rest)
  {
    if rest.Scan? {
      assert cs + ([c] + rest.chunks) == cs + [c] + rest.chunks;
    }
  }

  /** The loop over the chunks of a file. */
  method ScanChunks(file: seq<Byte>, count: nat, bs: nat) returns (r: Scan)
    ensures r == ParseChunks(file, HEADER_SIZE, count, bs, 0)
  {
    hide Value16, Value32, Bytes, AddChunk;
    var cs: seq<ImageChunk>, pos: nat, offset: nat, out: nat := [], HEADER_SIZE, 0, 0;
    ghost var whole := ParseChunks(file, pos, count, bs, out);
    ContinueNothing(whole);
    for k := 0 to count
      invariant Continue(cs, offset, ParseChunks(file, pos, count - k, bs, out)) == whole
    {
      if pos + CHUNK_HEADER_SIZE > |file| {
        return Bad;
      }
      var tag, blocks := Value16(file[pos..pos + 2]), Value32(file[pos + 4..pos + 8]);
      var dataSize := Value32(file[pos + 8..pos + 12]) - CHUNK_HEADER_SIZE;
      var start, size := pos + CHUNK_HEADER_SIZE, Bytes(blocks, bs);
      if tag == Tag(Raw) {
        if dataSize != size {
          return Bad;
        }
        var c := ImageChunk(Raw, pos, out, size, start, []);
        ContinueMore(cs, offset, c, blocks, ParseChunks(file, start + size, count - k - 1, bs, out + size));
        cs, pos := cs + [c], start + size;
      } else if tag == Tag(Fill) {
        if dataSize != 4 {
          return Bad;
        }
        var next := UpTo(file, start + 4);
        var c := ImageChunk(Fill, pos, out, size, 0, file[start..next]);
        ContinueMore(cs, offset, c, blocks, ParseChunks(file, next, count - k - 1, bs, out + size));
        cs, pos := cs + [c], next;
      } else if tag == Tag(DontCare) {
        if dataSize != 0 {
          return Bad;
        }
        var c := ImageChunk(DontCare, pos, out, size, 0, []);
        ContinueMore(cs, offset, c, blocks, ParseChunks(file, start, count - k - 1, bs, out + size));
        cs, pos := cs + [c], start;
      } else if tag == CRC32 {
        if dataSize != 4 {
          return Bad;
        }
        pos := UpTo(file, start + 4);
      } else {
        return Bad;
      }
      offset, out := offset + blocks, out + size;
    }
    assert cs + [] == cs;
    r := Scan(cs, pos, offset);
  }

  lemma ContinueNothing(rest: Scan)
    ensures Continue([], 0, rest) == rest
  {
    if rest.Scan? {
      assert [] + rest.chunks == rest.chunks;
    }
  }

  // ----- Cutting

  lemma CutImage(bs: nat, checksum: nat, parts: seq<Part>, idx: nat)
    requires idx < |parts|
    ensures var at := HEADER_SIZE + |EncodeParts(parts[..idx])|;
            var file := EncodeImage(bs, checksum, parts);
            && at <= |file|
            && WriteAt(file, 16, Le32(TotalBlocks(parts[..idx])) + Le32(idx))[..at] == EncodeImage(bs, checksum, parts[..idx])
  {
    hide EncodePart, EncodeParts, TotalBlocks, Le32, WriteAt, EncodeHeader;
    var a, b := parts[..idx], parts[idx..];
    assert parts == a + b;
    EncodeSplit(a, b);
    CountsOfImage(bs, checksum, parts, TotalBlocks(a), idx);
    var h := EncodeHeader(bs, TotalBlocks(a), idx, checksum);
    Regroup(h, EncodeParts(a), EncodeParts(b));
  }

  /** A part that is cut short: a new head over the first bytes of the old payload. */
  ghost predicate Shortens(q: Part, p: Part, bs: nat) {
    && ValidPart(p, bs) && ValidPart(q, bs) && q.kind == p.kind && q.blocks <= p.blocks
    && q.payload <= p.payload
  }

  lemma TrimImage(bs: nat, checksum: nat, parts: seq<Part>, idx: nat, q: Part)
    requires idx < |parts| && Shortens(q, parts[idx], bs)
    ensures var file, np := EncodeImage(bs, checksum, parts), parts[..idx] + [q];
            var start := HEADER_SIZE + |EncodeParts(parts[..idx])|;
            var at := start + CHUNK_HEADER_SIZE + |q.payload|;
            && at <= |file|
            && var head := WriteAt(file, start, PartHead(q.kind, q.reserved, q.blocks, |q.payload|));
               |head| == |file|
               && WriteAt(head, 16, Le32(TotalBlocks(np)) + Le32(idx + 1))[..at] == EncodeImage(bs, checksum, np)
  {
    hide EncodeParts, TotalBlocks, Le32, Le16, PartHead, EncodeHeader, ValidPart, EncodePart, WriteAt;
    var p, a, b := parts[idx], parts[..idx], parts[idx + 1..];
    assert parts == a + ([p] + b);
    EncodeSplit(a, [p] + b);
    EncodeSplit([p], b);
    SinglePart(p, bs);
    SinglePart(q, bs);
    EncodeSplit(a, [q]);
    var h := EncodeHeader(bs, TotalBlocks(parts), |parts|, checksum);
    HeadReplaced(h + EncodeParts(a), p, q, EncodeParts(b));
    var tail := p.payload[|q.payload|..] + EncodeParts(b);
    Regroup(h, EncodeParts(a), EncodePart(p) + EncodeParts(b));
    Regroup(h, EncodeParts(a), EncodePart(q) + tail);
    var np := a + [q];
    CountsWritten(bs, TotalBlocks(parts), |parts|, checksum, EncodeParts(a) + (EncodePart(q) + tail), TotalBlocks(np), idx + 1);
    var h' := EncodeHeader(bs, TotalBlocks(np), idx + 1, checksum);
    Regroup(EncodeParts(a), EncodePart(q), tail);
    Regroup(h', EncodeParts(a) + EncodePart(q), tail);
  }

  /** Overwriting the head of a part, seen from the bytes around it. */
  lemma HeadReplaced(front: seq<Byte>, p: Part, q: Part, back: seq<Byte>)
    requires q.payload <= p.payload
    ensures WriteAt(front + (EncodePart(p) + back), |front|, PartHead(q.kind, q.reserved, q.blocks, |q.payload|))
            == front + (EncodePart(q) + (p.payload[|q.payload|..] + back))
  {
    hide PartHead, WriteAt;
    var old', new' := PartHead(p.kind, p.reserved, p.blocks, |p.payload|), PartHead(q.kind, q.reserved, q.blocks, |q.payload|);
    Overwritten(front, old', new', p.payload + back);
    Regroup(old', p.payload, back);
    assert p.payload == q.payload + p.payload[|q.payload|..];
    Regroup(q.payload, p.payload[|q.payload|..], back);
    Regroup(new', q.payload, p.payload[|q.payload|..] + back);
  }

  lemma Overwritten(front: seq<Byte>, o: seq<Byte>, n: seq<Byte>, back: seq<Byte>)
    requires |o| == |n|
    ensures WriteAt(front + (o + back), |front|, n) == front + (n + back)
  {
    var file := front + (o + back);
    assert file[..|front|] == front && file[|front| + |n|..] == back;
    Regroup(front, n, back);
  }

  lemma TrimContent(p: Part, q: Part, bs: nat)
    requires Shortens(q, p, bs) && (p.kind == Fill ==> q.payload == p.payload)
    ensures Bytes(q.blocks, bs) <= Bytes(p.blocks, bs)
    ensures Content(q, bs) == Content(p, bs)[..Bytes(q.blocks, bs)]
  {
    Bits.MulMono(q.blocks, p.blocks, bs);
  }
}
