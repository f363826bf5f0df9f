/** Operations on an image file, sparse or flat, in terms of the flat image. */
module ImageHandler {
  import Bits
  import opened CText
  import opened SparseFormat
  import opened SparseImage
  import opened SparseLayout

  class Handler {
    var file: seq<Byte>
    const readOnly: bool
    var isSparse: bool
    var blockSize: nat
    var imageSize: nat
    var numTotalBlocks: nat
    var numTotalChunks: nat
    var filePos: nat
    var sparseEnd: nat
    var chunks: seq<ImageChunk>
    ghost var parts: seq<Part>
    ghost var checksum: nat

    /** The fields describe the file. */
    ghost predicate Valid()
      reads `file, `isSparse, `blockSize, `imageSize, `numTotalBlocks, `numTotalChunks, `sparseEnd, `chunks, `parts, `checksum
      ensures Valid() && isSparse ==> blockSize >= 1 && ValidImage(blockSize, checksum, parts)
      ensures Valid() && isSparse ==> |chunks| == |parts| == numTotalChunks
      ensures Valid() && !isSparse ==> imageSize == |file|
      ensures Valid() ==> blockSize >= 1
    {
      if isSparse then
        && blockSize >= 1 && ValidImage(blockSize, checksum, parts)
        && file == EncodeImage(blockSize, checksum, parts)
        && chunks == Chunks(parts, blockSize, HEADER_SIZE, 0)
        && sparseEnd == |file| && imageSize == |Expand(parts, blockSize)|
        && numTotalBlocks == TotalBlocks(parts) && numTotalChunks == |parts|
      else
        NoMagic(file) && imageSize == |file| && blockSize == 4096
    }

    /** The flat image that the file stands for. */
    ghost function Image(): seq<Byte>
      requires Valid()
      reads `file, `isSparse, `blockSize, `imageSize, `numTotalBlocks, `numTotalChunks, `sparseEnd, `chunks, `parts, `checksum
    {
      if isSparse then Expand(parts, blockSize) else file
    }

    /** A sparse file after any operation: its bytes are those of the parts, and the image is their output. */
    lemma FileBytes()
      requires Valid() && isSparse
      ensures ImageLaid(file, blockSize, checksum, parts) && Outputs(Image(), 0, parts, blockSize)
    {
      hide EncodeImage, Chunks, TotalBlocks, ImageLaid, Outputs;
      EncodedImage(blockSize, checksum, parts);
      assert Image()[0..] == Image();
      ExpandedOutputs(parts, blockSize, Image(), 0);
    }

    /** The fields that opening a file sets. */
    ghost predicate Loaded(l: Layout)
      reads this
    {
      filePos == 0 &&
      match l
      case Invalid => |file| < HEADER_SIZE ==> !isSparse && blockSize == 4096 && imageSize == |file|
      case Flat => !isSparse && blockSize == 4096 && imageSize == |file|
      case Sparse(bs, blocks, count, scan) =>
        && isSparse && blockSize == bs && scan.Scan? && chunks == scan.chunks && sparseEnd == scan.end
        && numTotalBlocks == blocks && numTotalChunks == count && imageSize == Bytes(scan.blocks, bs)
    }

    constructor (file: seq<Byte>, readOnly: bool)
      ensures this.file == file && this.readOnly == readOnly
    {
      this.file, this.readOnly := file, readOnly;
      isSparse, blockSize, imageSize, numTotalBlocks, numTotalChunks, filePos := false, 0, 0, 0, 0, 0;
      sparseEnd, chunks, parts, checksum := 0, [], [], 0;
    }

    /** Reads the whole description of the image again; fails on an invalid file. */
    method ReadHeader() returns (ok: bool)
      modifies this`isSparse, this`blockSize, this`imageSize, this`numTotalBlocks, this`numTotalChunks, this`filePos,
               this`sparseEnd, this`chunks
      ensures ok <==> Parse(file) != Invalid
      ensures Loaded(Parse(file))
    {
      hide ParseChunks, Bytes, Value16, Value32;
      isSparse, blockSize, filePos, imageSize := false, 4096, 0, |file|;
      if |file| < HEADER_SIZE {
        return false;
      }
      numTotalBlocks, numTotalChunks := Value32(file[16..20]), Value32(file[20..24]);
      if Value32(file[0..4]) != MAGIC {
        return true;
      }
      if Value16(file[4..6]) != 1 || Value16(file[6..8]) != 0 {
        return false;
      }
      if Value16(file[8..10]) != HEADER_SIZE || Value16(file[10..12]) != CHUNK_HEADER_SIZE {
        return false;
      }
      blockSize := Value32(file[12..16]);
      var scan := ScanChunks(file, numTotalChunks, blockSize);
      if scan.Bad? {
        return false;
      }
      chunks, sparseEnd := scan.chunks, scan.end;
      if numTotalBlocks != scan.blocks || sparseEnd < |file| {
        return false;
      }
      imageSize := Bytes(scan.blocks, blockSize);
      isSparse, ok := true, true;
    }

    /** Opens a file: a flat one, or a complete sparse one without checksum chunks. */
    method Open() returns (ok: bool)
      modifies this
      ensures file == old(file)
      ensures ok <==> Parse(file) != Invalid
      ensures ok && (Parse(file).Sparse? ==> Parse(file).bs >= 1 && Complete(Parse(file).scan, Parse(file).count, file)) ==> Valid()
      ensures ok ==> isSparse == Parse(file).Sparse? && filePos == 0
    {
      hide Parse, EncodeImage, Chunks, Expand, Bytes, TotalBlocks, ParseChunks;
      ok := ReadHeader();
      ghost var l := Parse(file);
      if ok && isSparse && blockSize >= 1 && Complete(l.scan, numTotalChunks, file) {
        ghost var c, ps := AcceptedIsEncoded(file);
        parts, checksum := ps, c;
        ParseImage(blockSize, checksum, parts);
        ExpandLength(parts, blockSize);
      } else if l == Flat {
        FlatHasNoMagic(file);
      }
    }

    /** Reading the file again after it was rewritten from valid parts succeeds. */
    method Reload(ghost ps: seq<Part>)
      requires blockSize >= 1 && ValidImage(blockSize, checksum, ps) && file == EncodeImage(blockSize, checksum, ps)
      modifies this
      ensures Valid() && isSparse && parts == ps && blockSize == old(blockSize) && file == old(file) && filePos == 0
      ensures numTotalChunks == |ps|
    {
      hide Parse, EncodeImage, Chunks, Expand, Bytes, TotalBlocks;
      parts := ps;
      ParseImage(blockSize, checksum, parts);
      ExpandLength(parts, blockSize);
      var ok := ReadHeader();
    }

    // ----- Reading

    method Seek(offset: int) returns (ok: bool)
      modifies this`filePos
      ensures ok <==> offset >= 0
      ensures filePos == if ok then offset else old(filePos)
    {
      if offset < 0 {
        return false;
      }
      filePos, ok := offset, true;
    }

    function Tell(): nat
      reads this
    {
      filePos
    }

    /** What part i of the image contributes from a position inside it. */
    method ReadChunk(idx: nat, pos: nat, n: nat) returns (data: seq<Byte>)
      requires Valid() && isSparse && idx < |chunks|
      requires chunks[idx].outputOffset <= pos && pos + n <= chunks[idx].outputOffset + chunks[idx].outputSize
      ensures chunks[idx].outputOffset + chunks[idx].outputSize <= |Image()|
      ensures data == Image()[pos..pos + n]
    {
      hide Valid, Image, Bytes, ValidPart, Content;
      var chunk := chunks[idx];
      var off := pos - chunk.outputOffset;
      ghost var p := parts[idx];
      InsideChunk(idx, off, n);
      ghost var content := Content(p, blockSize)[off..off + n];
      assert Image()[pos..pos + n] == content;
      match chunk.kind {
        case Raw =>
          RawInFile(idx, off, n);
          data := file[chunk.inputOffset + off..chunk.inputOffset + off + n];
          RawContent(p, blockSize);
        case Fill =>
          var allData := Repeat(chunk.fill, n / 4 + 2);
          var offsetMod := off % 4;
          data := allData[offsetMod..offsetMod + n];
          FillBytes(p, blockSize, off, n);
        case DontCare =>
          data := Zeros(n);
          HoleBytes(p, blockSize, off, n);
      }
    }

    /** The image inside the chunk of a part is its content. */
    lemma InsideChunk(idx: nat, off: nat, n: nat)
      requires Valid() && isSparse && idx < |chunks| && off + n <= chunks[idx].outputSize
      ensures var c, p := chunks[idx], parts[idx];
              && ValidPart(p, blockSize) && c.kind == p.kind && c.outputSize == Bytes(p.blocks, blockSize)
              && (p.kind == Fill ==> c.fill == p.payload && |c.fill| == 4)
              && c.outputOffset + c.outputSize <= |Image()|
              && Image()[c.outputOffset + off..c.outputOffset + off + n] == Content(p, blockSize)[off..off + n]
    {
      hide EncodeImage, TotalBlocks, EncodeParts, Bytes, Chunks, EncodePart, Expand, Content;
      ChunkAt(parts, blockSize, HEADER_SIZE, 0, idx);
      PartInPlace(parts, blockSize, idx);
      assert ValidPart(parts[idx], blockSize);
      Middle(Expand(parts[..idx], blockSize), Content(parts[idx], blockSize), Expand(parts[idx + 1..], blockSize), off, n);
    }

    lemma RawInFile(idx: nat, off: nat, n: nat)
      requires Valid() && isSparse && idx < |chunks| && off + n <= chunks[idx].outputSize && parts[idx].kind == Raw
      ensures var c, p := chunks[idx], parts[idx];
              && c.inputOffset + off + n <= |file| && off + n <= |p.payload|
              && file[c.inputOffset + off..c.inputOffset + off + n] == p.payload[off..off + n]
    {
      hide TotalBlocks, EncodeParts, Bytes, Chunks, EncodePart, EncodeHeader, Content, Expand;
      ChunkAt(parts, blockSize, HEADER_SIZE, 0, idx);
      PartInPlace(parts, blockSize, idx);
      assert ValidPart(parts[idx], blockSize);
      RawBytes(file, EncodeHeader(blockSize, TotalBlocks(parts), |parts|, checksum), EncodeParts(parts[..idx]), parts[idx],
               EncodeParts(parts[idx + 1..]), off, n);
    }

    /** Reads up to `size` bytes from the position on and moves it. */
    method Read(size: nat) returns (data: seq<Byte>)
      requires Valid() && (isSparse ==> filePos <= imageSize && (chunks != [] || size == 0))
      modifies this`filePos
      ensures Valid() && Image() == old(Image())
      ensures var n := if old(filePos) >= |Image()| then 0 else Min(size, |Image()| - old(filePos));
              |data| == n && filePos == old(filePos) + n
              && (n > 0 ==> data == Image()[old(filePos)..old(filePos) + n])
    {
      if !isSparse {
        data := if filePos >= |file| then [] else file[filePos..filePos + Min(size, |file| - filePos)];
        filePos := filePos + |data|;
        return;
      }
      data := ReadSparse(size);
    }

    /** Collects the bytes chunk by chunk, starting at the one that holds the position. */
    method ReadSparse(size: nat) returns (data: seq<Byte>)
      requires Valid() && isSparse && filePos <= imageSize && (chunks != [] || size == 0)
      modifies this`filePos
      ensures Valid() && imageSize == |Image()|
      ensures old(filePos) <= filePos <= imageSize && data == Image()[old(filePos)..filePos]
      ensures filePos - old(filePos) <= size
      ensures filePos - old(filePos) == size || filePos == imageSize
    {
      hide Valid, Image;
      ImageSizeIs();
      var r := BisectRight(Offsets(), filePos);
      ghost var start, image := filePos, Image();
      data := [];
      if size == 0 {
        assert image[start..start] == [];
        return;
      }
      StartChunkOf(r, filePos);
      var idx, toGo := r - 1, size;
      while toGo > 0
        invariant Valid() && 0 <= toGo <= size && idx <= |chunks|
        invariant filePos == start + (size - toGo) <= |image| && data == image[start..filePos]
        invariant Image() == image
        invariant toGo > 0 ==> idx < |chunks| && chunks[idx].outputOffset <= filePos <= chunks[idx].outputOffset + chunks[idx].outputSize
        decreases |chunks| - idx, toGo
      {
        var more := ReadPiece(idx, filePos, toGo);
        var n := |more|;
        Join(image, start, filePos, filePos + n);
        data := data + more;
        toGo := toGo - n;
        filePos := filePos + n;
        idx := idx + 1;
        if idx >= |chunks| {
          break;
        }
      }
    }

    /** As many bytes as wanted, or those up to the end of a chunk. */
    method ReadPiece(idx: nat, pos: nat, toGo: nat) returns (more: seq<Byte>)
      requires Valid() && isSparse && idx < |chunks|
      requires chunks[idx].outputOffset <= pos <= chunks[idx].outputOffset + chunks[idx].outputSize
      ensures pos + |more| <= |Image()| == imageSize && more == Image()[pos..pos + |more|] && |more| <= toGo
      ensures |more| < toGo && idx + 1 < |chunks| ==>
                chunks[idx + 1].outputOffset <= pos + |more| <= chunks[idx + 1].outputOffset + chunks[idx + 1].outputSize
      ensures |more| < toGo && idx + 1 == |chunks| ==> pos + |more| == imageSize
    {
      hide Valid, Image;
      var chunk := chunks[idx];
      var off := pos - chunk.outputOffset;
      var n := Min(chunk.outputSize - off, toGo);
      more := ReadChunk(idx, pos, n);
      FollowingChunk(idx);
    }

    /** Where the output of every chunk begins. */
    function Offsets(): (r: seq<nat>)
      reads this
      ensures |r| == |chunks|
      ensures forall i :: 0 <= i < |chunks| ==> r[i] == chunks[i].outputOffset
    {
      seq(|chunks|, i requires 0 <= i < |chunks| reads this => chunks[i].outputOffset)
    }

    lemma ImageSizeIs()
      requires Valid() && isSparse
      ensures |Image()| == imageSize
      ensures forall i, j :: 0 <= i < j < |chunks| ==> chunks[i].outputOffset <= chunks[j].outputOffset
      ensures chunks != [] ==> chunks[0].outputOffset == 0
    {
      hide ValidPart, Content, Chunks, EncodeImage, TotalBlocks;
      forall i, j | 0 <= i < j < |chunks|
        ensures chunks[i].outputOffset <= chunks[j].outputOffset
      {
        ChunkAt(parts, blockSize, HEADER_SIZE, 0, i);
        ChunkAt(parts, blockSize, HEADER_SIZE, 0, j);
        assert parts[..j] == parts[..i] + parts[i..j];
        ExpandSplit(parts[..i], parts[i..j], blockSize);
      }
      if chunks != [] {
        ChunkAt(parts, blockSize, HEADER_SIZE, 0, 0);
        assert parts[..0] == [];
      }
    }

    /** The chunk found for a position inside the image, or for its end, reaches up to it. */
    lemma StartChunkOf(r: nat, pos: nat)
      requires Valid() && isSparse && pos <= imageSize && chunks != [] && r <= |chunks|
      requires forall i :: 0 <= i < r ==> chunks[i].outputOffset <= pos
      requires forall i :: r <= i < |chunks| ==> pos < chunks[i].outputOffset
      ensures r >= 1 && chunks[r - 1].outputOffset <= pos <= chunks[r - 1].outputOffset + chunks[r - 1].outputSize
      ensures pos < imageSize ==> pos < chunks[r - 1].outputOffset + chunks[r - 1].outputSize
    {
      hide ValidPart, Content, Chunks, EncodeImage, TotalBlocks;
      ImageSizeIs();
      FollowingChunk(r - 1);
    }

    lemma HasChunks()
      requires Valid() && isSparse && imageSize > 0
      ensures chunks != []
    {
    }

    lemma GapIsWhole(size: nat)
      requires Valid() && isSparse && Whole(size, blockSize) && size >= imageSize
      ensures Whole(size - imageSize, blockSize)
    {
      hide EncodeImage, EncodeParts, Bytes, Chunks, Expand, TotalBlocks, Content, ValidPart;
      ExpandLength(parts, blockSize);
      WholeDifference(size, TotalBlocks(parts), blockSize);
    }

    /** Each chunk ends where the next one or the end of the image is. */
    lemma FollowingChunk(i: nat)
      requires Valid() && isSparse && i < |chunks|
      ensures chunks[i].outputOffset + chunks[i].outputSize == if i + 1 < |chunks| then chunks[i + 1].outputOffset else imageSize
      ensures imageSize == |Image()|
    {
      hide ValidPart, Chunks, EncodeImage, TotalBlocks, Bytes, Content, Expand, EncodeParts, EncodePart;
      ChunkAt(parts, blockSize, HEADER_SIZE, 0, i);
      PartInPlace(parts, blockSize, i);
      assert ValidPart(parts[i], blockSize);
      if i + 1 < |chunks| {
        ChunkAt(parts, blockSize, HEADER_SIZE, 0, i + 1);
      } else {
        assert parts[..i + 1] == parts;
      }
    }

    // ----- Appending

    /** The 32-bit fields have room for one more part with so much output and payload. */
    predicate Fits(output: nat, payload: nat)
      reads this
    {
      isSparse ==>
        payload + CHUNK_HEADER_SIZE < WORD && imageSize + output < WORD * blockSize && numTotalChunks + 1 < WORD
    }

    lemma RoomForBlocks(blocks: nat)
      requires Valid() && isSparse && imageSize + Bytes(blocks, blockSize) < WORD * blockSize
      ensures numTotalBlocks + blocks < WORD
    {
      hide EncodeImage, EncodeParts, Chunks, Expand, TotalBlocks, Content, ValidPart;
      ExpandLength(parts, blockSize);
      BytesAdd(TotalBlocks(parts), blocks, blockSize);
      if numTotalBlocks + blocks >= WORD {
        Bits.MulMono(WORD, numTotalBlocks + blocks, blockSize);
      }
    }

    /** Updates the counts, then writes the head and the payload of a new last part. */
    method AppendPart(kind: Kind, blocks: nat, payload: seq<Byte>)
      requires Valid() && isSparse
      requires |payload| + CHUNK_HEADER_SIZE < WORD && numTotalBlocks + blocks < WORD && numTotalChunks + 1 < WORD
      requires match kind
               case Raw => |payload| == Bytes(blocks, blockSize)
               case Fill => |payload| == 4
               case DontCare => payload == []
      modifies this
      ensures Valid() && isSparse && filePos == 0 && blockSize == old(blockSize) && numTotalChunks == old(numTotalChunks) + 1
      ensures Image() == old(Image()) + Content(Part(kind, 0, blocks, payload), blockSize)
    {
      hide EncodeImage, EncodeHeader, TotalBlocks, EncodeParts, Bytes, Chunks, Expand, Content, WriteAt, Le32, PartHead;
      ghost var p := Part(kind, 0, blocks, payload);
      assert ValidPart(p, blockSize);
      AppendedImage(blockSize, checksum, parts, p);
      CountsOfImage(blockSize, checksum, parts, TotalBlocks(parts) + blocks, |parts| + 1);
      EncodeSplit(parts, [p]);
      ExpandSplit(parts, [p], blockSize);
      SinglePart(p, blockSize);
      numTotalChunks := numTotalChunks + 1;
      numTotalBlocks := numTotalBlocks + blocks;
      file := WriteAt(file, 16, Le32(numTotalBlocks) + Le32(numTotalChunks));
      WriteAtEnd(file, EncodePart(p));
      file := WriteAt(file, sparseEnd, PartHead(kind, 0, blocks, |payload|) + payload);
      Reload(parts + [p]);
    }

    /** A flat file that was cut below four bytes does not turn into a sparse one. */
    predicate StaysFlat(data: seq<Byte>)
      reads this
    {
      !isSparse && |file| < 4 ==> NoMagic(file + data)
    }

    /** Writes at the end of a flat file, which must then have room for a header. */
    method AppendFlat(data: seq<Byte>) returns (ok: bool)
      requires Valid() && !isSparse && StaysFlat(data)
      modifies this
      ensures ok <==> |old(file)| + |data| >= HEADER_SIZE
      ensures Valid() && !isSparse && filePos == 0 && blockSize == old(blockSize) && Image() == old(Image()) + data
    {
      hide Value32;
      if |file| >= 4 {
        assert (file + data)[0..4] == file[0..4];
      }
      file := file + data;
      ok := ReadHeader();
    }

    method AppendDontCare(numBytes: nat) returns (ok: bool)
      requires Valid() && Whole(numBytes, blockSize) && Fits(numBytes, 0)
      modifies this
      ensures ok <==> !readOnly && (old(isSparse) || |old(file)| + numBytes >= HEADER_SIZE)
      ensures Valid() && isSparse == old(isSparse) && blockSize == old(blockSize)
      ensures isSparse ==> numTotalChunks <= old(numTotalChunks) + 1
      ensures Image() == if readOnly then old(Image()) else old(Image()) + Zeros(numBytes)
      ensures filePos == if readOnly then old(filePos) else 0
    {
      hide Image, Bytes, Content;
      if readOnly {
        return false;
      }
      if !isSparse {
        ZerosNoMagic(file, numBytes);
        ok := AppendFlat(Zeros(numBytes));
        return;
      }
      WholeBlocks(numBytes, blockSize);
      RoomForBlocks(numBytes / blockSize);
      ZeroContent(numBytes, blockSize);
      AppendPart(DontCare, numBytes / blockSize, []);
      ok := true;
    }

    /**
     Appends data. Only with `multipleBlockSize` is a whole number of blocks
     checked for; a sparse file needs one all the same and cannot be read
     again without it.
     */
    method AppendRaw(data: seq<Byte>, multipleBlockSize: bool) returns (ok: bool)
      requires Valid() && Fits(|data|, |data|) && StaysFlat(data)
      modifies this
      ensures var whole := Whole(|data|, old(blockSize));
              && (ok <==> !readOnly && (whole || !multipleBlockSize)
                          && if old(isSparse) then whole else |old(file)| + |data| >= HEADER_SIZE)
              && (readOnly || (!whole && multipleBlockSize) ==> unchanged(this))
              && (!readOnly && !multipleBlockSize && old(isSparse) && !whole ==> Parse(file) == Invalid)
              && (!readOnly && (whole || (!multipleBlockSize && !old(isSparse))) ==>
                    && Valid() && isSparse == old(isSparse) && blockSize == old(blockSize)
                    && (isSparse ==> numTotalChunks <= old(numTotalChunks) + 1)
                    && Image() == old(Image()) + data && filePos == 0)
    {
      hide Image, Bytes, Whole;
      if readOnly || (multipleBlockSize && !Whole(|data|, blockSize)) {
        return false;
      }
      if !isSparse {
        ok := AppendFlat(data);
      } else {
        ok := AppendSparse(data);
      }
    }

    /** Both branches write the same bytes; only after the first can they be read again. */
    method AppendSparse(data: seq<Byte>) returns (ok: bool)
      requires Valid() && isSparse && Fits(|data|, |data|)
      modifies this
      ensures ok == Whole(|data|, old(blockSize))
      ensures ok ==> Valid() && isSparse && blockSize == old(blockSize) && numTotalChunks == old(numTotalChunks) + 1
      ensures ok ==> Image() == old(Image()) + data && filePos == 0
      ensures !ok ==> Parse(file) == Invalid
    {
      hide Valid, Image, Bytes, Whole, Parse;
      BlocksBelow(|data|, blockSize);
      var blocks := |data| / blockSize;
      RoomForBlocks(blocks);
      if Bytes(blocks, blockSize) == |data| {
        AppendPart(Raw, blocks, data);
        RawContent(Part(Raw, 0, blocks, data), old(blockSize));
        ok := true;
      } else {
        ok := AppendRagged(data, blocks);
      }
    }

    /** Writes a raw part whose length is no whole number of blocks. */
    method AppendRagged(data: seq<Byte>, blocks: nat) returns (ok: bool)
      requires Valid() && isSparse && Bytes(blocks, blockSize) != |data| && |data| + CHUNK_HEADER_SIZE < WORD
      requires numTotalBlocks + blocks < WORD && numTotalChunks + 1 < WORD
      modifies this
      ensures !ok && Parse(file) == Invalid
    {
      hide EncodeImage, TotalBlocks, Bytes, Chunks, Expand, WriteAt, Le32, PartHead, Parse, ValidParts;
      RaggedFile(blockSize, checksum, parts, data, blocks);
      numTotalChunks := numTotalChunks + 1;
      numTotalBlocks := numTotalBlocks + blocks;
      file := WriteAt(file, 16, Le32(numTotalBlocks) + Le32(numTotalChunks));
      file := WriteAt(file, sparseEnd, PartHead(Raw, 0, blocks, |data|) + data);
      ok := ReadHeader();
    }

    method AppendFill(fillData: seq<Byte>, size: nat) returns (ok: bool)
      requires Valid() && |fillData| == 4 && size % 4 == 0 && Whole(size, blockSize) && Fits(size, 4)
      requires StaysFlat(Repeat(fillData, size / 4))
      modifies this
      ensures ok <==> !readOnly && (old(isSparse) || |old(file)| + size >= HEADER_SIZE)
      ensures Valid() && isSparse == old(isSparse) && blockSize == old(blockSize)
      ensures isSparse ==> numTotalChunks <= old(numTotalChunks) + 1
      ensures Image() == if readOnly then old(Image()) else old(Image()) + Repeat(fillData, size / 4)
      ensures filePos == if readOnly then old(filePos) else 0
    {
      hide Image, Bytes;
      if readOnly {
        return false;
      }
      if !isSparse {
        ok := AppendFlat(Repeat(fillData, size / 4));
        return;
      }
      WholeBlocks(size, blockSize);
      RoomForBlocks(size / blockSize);
      FillContent(fillData, size, blockSize);
      AppendPart(Fill, size / blockSize, fillData);
      ok := true;
    }

    // ----- Truncating

    /** The counts of the first n chunks, as the header needs them. */
    method CountBlocks(sizes: seq<nat>, ghost ps: seq<Part>) returns (blocks: nat)
      requires blockSize >= 1 && |sizes| == |ps| && forall i :: 0 <= i < |ps| ==> sizes[i] == Bytes(ps[i].blocks, blockSize)
      ensures blocks == TotalBlocks(ps)
    {
      hide Bytes;
      blocks := 0;
      assert ps[..0] == [];
      for i := 0 to |sizes|
        invariant blocks == TotalBlocks(ps[..i])
      {
        BlocksOf(ps[i].blocks, blockSize);
        assert ps[..i + 1] == ps[..i] + [ps[i]];
        EncodeSplit(ps[..i], [ps[i]]);
        assert [ps[i]][1..] == [];
        blocks := blocks + sizes[i] / blockSize;
      }
      assert ps[..|ps|] == ps;
    }

    /** Cuts a sparse file in front of a chunk. */
    method CutAt(idx: nat)
      requires Valid() && isSparse && idx < |chunks|
      modifies this
      ensures Valid() && isSparse && filePos == 0 && blockSize == old(blockSize) && numTotalChunks <= old(numTotalChunks)
      ensures old(chunks[idx].outputOffset) <= |old(Image())|
      ensures Image() == old(Image())[..old(chunks[idx].outputOffset)]
    {
      hide EncodeImage, EncodeHeader, EncodeParts, Bytes, Chunks, Expand, Content, WriteAt, Le32, EncodePart, ValidPart, TotalBlocks;
      ChunkAt(parts, blockSize, HEADER_SIZE, 0, idx);
      PartInPlace(parts, blockSize, idx);
      ghost var np := parts[..idx];
      ChunkSizes(np, idx);
      CutImage(blockSize, checksum, parts, idx);
      BlocksOfPrefix(parts, idx);
      ghost var image := Image();
      Prefix(Expand(np, blockSize), Content(parts[idx], blockSize) + Expand(parts[idx + 1..], blockSize));
      Regroup(Expand(np, blockSize), Content(parts[idx], blockSize), Expand(parts[idx + 1..], blockSize));
      var truncateAt := chunks[idx].chunkOffset;
      numTotalChunks := idx;
      numTotalBlocks := CountBlocks(Sizes(idx), np);
      file := WriteAt(file, 16, Le32(numTotalBlocks) + Le32(numTotalChunks));
      file := file[..truncateAt];
      Reload(np);
    }

    /** The output sizes of the first n chunks. */
    function Sizes(n: nat): (r: seq<nat>)
      requires n <= |chunks|
      reads this
      ensures |r| == n
      ensures forall i :: 0 <= i < n ==> r[i] == chunks[i].outputSize
    {
      seq(n, i requires 0 <= i < n <= |chunks| reads this => chunks[i].outputSize)
    }

    lemma ChunkSizes(ps: seq<Part>, n: nat)
      requires Valid() && isSparse && n <= |chunks| && ps == parts[..n]
      ensures forall i :: 0 <= i < n ==> chunks[i].outputSize == Bytes(ps[i].blocks, blockSize)
    {
      hide EncodeImage, EncodeParts, Bytes, Chunks, Expand, ValidPart, TotalBlocks;
      forall i | 0 <= i < n
        ensures chunks[i].outputSize == Bytes(ps[i].blocks, blockSize)
      {
        ChunkAt(parts, blockSize, HEADER_SIZE, 0, i);
      }
    }

    lemma OffsetIsWhole(idx: nat, size: nat)
      requires Valid() && isSparse && idx < |chunks| && Whole(size, blockSize) && chunks[idx].outputOffset <= size
      ensures Whole(size - chunks[idx].outputOffset, blockSize)
    {
      hide EncodeImage, EncodeParts, Bytes, Chunks, Expand, TotalBlocks, Content, ValidPart;
      ChunkAt(parts, blockSize, HEADER_SIZE, 0, idx);
      var before := parts[..idx];
      ExpandLength(before, blockSize);
      WholeDifference(size, TotalBlocks(before), blockSize);
    }

    lemma TrimmedCounts(idx: nat, q: Part)
      requires Valid() && isSparse && idx < |chunks| && Shortens(q, parts[idx], blockSize)
      ensures ValidImage(blockSize, checksum, parts[..idx] + [q])
    {
      hide EncodeImage, EncodeParts, Bytes, Chunks, Expand, EncodePart, Content, ValidPart;
      assert parts[..idx + 1] == parts[..idx] + [parts[idx]];
      EncodeSplit(parts[..idx], [parts[idx]]);
      EncodeSplit(parts[..idx], [q]);
      SinglePart(q, blockSize);
      SinglePart(parts[idx], blockSize);
      BlocksOfPrefix(parts, idx + 1);
    }

    lemma TrimmedExpansion(idx: nat, q: Part, n: nat)
      requires Valid() && isSparse && idx < |chunks| && Shortens(q, parts[idx], blockSize)
      requires ValidPart(q, blockSize) && n <= |Content(parts[idx], blockSize)|
      requires Content(q, blockSize) == Content(parts[idx], blockSize)[..n]
      ensures ValidParts(parts[..idx] + [q], blockSize)
      ensures chunks[idx].outputOffset + n <= |Image()|
      ensures Expand(parts[..idx] + [q], blockSize) == Image()[..chunks[idx].outputOffset + n]
    {
      hide EncodeImage, EncodeParts, Bytes, Chunks, Expand, EncodePart, Content, ValidPart, TotalBlocks;
      ChunkAt(parts, blockSize, HEADER_SIZE, 0, idx);
      PartInPlace(parts, blockSize, idx);
      assert ValidPart(parts[idx], blockSize);
      ExpandSplit(parts[..idx], [q], blockSize);
      SinglePart(q, blockSize);
      PrefixOfMiddle(Expand(parts[..idx], blockSize), Content(parts[idx], blockSize), Expand(parts[idx + 1..], blockSize), n);
    }

    /** Cuts a sparse file inside a chunk, whose head is rewritten. */
    method TrimAt(idx: nat, size: nat)
      requires Valid() && isSparse && idx < |chunks| && Whole(size, blockSize)
      requires chunks[idx].outputOffset < size < chunks[idx].outputOffset + chunks[idx].outputSize
      modifies this
      ensures Valid() && isSparse && filePos == 0 && blockSize == old(blockSize) && numTotalChunks <= old(numTotalChunks)
      ensures size <= |old(Image())| && Image() == old(Image())[..size]
    {
      hide EncodeImage, EncodeHeader, EncodeParts, Bytes, Chunks, Expand, Content, WriteAt, Le32, EncodePart, ValidPart, TotalBlocks,
           PartHead;
      var chunk := chunks[idx];
      var numToKeep := size - chunk.outputOffset;
      OffsetIsWhole(idx, size);
      WholeBlocks(numToKeep, blockSize);
      ChunkAt(parts, blockSize, HEADER_SIZE, 0, idx);
      ghost var q := Remainder(parts[idx], numToKeep / blockSize, numToKeep);
      ghost var np := parts[..idx] + [q];
      RemainderShortens(parts[idx], blockSize, numToKeep / blockSize, numToKeep);
      TrimmedCounts(idx, q);
      TrimmedExpansion(idx, q, numToKeep);
      ChunkSizes(parts[..idx], idx);
      TrimImage(blockSize, checksum, parts, idx, q);
      var dataSize := match chunk.kind case Raw => numToKeep case Fill => 4 case DontCare => 0;
      var truncateAt := chunk.chunkOffset + CHUNK_HEADER_SIZE + dataSize;
      file := WriteAt(file, chunk.chunkOffset, PartHead(chunk.kind, 0, numToKeep / blockSize, dataSize));
      numTotalChunks := idx + 1;
      numTotalBlocks := CountBlocks(Sizes(idx) + [numToKeep], np);
      file := WriteAt(file, 16, Le32(numTotalBlocks) + Le32(numTotalChunks));
      file := file[..truncateAt];
      Reload(np);
    }

    /** Cuts a sparse image at or inside a chunk. */
    method Shrink(size: nat)
      requires Valid() && isSparse && size < imageSize && Whole(size, blockSize)
      modifies this
      ensures Valid() && isSparse && filePos == 0 && blockSize == old(blockSize) && numTotalChunks <= old(numTotalChunks)
      ensures size <= |old(Image())| && Image() == old(Image())[..size]
    {
      hide Valid, Image;
      ImageSizeIs();
      HasChunks();
      var r := BisectRight(Offsets(), size);
      StartChunkOf(r, size);
      var idx := r - 1;
      if chunks[idx].outputOffset != size {
        TrimAt(idx, size);
      } else {
        CutAt(idx);
      }
    }

    /**
     Cuts the image or fills it up with a hole. A sparse image only takes
     multiples of its block size; a flat one is cut to any size, but the
     operation fails when it cannot be read again.
     */
    method Truncate(size: nat) returns (ok: bool)
      requires Valid() && (size > imageSize ==> Fits(size - imageSize, 0))
      modifies this
      ensures ok <==> !readOnly && if old(isSparse) then Whole(size, old(blockSize)) else size >= HEADER_SIZE
      ensures var done := !readOnly && (old(isSparse) ==> Whole(size, old(blockSize)));
              && (!done ==> unchanged(this))
              && (done ==>
                    && Valid() && isSparse == old(isSparse) && blockSize == old(blockSize)
                    && (isSparse ==> numTotalChunks <= old(numTotalChunks) + 1)
                    && Image() == Resized(old(Image()), size)
                    && filePos == if old(isSparse) && size == old(imageSize) then old(filePos) else 0)
    {
      hide Fits, Valid, Image;
      if readOnly {
        return false;
      }
      if !isSparse {
        ok := TruncateFlat(size);
        return;
      }
      if !Whole(size, blockSize) {
        return false;
      }
      ImageSizeIs();
      if size == imageSize {
        ok := true;
      } else if size < imageSize {
        Shrink(size);
        ok := true;
      } else {
        GapIsWhole(size);
        ok := AppendDontCare(size - imageSize);
      }
    }

    /** Cuts or extends a flat file, and fails when the rest has no room for a header. */
    method TruncateFlat(size: nat) returns (ok: bool)
      requires Valid() && !isSparse
      modifies this
      ensures ok <==> size >= HEADER_SIZE
      ensures Valid() && !isSparse && filePos == 0 && blockSize == old(blockSize) && Image() == Resized(old(Image()), size)
    {
      hide Value32;
      ResizedNoMagic(file, size);
      file := Resized(file, size);
      ok := ReadHeader();
    }
  }

  /** Zeros do not complete the magic number, whose last byte is not zero. */
  lemma ZerosNoMagic(file: seq<Byte>, n: nat)
    requires NoMagic(file)
    ensures NoMagic(file + Zeros(n))
  {
    var more := file + Zeros(n);
    if |file| >= 4 {
      assert more[0..4] == file[0..4];
    } else if |more| >= 4 {
      assert more[0..4][3] == 0;
    }
  }

  lemma ResizedNoMagic(file: seq<Byte>, size: nat)
    requires NoMagic(file)
    ensures NoMagic(Resized(file, size))
  {
    if size > |file| {
      ZerosNoMagic(file, size - |file|);
    } else if size >= 4 {
      assert file[..size][0..4] == file[0..4];
    }
  }

  /** Updating the counts and appending such a part gives a file that is refused. */
  lemma RaggedFile(bs: nat, checksum: nat, parts: seq<Part>, data: seq<Byte>, blocks: nat)
    requires ValidImage(bs, checksum, parts) && Bytes(blocks, bs) != |data| && |data| + CHUNK_HEADER_SIZE < WORD
    requires TotalBlocks(parts) + blocks < WORD && |parts| + 1 < WORD
    ensures var file := EncodeImage(bs, checksum, parts);
            var counted := WriteAt(file, 16, Le32(TotalBlocks(parts) + blocks) + Le32(|parts| + 1));
            && |counted| == |file| >= HEADER_SIZE
            && Parse(WriteAt(counted, |file|, PartHead(Raw, 0, blocks, |data|) + data)) == Invalid
  {
    hide *;
    var all, count := TotalBlocks(parts) + blocks, |parts| + 1;
    var part := PartHead(Raw, 0, blocks, |data|) + data;
    CountsOfImage(bs, checksum, parts, all, count);
    RaggedImage(bs, checksum, parts, data, blocks);
    var counted := EncodeHeader(bs, all, count, checksum) + EncodeParts(parts);
    WriteAtEnd(counted, part);
    Regroup(EncodeHeader(bs, all, count, checksum), EncodeParts(parts), part);
  }

  lemma BlocksBelow(n: nat, bs: nat)
    requires bs >= 1
    ensures Bytes(n / bs, bs) <= n && (Whole(n, bs) <==> Bytes(n / bs, bs) == n)
  {
  }

  /** What remains of a part of which k blocks, n bytes, are kept. */
  ghost function Remainder(p: Part, k: nat, n: nat): Part {
    Part(p.kind, 0, k, if p.kind == Raw && n <= |p.payload| then p.payload[..n] else p.payload)
  }

  lemma RemainderShortens(p: Part, bs: nat, k: nat, n: nat)
    requires bs >= 1 && ValidPart(p, bs) && Bytes(k, bs) == n <= Bytes(p.blocks, bs)
    ensures var q := Remainder(p, k, n);
            && Shortens(q, p, bs) && Bytes(q.blocks, bs) == n
            && Content(q, bs) == Content(p, bs)[..n]
            && |q.payload| == (match q.kind case Raw => n case Fill => 4 case DontCare => 0)
            && q.kind == p.kind && q.reserved == 0 && q.blocks == k
  {
    hide Bytes, Content;
    FewerBlocks(k, p.blocks, bs);
    TrimContent(p, Remainder(p, k, n), bs);
  }

  lemma FewerBlocks(a: nat, b: nat, bs: nat)
    requires bs >= 1 && Bytes(a, bs) <= Bytes(b, bs)
    ensures a <= b
  {
    if a > b {
      Bits.MulMono(b + 1, a, bs);
    }
  }

  lemma WholeDifference(size: nat, blocks: nat, bs: nat)
    requires bs >= 1 && Whole(size, bs) && Bytes(blocks, bs) <= size
    ensures Whole(size - Bytes(blocks, bs), bs)
  {
    var q := size / bs;
    Bits.ModUnique(size - Bytes(blocks, bs), bs, q - blocks, 0);
  }

  lemma PrefixOfMiddle(a: seq<Byte>, c: seq<Byte>, b: seq<Byte>, n: nat)
    requires n <= |c|
    ensures (a + c + b)[..|a| + n] == a + c[..n]
  {
  }

  lemma WriteAtEnd(file: seq<Byte>, data: seq<Byte>)
    ensures WriteAt(file, |file|, data) == file + data
  {
  }

  lemma Join(s: seq<Byte>, a: nat, b: nat, c: nat)
    requires a <= b <= c <= |s|
    ensures s[a..b] + s[b..c] == s[a..c]
  {
  }

  lemma Prefix(a: seq<Byte>, b: seq<Byte>)
    ensures (a + b)[..|a|] == a && |a| <= |a + b|
  {
  }

  /** A multiple of the block size is its number of blocks times the block size. */
  lemma WholeBlocks(n: nat, bs: nat)
    requires bs >= 1 && Whole(n, bs)
    ensures n / bs >= 0 && Bytes(n / bs, bs) == n
  {
  }

  lemma BlocksOf(blocks: nat, bs: nat)
    requires bs >= 1
    ensures Bytes(blocks, bs) / bs == blocks && Whole(Bytes(blocks, bs), bs)
  {
    Bits.ModUnique(Bytes(blocks, bs), bs, blocks, 0);
  }

  lemma BlocksOfPrefix(parts: seq<Part>, idx: nat)
    requires idx <= |parts|
    ensures TotalBlocks(parts[..idx]) <= TotalBlocks(parts)
  {
    assert parts == parts[..idx] + parts[idx..];
    EncodeSplit(parts[..idx], parts[idx..]);
  }

  lemma ZeroContent(n: nat, bs: nat)
    requires bs >= 1 && Bytes(n / bs, bs) == n
    requires ValidPart(Part(DontCare, 0, n / bs, []), bs)
    ensures Content(Part(DontCare, 0, n / bs, []), bs) == Zeros(n)
  {
  }

  lemma FillContent(fill: seq<Byte>, n: nat, bs: nat)
    requires bs >= 1 && n % 4 == 0 && |fill| == 4 && Bytes(n / bs, bs) == n
    requires ValidPart(Part(Fill, 0, n / bs, fill), bs)
    ensures Content(Part(Fill, 0, n / bs, fill), bs) == Repeat(fill, n / 4)
  {
    hide Bytes;
  }

  lemma Middle(a: seq<Byte>, c: seq<Byte>, b: seq<Byte>, off: nat, n: nat)
    requires off + n <= |c|
    ensures (a + c + b)[|a| + off..|a| + off + n] == c[off..off + n]
  {
  }

  function Repeat(s: seq<Byte>, n: nat): (r: seq<Byte>)
    requires |s| == 4
    ensures |r| == 4 * n
    ensures forall i :: 0 <= i < 4 * n ==> r[i] == s[i % 4]
  {
    seq(4 * n, i requires 0 <= i => s[i % 4])
  }

  lemma RawBytes(file: seq<Byte>, h: seq<Byte>, a: seq<Byte>, p: Part, b: seq<Byte>, off: nat, n: nat)
    requires file == h + (a + EncodePart(p) + b) && off + n <= |p.payload|
    ensures var start := |h| + |a| + CHUNK_HEADER_SIZE + off;
            start + n <= |file| && file[start..start + n] == p.payload[off..off + n]
  {
    hide PartHead;
    var start := |h| + |a| + CHUNK_HEADER_SIZE;
    assert file == h + a + PartHead(p.kind, p.reserved, p.blocks, |p.payload|) + (p.payload + b);
    assert file[start..] == p.payload + b;
    assert file[start + off..start + off + n] == file[start..][off..off + n] == p.payload[off..off + n];
  }

  lemma RawContent(p: Part, bs: nat)
    requires ValidPart(p, bs) && p.kind == Raw
    ensures Content(p, bs) == p.payload
  {
  }

  lemma HoleBytes(p: Part, bs: nat, off: nat, n: nat)
    requires ValidPart(p, bs) && p.kind == DontCare && off + n <= Bytes(p.blocks, bs)
    ensures Zeros(n) == Content(p, bs)[off..off + n]
  {
    hide Bytes;
  }

  lemma FillBytes(p: Part, bs: nat, off: nat, n: nat)
    requires ValidPart(p, bs) && p.kind == Fill && off + n <= Bytes(p.blocks, bs)
    ensures off % 4 + n <= 4 * (n / 4 + 2)
    ensures Repeat(p.payload, n / 4 + 2)[off % 4..off % 4 + n] == Content(p, bs)[off..off + n]
  {
    hide Bytes;
    var x, y := Repeat(p.payload, n / 4 + 2)[off % 4..off % 4 + n], Content(p, bs)[off..off + n];
    forall i | 0 <= i < n
      ensures x[i] == y[i]
    {
      FillByte(p, bs, off, n, i);
    }
  }

  lemma FillByte(p: Part, bs: nat, off: nat, n: nat, i: nat)
    requires ValidPart(p, bs) && p.kind == Fill && off + n <= Bytes(p.blocks, bs) && i < n
    ensures off % 4 + n <= 4 * (n / 4 + 2)
    ensures Repeat(p.payload, n / 4 + 2)[off % 4 + i] == Content(p, bs)[off + i]
  {
    hide Bytes;
    assert (off % 4 + i) % 4 == (off + i) % 4;
  }
}
