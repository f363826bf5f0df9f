/** The whole blob: header, reservations, structure and strings, and their way back. */
module DtBlob {
  import opened BigEndian
  import opened CText
  import opened LiveTree
  import opened DtFormat
  import opened DtRoundTrip

  datatype Reserve = Reserve(address: nat, size: nat)

  datatype DtInfo = DtInfo(reserves: seq<Reserve>, tree: Tree, bootCpuid: nat)

  // ----- Writing

  function EmitReserves(rs: seq<Reserve>): seq<Byte> {
    if rs == [] then [] else Cell64(rs[0].address) + Cell64(rs[0].size) + EmitReserves(rs[1..])
  }

  /** The structure block, ended, and the strings block. */
  function Blocks(t: Tree, v: Version): Out {
    var o := if t.deleted then Out([], []) else EmitNode(Out([], []), t, JoinPath([], t.name), v);
    Out(EmitCell(o.dt, END), o.strs)
  }

  /** The reservations with the extra empty slots and the terminating one. */
  function ReserveBlock(rs: seq<Reserve>, slots: nat): seq<Byte> {
    EmitReserves(rs) + Zeros(16 * slots) + Zeros(16)
  }

  function ReserveOffset(v: Version): nat {
    Align8(v.hdrSize)
  }

  /** The words of the header; `total` is the size of the blob. */
  function HeaderWords(v: Version, total: nat, rsSize: nat, dtSize: nat, strSize: nat, boot: nat): seq<nat> {
    var off := ReserveOffset(v);
    [MAGIC, total, off + rsSize, off + rsSize + dtSize, off, v.version, v.lastComp]
    + (if v.bootCpuid then [boot] else []) + (if v.strtabSize then [strSize] else []) + (if v.structSize then [dtSize] else [])
  }

  function Cells(ws: seq<nat>): (b: seq<Byte>)
    ensures |b| == 4 * |ws|
  {
    if ws == [] then [] else Cell(ws[0]) + Cells(ws[1..])
  }

  function TotalSize(d: DtInfo, v: Version, slots: nat, pad: nat): nat {
    var o := Blocks(d.tree, v);
    ReserveOffset(v) + |ReserveBlock(d.reserves, slots)| + |o.dt| + |o.strs| + pad
  }

  function Header(d: DtInfo, v: Version, slots: nat, pad: nat): seq<Byte> {
    var o := Blocks(d.tree, v);
    Cells(HeaderWords(v, TotalSize(d, v, slots, pad), |ReserveBlock(d.reserves, slots)|, |o.dt|, |o.strs|, d.bootCpuid))
  }

  /** A blob with some empty reservation slots and `pad` zeros at the end. */
  function Blob(d: DtInfo, v: Version, slots: nat, pad: nat): seq<Byte> {
    var o := Blocks(d.tree, v);
    EmitAlign8(Header(d, v, slots, pad)) + ReserveBlock(d.reserves, slots) + o.dt + o.strs + Zeros(pad)
  }

  // ----- Reading

  /** Word i of the header; beyond the end of the blob its value is not determined. */
  function HeaderWord(b: seq<Byte>, i: nat): nat {
    if 4 * i + 4 <= |b| then CellValue(b[4 * i..4 * i + 4]) else 0
  }

  function ReadReserves(b: seq<Byte>, pos: nat): Option<seq<Reserve>>
    decreases |b| - pos
  {
    if pos + 16 > |b| then None
    else
      var r := Reserve(Cell64Value(b[pos..pos + 8]), Cell64Value(b[pos + 8..pos + 16]));
      if r.size == 0 then Some([])
      else
        var rest := ReadReserves(b, pos + 16);
        if rest.None? then None else Some([r] + rest.value)
  }

  function ReadStructure(b: seq<Byte>, strs: seq<Byte>, legacy: bool): Option<Tree> {
    var tag := ReadWord(b, 0);
    if tag.Fail? || tag.value != BEGIN_NODE then None
    else
      var t := ReadNode(b, strs, tag.pos, [], legacy);
      if t.Fail? then None
      else
        var end := ReadWord(b, t.pos);
        if end.Fail? || end.value != END then None else Some(t.value)
  }

  /** What becomes of the bytes of a file; None where the original gives up. */
  function ReadBlob(f: seq<Byte>): Option<DtInfo> {
    if |f| < 8 || HeaderWord(f, 0) != MAGIC then None
    else
      var total := HeaderWord(f, 1);
      if total < 28 || |f| < total then None
      else
        var b := f[..total];
        var offDt, offStr, offRsv := HeaderWord(b, 2), HeaderWord(b, 3), HeaderWord(b, 4);
        var version := HeaderWord(b, 5);
        var strEnd := if version >= 3 then offStr + HeaderWord(b, 8) else total;
        if offRsv >= total || offDt >= total || offStr > total || strEnd > total then None
        else if version >= 17 && offDt + HeaderWord(b, 9) > total then None
        else
          var rs := ReadReserves(b[offRsv..], 0);
          var t := ReadStructure(b[offDt..], b[offStr..strEnd], version < 16);
          if rs.None? || t.None? then None else Some(DtInfo(rs.value, t.value, HeaderWord(b, 7)))
  }

  // ----- Round trip of the parts

  /** The reservations up to the first one of size 0. */
  function Leading(rs: seq<Reserve>): seq<Reserve> {
    if rs == [] || rs[0].size == 0 then [] else [rs[0]] + Leading(rs[1..])
  }

  ghost predicate Fits(rs: seq<Reserve>) {
    forall i :: 0 <= i < |rs| ==> rs[i].address < WORD * WORD && rs[i].size < WORD * WORD
  }

  lemma EntryReads(b: seq<Byte>, pos: nat, r: Reserve)
    requires r.address < WORD * WORD && r.size < WORD * WORD
    requires pos <= |b| && Cell64(r.address) + Cell64(r.size) <= b[pos..]
    ensures pos + 16 <= |b| && Cell64Value(b[pos..pos + 8]) == r.address && Cell64Value(b[pos + 8..pos + 16]) == r.size
  {
    hide Cell64, Cell64Value;
    var e := Cell64(r.address) + Cell64(r.size);
    assert b[pos..pos + 8] == b[pos..][..8] == e[..8] == Cell64(r.address);
    assert b[pos + 8..pos + 16] == b[pos..][8..16] == e[8..16] == Cell64(r.size);
    Cell64RoundTrip(r.address);
    Cell64RoundTrip(r.size);
  }

  lemma ZeroCell64()
    ensures Cell64(0) == Zeros(8)
  {
  }

  lemma {:induction false} ReservesRead(b: seq<Byte>, pos: nat, rs: seq<Reserve>)
    requires Fits(rs) && pos <= |b| && EmitReserves(rs) + Zeros(16) <= b[pos..]
    ensures ReadReserves(b, pos) == Some(Leading(rs))
    decreases rs
  {
    hide Cell64, Cell64Value;
    if rs == [] {
      ZeroCell64();
      assert Cell64(0) + Cell64(0) == [] + Zeros(16);
      EntryReads(b, pos, Reserve(0, 0));
    } else {
      var entry := Cell64(rs[0].address) + Cell64(rs[0].size);
      var more := EmitReserves(rs[1..]) + Zeros(16);
      assert EmitReserves(rs) + Zeros(16) == entry + more;
      assert entry <= entry + more <= b[pos..];
      EntryReads(b, pos, rs[0]);
      assert b[pos..][16..] == b[pos + 16..];
      assert (entry + more)[16..] == more;
      ReservesRead(b, pos + 16, rs[1..]);
    }
  }

  lemma {:induction false} CellsAt(ws: seq<nat>, i: nat)
    requires i < |ws| && ws[i] < WORD
    ensures CellValue(Cells(ws)[4 * i..4 * i + 4]) == ws[i]
  {
    hide Cell, CellValue;
    var head, rest := Cell(ws[0]), Cells(ws[1..]);
    assert Cells(ws) == head + rest;
    if i == 0 {
      CellRoundTrip(ws[0]);
      assert Cells(ws)[..4] == head;
    } else {
      CellsAt(ws[1..], i - 1);
      assert Cells(ws)[4 * i..4 * i + 4] == rest[4 * (i - 1)..4 * (i - 1) + 4];
    }
  }

  lemma ReserveBlockReads(b: seq<Byte>, rs: seq<Reserve>, slots: nat)
    requires Fits(rs) && ReserveBlock(rs, slots) <= b
    ensures ReadReserves(b, 0) == Some(Leading(rs))
  {
    hide EmitReserves, ReadReserves;
    var block := EmitReserves(rs) + Zeros(16);
    assert block == ReserveBlock(rs, slots)[..|block|];
    assert b[0..] == b;
    ReservesRead(b, 0, rs);
  }

  /** Names that a version can store, the root's included. */
  predicate Writable(t: Tree, v: Version) {
    WellNamed(t, v.legacy) && (v.legacy ==> t.name == [] || CleanName(t.name))
  }

  lemma RootPath(name: CString)
    requires NulFree(name) && (name == [] || CleanName(name))
    ensures CleanPath(JoinPath([], name)) && NameFromPath([], JoinPath([], name)) == Some(name)
  {
    var path := JoinPath([], name);
    assert path == [SLASH] + name;
    assert path[1..] == name;
    if name != [] {
      assert path[|path| - 1] == name[|name| - 1];
    }
  }

  lemma StructureReads(t: Tree, v: Version, b: seq<Byte>, strs: seq<Byte>)
    requires Writable(t, v) && Blocks(t, v).dt <= b && Blocks(t, v).strs <= strs
    requires |b| < WORD && |strs| < WORD
    ensures ReadStructure(b, strs, v.legacy)
            == if !t.deleted && Readable(t, v) then Some(Stored(t, v.legacy)) else None
  {
    hide EmitNode, ReadNode, ReadWord, Readable, Stored, JoinPath, NameFromPath, Cell, CleanPath;
    if t.deleted {
      CellReads([], END, b);
    } else {
      var path := JoinPath([], t.name);
      var o := EmitNode(Out([], []), t, path, v);
      assert o.dt <= EmitCell(o.dt, END) <= b;
      if v.legacy {
        WellNamedName(t);
        RootPath(t.name);
      }
      NodeReads(Out([], []), t, path, v, b, strs, []);
      CellReads(o.dt, END, b);
    }
  }

  lemma HeaderLength(version: int, v: Version, total: nat, rsSize: nat, dtSize: nat, strSize: nat, boot: nat)
    requires VersionInfo(version) == Some(v)
    ensures var ws := HeaderWords(v, total, rsSize, dtSize, strSize, boot);
            && 4 * |ws| == v.hdrSize && v.version == version
            && ws[0] == MAGIC && ws[1] == total
            && ws[2] == ReserveOffset(v) + rsSize && ws[3] == ReserveOffset(v) + rsSize + dtSize && ws[4] == ReserveOffset(v)
            && ws[5] == v.version && ws[6] == v.lastComp
            && (if v.bootCpuid then |ws| >= 8 && ws[7] == boot else v.hdrSize == 28)
            && (if v.version >= 3 then |ws| >= 9 && ws[8] == strSize else |ws| <= 8)
            && (if v.version >= 17 then |ws| == 10 && ws[9] == dtSize else |ws| <= 9)
            && (v.strtabSize <==> v.version >= 3) && (v.structSize <==> v.version >= 17)
            && (v.legacy <==> v.version < 16) && v.version < 18 && v.lastComp < 18
            && 28 <= v.hdrSize <= 40 && v.hdrSize % 4 == 0
  {
  }

  lemma HeaderReads(ws: seq<nat>, b: seq<Byte>, i: nat)
    requires i < |ws| && ws[i] < WORD && Cells(ws) <= b
    ensures HeaderWord(b, i) == ws[i]
  {
    hide Cells, CellValue;
    CellsAt(ws, i);
    assert b[4 * i..4 * i + 4] == Cells(ws)[4 * i..4 * i + 4];
  }

  /** The padding behind the shortest header reads as zero. */
  lemma ShortHeaderReads(h: seq<Byte>, b: seq<Byte>)
    requires |h| == 28 && EmitAlign8(h) <= b
    ensures HeaderWord(b, 7) == 0
  {
    assert EmitAlign8(h) == h + Zeros(4);
    assert b[28..32] == EmitAlign8(h)[28..32] == Zeros(4);
  }

  /** Four consecutive parts of a sequence can be cut out of it. */
  lemma CutParts(h: seq<Byte>, r: seq<Byte>, d: seq<Byte>, s: seq<Byte>, z: seq<Byte>)
    ensures var b := h + r + d + s + z;
            && h <= b && |b| == |h| + |r| + |d| + |s| + |z|
            && r <= b[|h|..] && d <= b[|h| + |r|..]
            && b[|h| + |r| + |d|..|h| + |r| + |d| + |s|] == s
            && s <= b[|h| + |r| + |d|..]
  {
    var b := h + r + d + s + z;
    assert b == h + (r + (d + (s + z)));
    assert b[|h|..] == r + (d + (s + z));
    assert b[|h| + |r|..] == d + (s + z);
    assert b[|h| + |r| + |d|..] == s + z;
  }

  /**
   A file that starts with a blob gives back the live tree in its order, the
   reservations up to the first empty one and, where the version stores it, the
   boot processor. The one exception are base names that old versions cannot
   store: then, and for a deleted root, nothing can be read.
   */
  lemma BlobReads(d: DtInfo, version: int, v: Version, slots: nat, pad: nat, f: seq<Byte>)
    requires VersionInfo(version) == Some(v) && Writable(d.tree, v) && Fits(d.reserves)
    requires TotalSize(d, v, slots, pad) < WORD && d.bootCpuid < WORD
    requires Blob(d, v, slots, pad) <= f
    ensures ReadBlob(f) ==
            if !d.tree.deleted && Readable(d.tree, v) then
              Some(DtInfo(Leading(d.reserves), Stored(d.tree, v.legacy), if v.bootCpuid then d.bootCpuid else 0))
            else None
  {
    hide Blocks, ReserveBlock, HeaderWords, HeaderWord, ReadReserves, ReadStructure, Readable, Stored, VersionInfo, Writable,
         Leading, Cells, Align8, Header, EmitAlign8, Zeros, Fits;
    var o, r, total := Blocks(d.tree, v), ReserveBlock(d.reserves, slots), TotalSize(d, v, slots, pad);
    var ws := HeaderWords(v, total, |r|, |o.dt|, |o.strs|, d.bootCpuid);
    HeaderLength(version, v, total, |r|, |o.dt|, |o.strs|, d.bootCpuid);
    var h := EmitAlign8(Cells(ws));
    HeaderIsCells(d, v, slots, pad);
    CutParts(h, r, o.dt, o.strs, Zeros(pad));
    var b := f[..total];
    assert b == Blob(d, v, slots, pad);
    assert Cells(ws) <= h <= b;
    FieldsRead(ws, b, f, version, v, total, |r|, |o.dt|, |o.strs|, d.bootCpuid);
    BlocksNotEmpty(d.tree, v);
    ReserveBlockReads(b[|h|..], d.reserves, slots);
    var strEnd := if version >= 3 then |h| + |r| + |o.dt| + |o.strs| else total;
    assert o.strs <= b[|h| + |r| + |o.dt|..strEnd];
    StructureReads(d.tree, v, b[|h| + |r|..], b[|h| + |r| + |o.dt|..strEnd]);
  }

  /** The fields of a header, read back from the blob b inside the file f. */
  lemma FieldsRead(ws: seq<nat>, b: seq<Byte>, f: seq<Byte>, version: int, v: Version, total: nat, rsSize: nat, dtSize: nat,
                   strSize: nat, boot: nat)
    requires VersionInfo(version) == Some(v) && ws == HeaderWords(v, total, rsSize, dtSize, strSize, boot)
    requires total < WORD && ReserveOffset(v) + rsSize + dtSize + strSize <= total && boot < WORD
    requires EmitAlign8(Cells(ws)) <= b <= f
    ensures HeaderWord(f, 0) == MAGIC && HeaderWord(f, 1) == total
    ensures HeaderWord(b, 2) == ReserveOffset(v) + rsSize && HeaderWord(b, 3) == ReserveOffset(v) + rsSize + dtSize
    ensures HeaderWord(b, 4) == ReserveOffset(v) && HeaderWord(b, 5) == version
    ensures HeaderWord(b, 7) == if v.bootCpuid then boot else 0
    ensures version >= 3 ==> HeaderWord(b, 8) == strSize
    ensures version >= 17 ==> HeaderWord(b, 9) == dtSize
  {
    hide HeaderWords, HeaderWord, VersionInfo, Cells, Align8, EmitAlign8;
    HeaderLength(version, v, total, rsSize, dtSize, strSize, boot);
    assert Cells(ws) <= EmitAlign8(Cells(ws)) <= b;
    HeaderReads(ws, f, 0);
    HeaderReads(ws, f, 1);
    HeaderReads(ws, b, 2);
    HeaderReads(ws, b, 3);
    HeaderReads(ws, b, 4);
    HeaderReads(ws, b, 5);
    if v.bootCpuid {
      HeaderReads(ws, b, 7);
    } else {
      ShortHeaderReads(Cells(ws), b);
    }
    if version >= 3 {
      HeaderReads(ws, b, 8);
    }
    if version >= 17 {
      HeaderReads(ws, b, 9);
    }
  }

  lemma HeaderIsCells(d: DtInfo, v: Version, slots: nat, pad: nat)
    ensures var o := Blocks(d.tree, v);
            Header(d, v, slots, pad)
            == Cells(HeaderWords(v, TotalSize(d, v, slots, pad), |ReserveBlock(d.reserves, slots)|, |o.dt|, |o.strs|, d.bootCpuid))
  {
  }

  lemma BlocksNotEmpty(t: Tree, v: Version)
    ensures |Blocks(t, v).dt| >= 4
  {
  }
}
