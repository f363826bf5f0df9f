/**
 The bytes of a blob by position and value, as sections 5.2 to 5.6 of the
 Devicetree Specification lay them out, without the functions that emit them.
 */
module DtLayout {
  import opened BigEndian
  import opened CText
  import opened LiveTree
  import opened DtFormat
  import opened DtRoundTrip
  import opened DtBlob

  predicate ZerosFrom(b: seq<Byte>, start: nat, end: nat) {
    start <= end <= |b| && forall i :: start <= i < end ==> b[i] == 0
  }

  /** Number of words in the header of a version. */
  function HeaderCount(version: int): nat {
    if version == 1 then 7 else if version == 2 then 8 else if version == 17 then 10 else 9
  }

  /** Where the reservations start: behind the header, at a multiple of 8. */
  function ReserveStart(version: int): nat {
    if version <= 2 then 32 else 40
  }

  /** The words of the header, at four times their number. */
  predicate HeaderLaid(b: seq<Byte>, version: int, dtOff: nat, strOff: nat, boot: nat, dtSize: nat, strSize: nat)
  {
    && DigitsAt(b, 0, 4, 0xd00d_feed)
    && DigitsAt(b, 4, 4, |b|)
    && DigitsAt(b, 8, 4, dtOff)
    && DigitsAt(b, 12, 4, strOff)
    && DigitsAt(b, 16, 4, ReserveStart(version))
    && DigitsAt(b, 20, 4, if version >= 0 then version else 0)
    && DigitsAt(b, 24, 4, if version < 16 then 1 else 16)
    && (version >= 2 ==> DigitsAt(b, 28, 4, boot))
    && (version >= 3 ==> DigitsAt(b, 32, 4, strSize))
    && (version >= 17 ==> DigitsAt(b, 36, 4, dtSize))
    && ZerosFrom(b, 4 * HeaderCount(version), ReserveStart(version))
  }

  /** Sixteen bytes for each reservation from a position on: address, then size. */
  predicate ReservesLaid(b: seq<Byte>, pos: nat, rs: seq<Reserve>) {
    forall i :: 0 <= i < |rs| ==>
      DigitsAt(b, pos + 16 * i, 8, rs[i].address) && DigitsAt(b, pos + 16 * i + 8, 8, rs[i].size)
  }

  /** Header, reservations with empty slots and a terminating one, structure, strings, padding. */
  predicate Laid(b: seq<Byte>, version: int, rs: seq<Reserve>, slots: nat, boot: nat, dt: seq<Byte>, strs: seq<Byte>) {
    var start := ReserveStart(version);
    var dtOff := start + 16 * (|rs| + slots + 1);
    var strOff := dtOff + |dt|;
    && HeaderLaid(b, version, dtOff, strOff, boot, |dt|, |strs|)
    && ReservesLaid(b, start, rs) && ZerosFrom(b, start + 16 * |rs|, dtOff)
    && strOff + |strs| <= |b| && b[dtOff..strOff] == dt && b[strOff..strOff + |strs|] == strs
    && ZerosFrom(b, strOff + |strs|, |b|)
  }

  // ----- The blob is laid out so

  lemma DigitsStay(a: seq<Byte>, b: seq<Byte>, off: nat, pos: nat, n: nat, v: nat)
    requires off + |a| <= |b| && b[off..off + |a|] == a && DigitsAt(a, pos, n, v)
    ensures DigitsAt(b, off + pos, n, v)
  {
    hide Digit;
    forall i | off + pos <= i < off + pos + n
      ensures b[i] == Digit(v, off + pos + n - 1 - i)
    {
      assert b[i] == b[off..off + |a|][i - off] == a[i - off];
    }
  }

  lemma WordLaid(ws: seq<nat>, b: seq<Byte>, i: nat)
    requires i < |ws| && Cells(ws) <= b
    ensures DigitsAt(b, 4 * i, 4, ws[i])
  {
    hide *;
    CellLaid(ws, i);
    DigitsInPrefix(Cells(ws), b, 4 * i, ws[i]);
  }

  lemma DigitsInPrefix(a: seq<Byte>, b: seq<Byte>, pos: nat, v: nat)
    requires a <= b && DigitsAt(a, pos, 4, v)
    ensures DigitsAt(b, pos, 4, v)
  {
    hide Digit;
  }

  lemma {:induction false} CellLaid(ws: seq<nat>, i: nat)
    requires i < |ws|
    ensures DigitsAt(Cells(ws), 4 * i, 4, ws[i])
  {
    hide Cell, Digit;
    var head, rest := Cell(ws[0]), Cells(ws[1..]);
    assert Cells(ws) == head + rest;
    if i == 0 {
      CellDigits(ws[0]);
    } else {
      CellLaid(ws[1..], i - 1);
      forall j | 4 * i <= j < 4 * i + 4
        ensures Cells(ws)[j] == Digit(ws[i], 4 * i + 3 - j)
      {
        assert Cells(ws)[j] == rest[j - 4];
      }
    }
  }

  lemma {:induction false} ReservesLength(rs: seq<Reserve>)
    ensures |EmitReserves(rs)| == 16 * |rs|
  {
    if rs != [] {
      ReservesLength(rs[1..]);
    }
  }

  lemma {:induction false} EmittedReserve(rs: seq<Reserve>, i: nat)
    requires i < |rs|
    ensures |EmitReserves(rs)| == 16 * |rs|
    ensures DigitsAt(EmitReserves(rs), 16 * i, 8, rs[i].address) && DigitsAt(EmitReserves(rs), 16 * i + 8, 8, rs[i].size)
  {
    hide Cell64, Digit, DigitsAt;
    var e, a, s := EmitReserves(rs), Cell64(rs[0].address), Cell64(rs[0].size);
    ReservesLength(rs);
    assert e == a + s + EmitReserves(rs[1..]);
    if i == 0 {
      Cell64Digits(rs[0].address);
      Cell64Digits(rs[0].size);
      assert e[0..8] == a && e[8..16] == s;
      DigitsStay(a, e, 0, 0, 8, rs[0].address);
      DigitsStay(s, e, 8, 0, 8, rs[0].size);
    } else {
      var rest := EmitReserves(rs[1..]);
      EmittedReserve(rs[1..], i - 1);
      assert e[16..16 + |rest|] == rest;
      DigitsStay(rest, e, 16, 16 * (i - 1), 8, rs[i].address);
      DigitsStay(rest, e, 16, 16 * (i - 1) + 8, 8, rs[i].size);
    }
  }

  lemma HeaderIsLaid(b: seq<Byte>, version: int, v: Version, rsSize: nat, dtSize: nat, strSize: nat, boot: nat)
    requires VersionInfo(version) == Some(v)
    requires EmitAlign8(Cells(HeaderWords(v, |b|, rsSize, dtSize, strSize, boot))) <= b
    ensures ReserveOffset(v) == ReserveStart(version) <= |b|
    ensures HeaderLaid(b, version, ReserveStart(version) + rsSize, ReserveStart(version) + rsSize + dtSize, boot, dtSize, strSize)
  {
    hide DigitsAt, Cells, Cell;
    var ws := HeaderWords(v, |b|, rsSize, dtSize, strSize, boot);
    var h := EmitAlign8(Cells(ws));
    HeaderLength(version, v, |b|, rsSize, dtSize, strSize, boot);
    assert Cells(ws) <= h <= b;
    WordLaid(ws, b, 0);
    WordLaid(ws, b, 1);
    WordLaid(ws, b, 2);
    WordLaid(ws, b, 3);
    WordLaid(ws, b, 4);
    WordLaid(ws, b, 5);
    WordLaid(ws, b, 6);
    if version >= 2 {
      WordLaid(ws, b, 7);
    }
    if version >= 3 {
      WordLaid(ws, b, 8);
    }
    if version >= 17 {
      WordLaid(ws, b, 9);
    }
    forall i | |Cells(ws)| <= i < |h|
      ensures b[i] == 0
    {
      assert b[i] == h[i];
    }
  }

  /** Every blob that is written has this layout, for any version, slots and padding. */
  lemma BlobIsLaid(d: DtInfo, version: int, v: Version, slots: nat, pad: nat)
    requires VersionInfo(version) == Some(v)
    ensures var o := Blocks(d.tree, v); Laid(Blob(d, v, slots, pad), version, d.reserves, slots, d.bootCpuid, o.dt, o.strs)
  {
    hide Blocks, HeaderWords, EmitReserves, VersionInfo, Cells, Align8, Header, EmitAlign8, Zeros, HeaderLaid, Digit, DigitsAt;
    var o, r, b := Blocks(d.tree, v), ReserveBlock(d.reserves, slots), Blob(d, v, slots, pad);
    var ws := HeaderWords(v, TotalSize(d, v, slots, pad), |r|, |o.dt|, |o.strs|, d.bootCpuid);
    HeaderLength(version, v, TotalSize(d, v, slots, pad), |r|, |o.dt|, |o.strs|, d.bootCpuid);
    HeaderIsCells(d, v, slots, pad);
    var h := EmitAlign8(Cells(ws));
    CutParts(h, r, o.dt, o.strs, Zeros(pad));
    HeaderIsLaid(b, version, v, |r|, |o.dt|, |o.strs|, d.bootCpuid);
    ReservesLength(d.reserves);
    var start := ReserveStart(version);
    SlicesOf(b, h, r, o.dt, o.strs, Zeros(pad));
    ReserveBlockLaid(b, start, d.reserves, slots);
  }

  lemma SlicesOf(b: seq<Byte>, h: seq<Byte>, r: seq<Byte>, d: seq<Byte>, s: seq<Byte>, z: seq<Byte>)
    requires b == h + r + d + s + z && forall i :: 0 <= i < |z| ==> z[i] == 0
    ensures var dtOff := |h| + |r|; var strOff := dtOff + |d|;
            && b[|h|..dtOff] == r && b[dtOff..strOff] == d && strOff + |s| <= |b| && b[strOff..strOff + |s|] == s
            && ZerosFrom(b, strOff + |s|, |b|)
  {
  }

  lemma ReserveBlockLaid(b: seq<Byte>, start: nat, rs: seq<Reserve>, slots: nat)
    requires var r := ReserveBlock(rs, slots); start + |r| <= |b| && b[start..start + |r|] == r
    ensures |ReserveBlock(rs, slots)| == 16 * (|rs| + slots + 1)
    ensures ReservesLaid(b, start, rs) && ZerosFrom(b, start + 16 * |rs|, start + 16 * (|rs| + slots + 1))
  {
    hide EmitReserves, Digit, DigitsAt, Zeros;
    ReservesLength(rs);
    var r, e := ReserveBlock(rs, slots), EmitReserves(rs);
    assert r[..|e|] == e;
    assert b[start..start + |e|] == b[start..start + |r|][..|e|] == e;
    forall i | 0 <= i < |rs|
      ensures DigitsAt(b, start + 16 * i, 8, rs[i].address) && DigitsAt(b, start + 16 * i + 8, 8, rs[i].size)
    {
      EmittedReserve(rs, i);
      DigitsStay(e, b, start, 16 * i, 8, rs[i].address);
      DigitsStay(e, b, start, 16 * i + 8, 8, rs[i].size);
    }
    forall i | start + 16 * |rs| <= i < start + |r|
      ensures b[i] == 0
    {
      assert b[i] == b[start..start + |r|][i - start] == r[i - start];
    }
  }

  // ----- Reading reservations

  /** Reservations of nonzero size and, behind them, one of size 0. */
  predicate ReservesListed(b: seq<Byte>, pos: nat, rs: seq<Reserve>) {
    && pos + 16 * (|rs| + 1) <= |b| && ReservesLaid(b, pos, rs)
    && (forall i :: 0 <= i < |rs| ==> rs[i].address < WORD * WORD && 0 < rs[i].size < WORD * WORD)
    && ZerosFrom(b, pos + 16 * |rs| + 8, pos + 16 * |rs| + 16)
  }

  lemma ZeroDigits(b: seq<Byte>)
    requires |b| == 8
    ensures Cell64Value(b) == 0 <==> ZerosFrom(b, 0, 8)
  {
    hide Cell64Value;
    Cell64ValueIs(b, 0);
    forall k: nat
      ensures Digit(0, k) == 0
    {
      ZeroDigit(k);
    }
  }

  lemma ZeroDigit(k: nat)
    ensures Digit(0, k) == 0
  {
  }

  lemma DigitsOfSlice(b: seq<Byte>, pos: nat, v: nat)
    requires pos + 8 <= |b|
    ensures DigitsAt(b[pos..pos + 8], 0, 8, v) <==> DigitsAt(b, pos, 8, v)
  {
    hide Digit;
    var s := b[pos..pos + 8];
    if DigitsAt(b, pos, 8, v) {
      forall i | 0 <= i < 8
        ensures s[i] == Digit(v, 7 - i)
      {
        assert s[i] == b[pos + i];
      }
    }
    if DigitsAt(s, 0, 8, v) {
      DigitsStay(s, b, pos, 0, 8, v);
    }
  }

  /** The reservations that are read are exactly those whose digits stand there. */
  lemma {:induction false} ReservesReadByDigits(b: seq<Byte>, pos: nat, rs: seq<Reserve>)
    requires pos <= |b|
    ensures ReadReserves(b, pos) == Some(rs) <==> ReservesListed(b, pos, rs)
    decreases |b| - pos
  {
    hide Cell64Value, DigitsAt;
    if pos + 16 <= |b| {
      var r := Reserve(Cell64Value(b[pos..pos + 8]), Cell64Value(b[pos + 8..pos + 16]));
      Cell64ValueDigits(b[pos..pos + 8]);
      Cell64ValueDigits(b[pos + 8..pos + 16]);
      ZeroDigits(b[pos + 8..pos + 16]);
      SizeIsZero(b, pos);
      if rs != [] {
        EntryIs(b, pos, rs[0]);
        FirstListed(b, pos, rs);
        if r.size != 0 {
          ReservesReadByDigits(b, pos + 16, rs[1..]);
          assert [rs[0]] + rs[1..] == rs;
        }
      }
    }
  }

  lemma SizeIsZero(b: seq<Byte>, pos: nat)
    requires pos + 16 <= |b|
    ensures ZerosFrom(b[pos + 8..pos + 16], 0, 8) <==> ZerosFrom(b, pos + 8, pos + 16)
  {
    var s := b[pos + 8..pos + 16];
    if ZerosFrom(s, 0, 8) {
      forall i | pos + 8 <= i < pos + 16
        ensures b[i] == 0
      {
        assert b[i] == s[i - pos - 8];
      }
    }
  }

  /** The entry that is read is r exactly when the digits of r stand there. */
  lemma EntryIs(b: seq<Byte>, pos: nat, r: Reserve)
    requires pos + 16 <= |b|
    ensures Reserve(Cell64Value(b[pos..pos + 8]), Cell64Value(b[pos + 8..pos + 16])) == r
            <==> r.address < WORD * WORD && r.size < WORD * WORD && DigitsAt(b, pos, 8, r.address) && DigitsAt(b, pos + 8, 8, r.size)
  {
    hide Cell64Value, DigitsAt;
    Cell64ValueDigits(b[pos..pos + 8]);
    Cell64ValueDigits(b[pos + 8..pos + 16]);
    DigitsOfSlice(b, pos, r.address);
    DigitsOfSlice(b, pos + 8, r.size);
    if r.address < WORD * WORD && r.size < WORD * WORD {
      Cell64ValueIs(b[pos..pos + 8], r.address);
      Cell64ValueIs(b[pos + 8..pos + 16], r.size);
    }
  }

  lemma FirstListed(b: seq<Byte>, pos: nat, rs: seq<Reserve>)
    requires rs != [] && pos + 16 <= |b|
    ensures ReservesListed(b, pos, rs) <==>
              && rs[0].address < WORD * WORD && 0 < rs[0].size < WORD * WORD
              && DigitsAt(b, pos, 8, rs[0].address) && DigitsAt(b, pos + 8, 8, rs[0].size)
              && ReservesListed(b, pos + 16, rs[1..])
  {
    hide DigitsAt;
    var rest := rs[1..];
    assert forall i :: 0 <= i < |rest| ==> rest[i] == rs[i + 1];
    if ReservesListed(b, pos, rs) {
      forall i | 0 <= i < |rest|
        ensures DigitsAt(b, pos + 16 + 16 * i, 8, rest[i].address) && DigitsAt(b, pos + 16 + 16 * i + 8, 8, rest[i].size)
      {
        assert DigitsAt(b, pos + 16 * (i + 1), 8, rs[i + 1].address);
      }
    }
    if ReservesListed(b, pos + 16, rest) && DigitsAt(b, pos, 8, rs[0].address) && DigitsAt(b, pos + 8, 8, rs[0].size) {
      forall i | 0 <= i < |rs|
        ensures DigitsAt(b, pos + 16 * i, 8, rs[i].address) && DigitsAt(b, pos + 16 * i + 8, 8, rs[i].size)
      {
        if i > 0 {
          assert rest[i - 1] == rs[i];
          assert DigitsAt(b, pos + 16 + 16 * (i - 1), 8, rest[i - 1].address);
        }
      }
    }
  }

  // ----- Reading any file

  /** Word i is x; behind the end of the blob it counts as 0. */
  predicate WordIs(b: seq<Byte>, i: nat, x: nat) {
    if 4 * i + 4 <= |b| then x < WORD && DigitsAt(b, 4 * i, 4, x) else x == 0
  }

  lemma HeaderWordIs(b: seq<Byte>, i: nat, x: nat)
    ensures HeaderWord(b, i) == x <==> WordIs(b, i, x)
  {
    hide CellValue, Digit;
    if 4 * i + 4 <= |b| && x < WORD {
      var s := b[4 * i..4 * i + 4];
      CellValueIs(s, x);
      if DigitsAt(s, 0, 4, x) {
        DigitsStay(s, b, 4 * i, 0, 4, x);
      }
      if DigitsAt(b, 4 * i, 4, x) {
        forall k | 0 <= k < 4
          ensures s[k] == Digit(x, 3 - k)
        {
          assert s[k] == b[4 * i + k];
        }
      }
    }
  }

  datatype Fields = Fields(total: nat, offDt: nat, offStr: nat, offRsv: nat, version: nat, strSize: nat, dtSize: nat)

  /** Everything the reader finds in order, and what it makes of the file. */
  predicate FileMeans(f: seq<Byte>, d: DtInfo, h: Fields) {
    && |f| >= 8 && DigitsAt(f, 0, 4, 0xd00d_feed) && WordIs(f, 1, h.total) && 28 <= h.total <= |f|
    && var b := f[..h.total];
       var strEnd := if h.version >= 3 then h.offStr + h.strSize else h.total;
       && WordIs(b, 2, h.offDt) && WordIs(b, 3, h.offStr) && WordIs(b, 4, h.offRsv) && WordIs(b, 5, h.version)
       && WordIs(b, 7, d.bootCpuid) && WordIs(b, 8, h.strSize) && WordIs(b, 9, h.dtSize)
       && h.offRsv < h.total && h.offDt < h.total && h.offStr <= strEnd <= h.total
       && (h.version >= 17 ==> h.offDt + h.dtSize <= h.total)
       && ReservesListed(b[h.offRsv..], 0, d.reserves)
       && ReadStructure(b[h.offDt..], b[h.offStr..strEnd], h.version < 16) == Some(d.tree)
  }

  function FieldsOf(f: seq<Byte>): (h: Fields) {
    var b := if HeaderWord(f, 1) <= |f| then f[..HeaderWord(f, 1)] else f;
    Fields(HeaderWord(f, 1), HeaderWord(b, 2), HeaderWord(b, 3), HeaderWord(b, 4), HeaderWord(b, 5), HeaderWord(b, 8), HeaderWord(b, 9))
  }

  lemma FieldsAre(f: seq<Byte>, h: Fields)
    requires h.total <= |f|
    ensures var b := f[..h.total];
            h == FieldsOf(f) <==>
              && WordIs(f, 1, h.total)
              && WordIs(b, 2, h.offDt) && WordIs(b, 3, h.offStr) && WordIs(b, 4, h.offRsv) && WordIs(b, 5, h.version)
              && WordIs(b, 8, h.strSize) && WordIs(b, 9, h.dtSize)
  {
    hide HeaderWord, WordIs;
    var b := f[..h.total];
    HeaderWordIs(f, 1, h.total);
    HeaderWordIs(b, 2, h.offDt);
    HeaderWordIs(b, 3, h.offStr);
    HeaderWordIs(b, 4, h.offRsv);
    HeaderWordIs(b, 5, h.version);
    HeaderWordIs(b, 8, h.strSize);
    HeaderWordIs(b, 9, h.dtSize);
  }

  lemma MagicIs(f: seq<Byte>)
    requires |f| >= 8
    ensures HeaderWord(f, 0) == 0xd00d_feed <==> DigitsAt(f, 0, 4, 0xd00d_feed)
  {
    hide HeaderWord, Digit;
    HeaderWordIs(f, 0, 0xd00d_feed);
  }

  /** A file is read as d exactly when these numbers, bounds and reservations stand in it. */
  lemma ReadByDigits(f: seq<Byte>, d: DtInfo)
    ensures ReadBlob(f) == Some(d) <==> FileMeans(f, d, FieldsOf(f))
    ensures forall h :: FileMeans(f, d, h) ==> h == FieldsOf(f)
  {
    hide HeaderWord, WordIs, DigitsAt, ReadReserves, ReadStructure, ReservesListed;
    forall h | FileMeans(f, d, h)
      ensures h == FieldsOf(f)
    {
      FieldsAre(f, h);
    }
    if |f| >= 8 {
      MagicIs(f);
      var h := FieldsOf(f);
      if h.total <= |f| {
        FieldsAre(f, h);
        var b := f[..h.total];
        HeaderWordIs(b, 7, d.bootCpuid);
        if h.offRsv < h.total {
          ReservesReadByDigits(b[h.offRsv..], 0, d.reserves);
        }
      }
    }
  }

  // ----- The structure block

  /** A node begins with 00 00 00 01 and its terminated name, and ends with 00 00 00 02. */
  lemma NodeLayout(o: Out, t: Tree, path: CString, v: Version)
    requires |o.dt| % 4 == 0
    ensures var text := if v.legacy then path else t.name;
            var head := NodeHead(o, text);
            var pad := (3 - |text| % 4) % 4;
            && head.dt == o.dt + [0, 0, 0, 1] + text + [0] + Zeros(pad)
            && var last := EmitKids(NodeProps(head, t, v), t.kids, path, v);
               EmitNode(o, t, path, v) == Out(last.dt + [0, 0, 0, 2], last.strs)
  {
    hide EmitKids, NodeProps, EmitNode, Zeros;
    EmitNodeStages(o, t, path, v);
    assert Cell(1) == [0, 0, 0, 1] && Cell(2) == [0, 0, 0, 2];
    var text := if v.legacy then path else t.name;
    var head := NodeHead(o, text);
    assert EmitCell(o.dt, BEGIN_NODE) == o.dt + [0, 0, 0, 1];
    var s := o.dt + [0, 0, 0, 1] + text + [0];
    assert EmitString(EmitCell(o.dt, BEGIN_NODE), text, 0) == s;
    PadLength(|o.dt|, |text|);
  }

  lemma PadLength(n: nat, len: nat)
    requires n % 4 == 0
    ensures Align4(n + 5 + len) - (n + 5 + len) == (3 - len % 4) % 4
  {
    var q, r := len / 4, len % 4;
    assert len == 4 * q + r && 0 <= r < 4;
    assert n == 4 * (n / 4);
    assert (n + 5 + len + 3) / 4 == n / 4 + q + 2;
  }

  /**
   A property is 00 00 00 03, the length of its value, the offset of its name,
   and the value, filled up to a multiple of 4. In old formats a value of 8
   bytes or more starts at a multiple of 8.
   */
  lemma PropLayout(o: Out, name: CString, val: seq<Byte>, v: Version)
    requires |o.dt| % 4 == 0
    ensures var r, off := EmitProp(o, name, val, v), FindString(o.strs, name, 0);
            var gap := if v.legacy && |val| >= 8 then GapTo8(|o.dt| + 12) else 0;
            && r.dt == o.dt + [0, 0, 0, 3] + Cell(|val|) + Cell(off) + Zeros(gap) + val + Zeros((4 - |val| % 4) % 4)
            && StringAt(r.strs, off, name)
  {
    hide InsertString, FindString, StringAt, Zeros, GapTo8;
    assert Cell(3) == [0, 0, 0, 3];
    hide Cell;
    var off := FindString(o.strs, name, 0);
    var head := PropHead(o.dt, |val|, off);
    assert head == o.dt + [0, 0, 0, 3] + Cell(|val|) + Cell(off);
    var place := PropPlace(o.dt, |val|, off, v.legacy);
    PlaceGap(o.dt, |val|, off, v.legacy);
    ValuePad(|place|, |val|);
  }

  /** The bytes missing up to a multiple of 8. */
  function GapTo8(n: nat): nat {
    (8 - n % 8) % 8
  }

  lemma PlaceGap(dt: seq<Byte>, len: nat, off: nat, legacy: bool)
    requires |dt| % 4 == 0
    ensures |PropHead(dt, len, off)| == |dt| + 12
    ensures PropPlace(dt, len, off, legacy)
            == PropHead(dt, len, off) + Zeros(if legacy && len >= 8 then GapTo8(|dt| + 12) else 0)
    ensures |PropPlace(dt, len, off, legacy)| % 4 == 0
  {
    hide PropHead, Zeros, Align8, GapTo8;
    HeadLength(dt, len, off);
    TwelveMore(|dt|);
    if legacy && len >= 8 {
      GapLength(|dt| + 12);
    } else {
      NoGap(PropHead(dt, len, off));
    }
  }

  lemma TwelveMore(n: nat)
    requires n % 4 == 0
    ensures (n + 12) % 4 == 0
  {
  }

  lemma HeadLength(dt: seq<Byte>, len: nat, off: nat)
    ensures |PropHead(dt, len, off)| == |dt| + 12
  {
    hide Cell;
  }

  lemma NoGap(b: seq<Byte>)
    ensures b + Zeros(0) == b
  {
  }

  lemma GapLength(n: nat)
    ensures Align8(n) == n + GapTo8(n) && Align8(n) % 4 == 0
  {
    var q, r := n / 8, n % 8;
    if r == 0 {
      Eighths(n + 7, q, 7);
      EightsAreFours(q);
    } else {
      Eighths(n + 7, q + 1, r - 1);
      EightsAreFours(q + 1);
    }
  }

  lemma Eighths(n: nat, q: nat, r: nat)
    requires n == 8 * q + r && r < 8
    ensures n / 8 == q
  {
  }

  lemma EightsAreFours(q: nat)
    ensures q * 8 % 4 == 0
  {
  }

  lemma ValuePad(n: nat, len: nat)
    requires n % 4 == 0
    ensures Align4(n + len) - (n + len) == (4 - len % 4) % 4
  {
    var q, r := len / 4, len % 4;
    assert len == 4 * q + r && 0 <= r < 4;
    assert n == 4 * (n / 4);
    assert (n + len + 3) / 4 == n / 4 + if r == 0 then q else q + 1;
  }

  /** The structure block ends with 00 00 00 09; that of a deleted root is nothing else. */
  lemma BlockEnd(t: Tree, v: Version)
    ensures Blocks(t, v).dt
            == (if t.deleted then [] else EmitNode(Out([], []), t, JoinPath([], t.name), v).dt) + [0, 0, 0, 9]
  {
    hide EmitNode, JoinPath;
    assert Cell(9) == [0, 0, 0, 9];
  }

  lemma NopSkipped(b: seq<Byte>, strs: seq<Byte>, pos: nat, flat: CString, legacy: bool, node: Tree)
    requires pos % 4 == 0 && pos + 4 <= |b| && b[pos..pos + 4] == [0, 0, 0, 4]
    ensures ReadBody(b, strs, pos, flat, legacy, node) == ReadBody(b, strs, pos + 4, flat, legacy, node)
  {
    hide ReadProp, ReadNode;
    assert ReadWord(b, pos) == Done(4, pos + 4);
  }

  /** Words 00 00 00 04 between the parts of a node are skipped. */
  lemma {:induction false} NopsSkipped(b: seq<Byte>, strs: seq<Byte>, pos: nat, n: nat, flat: CString, legacy: bool, node: Tree)
    requires pos % 4 == 0 && pos + 4 * n <= |b|
    requires forall i :: 0 <= i < n ==> b[pos + 4 * i..pos + 4 * i + 4] == [0, 0, 0, 4]
    ensures ReadBody(b, strs, pos, flat, legacy, node) == ReadBody(b, strs, pos + 4 * n, flat, legacy, node)
    decreases n
  {
    hide ReadProp, ReadNode, ReadBody;
    if n > 0 {
      assert b[pos + 4 * 0..pos + 4 * 0 + 4] == [0, 0, 0, 4];
      NopSkipped(b, strs, pos, flat, legacy, node);
      forall i | 0 <= i < n - 1
        ensures b[pos + 4 + 4 * i..pos + 4 + 4 * i + 4] == [0, 0, 0, 4]
      {
        assert b[pos + 4 * (i + 1)..pos + 4 * (i + 1) + 4] == [0, 0, 0, 4];
      }
      NopsSkipped(b, strs, pos + 4, n - 1, flat, legacy, node);
    }
  }
}
