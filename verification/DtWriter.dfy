/** Flattening: the writer as it walks a live tree and appends to its buffers. */
module DtWriter {
  import opened BigEndian
  import opened CText
  import opened LiveTree
  import opened LiveNode
  import opened DtFormat
  import opened DtRoundTrip
  import opened DtData
  import opened DtBlob
  import opened DtLayout

  /** Two buffers that share nothing. */
  ghost predicate Separate(a: Data, b: Data)
    reads a, b
  {
    a.Valid() && b.Valid() && a != b && a.val != b.val
  }

  ghost function Written(dtbuf: Data, strbuf: Data): Out
    requires Separate(dtbuf, strbuf)
    reads dtbuf, dtbuf.val, strbuf, strbuf.val
  {
    Out(dtbuf.Contents(), strbuf.Contents())
  }

  /** The offset of a text in the table; the end of another one is shared. */
  method StringtableInsert(d: Data, s: CString) returns (off: nat)
    requires d.Valid()
    modifies d, d.val
    ensures d.Valid() && d.Contents() == InsertString(old(d.Contents()), s)
    ensures off == FindString(old(d.Contents()), s, 0)
    ensures d.val == old(d.val) || fresh(d.val)
  {
    hide StringAt;
    ghost var strs := d.Contents();
    for i := 0 to d.len
      invariant d.Valid() && d.val == old(d.val) && d.len == old(d.len) && d.Contents() == strs
      invariant FindString(strs, s, 0) == FindString(strs, s, i)
    {
      if StringAt(d.val[..d.len], i, s) {
        return i;
      }
    }
    off := d.len;
    d.AppendData(s + [0]);
    assert strs + (s + [0]) == strs + s + [0];
  }

  /** Tag, length and name offset, and the alignment of long values in old formats. */
  method EmitHead(dtbuf: Data, size: nat, nameoff: nat, legacy: bool)
    requires dtbuf.Valid()
    modifies dtbuf, dtbuf.val
    ensures dtbuf.Valid() && dtbuf.Contents() == PropPlace(old(dtbuf.Contents()), size, nameoff, legacy)
    ensures dtbuf.val == old(dtbuf.val) || fresh(dtbuf.val)
  {
    hide EmitCell, EmitAlign8, Data.Contents;
    dtbuf.AppendCell(PROP);
    dtbuf.AppendCell(size);
    dtbuf.AppendCell(nameoff);
    if legacy && size >= 8 {
      dtbuf.AppendAlign(true);
    }
  }

  method EmitValue(dtbuf: Data, val: seq<Byte>)
    requires dtbuf.Valid()
    modifies dtbuf, dtbuf.val
    ensures dtbuf.Valid() && dtbuf.Contents() == EmitAlign4(old(dtbuf.Contents()) + val)
    ensures dtbuf.val == old(dtbuf.val) || fresh(dtbuf.val)
  {
    hide EmitAlign4, Data.Contents;
    dtbuf.AppendData(val);
    dtbuf.AppendAlign(false);
  }

  method FlattenProperty(name: CString, val: seq<Byte>, dtbuf: Data, strbuf: Data, v: Version)
    requires Separate(dtbuf, strbuf)
    modifies dtbuf, dtbuf.val, strbuf, strbuf.val
    ensures Separate(dtbuf, strbuf) && Written(dtbuf, strbuf) == EmitProp(old(Written(dtbuf, strbuf)), name, val, v)
    ensures (dtbuf.val == old(dtbuf.val) || fresh(dtbuf.val)) && (strbuf.val == old(strbuf.val) || fresh(strbuf.val))
  {
    hide InsertString, FindString, PropPlace, EmitAlign4, Data.Contents;
    var nameoff := StringtableInsert(strbuf, name);
    EmitHead(dtbuf, |val|, nameoff, v.legacy);
    EmitValue(dtbuf, val);
  }

  /** The live properties of a node; reports whether one of them is called "name". */
  method FlattenProperties(props: seq<Prop>, dtbuf: Data, strbuf: Data, v: Version) returns (seenName: bool)
    requires Separate(dtbuf, strbuf)
    modifies dtbuf, dtbuf.val, strbuf, strbuf.val
    ensures Separate(dtbuf, strbuf) && Written(dtbuf, strbuf) == EmitProps(old(Written(dtbuf, strbuf)), props, v)
    ensures seenName == HasName(props)
    ensures (dtbuf.val == old(dtbuf.val) || fresh(dtbuf.val)) && (strbuf.val == old(strbuf.val) || fresh(strbuf.val))
  {
    hide EmitProp, Data.Contents, Written;
    ghost var o := Written(dtbuf, strbuf);
    seenName := false;
    assert props[0..] == props;
    for i := 0 to |props|
      invariant Separate(dtbuf, strbuf)
      invariant EmitProps(Written(dtbuf, strbuf), props[i..], v) == EmitProps(o, props, v)
      invariant seenName == HasName(props[..i])
      invariant (dtbuf.val == old(dtbuf.val) || fresh(dtbuf.val)) && (strbuf.val == old(strbuf.val) || fresh(strbuf.val))
    {
      assert props[i..][1..] == props[i + 1..];
      MoreNames(props, i);
      if !props[i].deleted {
        if props[i].name == NAME {
          seenName := true;
        }
        FlattenProperty(props[i].name, props[i].val, dtbuf, strbuf, v);
      }
    }
    assert props[..|props|] == props;
  }

  lemma MoreNames(props: seq<Prop>, i: nat)
    requires i < |props|
    ensures HasName(props[..i + 1]) <==> HasName(props[..i]) || (!props[i].deleted && props[i].name == NAME)
  {
    if HasName(props[..i]) {
      var j :| 0 <= j < i && !props[..i][j].deleted && props[..i][j].name == NAME;
      assert props[..i + 1][j] == props[j];
    }
    assert props[..i + 1][i] == props[i];
  }

  /** The name property that old formats need. */
  method FlattenName(name: CString, dtbuf: Data, strbuf: Data)
    requires Separate(dtbuf, strbuf)
    modifies dtbuf, dtbuf.val, strbuf, strbuf.val
    ensures Separate(dtbuf, strbuf) && Written(dtbuf, strbuf) == EmitNameProp(old(Written(dtbuf, strbuf)), name)
    ensures (dtbuf.val == old(dtbuf.val) || fresh(dtbuf.val)) && (strbuf.val == old(strbuf.val) || fresh(strbuf.val))
  {
    hide InsertString, FindString, PropPlace, EmitAlign4, EmitString, Data.Contents;
    var nameoff := StringtableInsert(strbuf, NAME);
    EmitHead(dtbuf, BaseLen(name) + 1, nameoff, true);
    dtbuf.EmitText(name, BaseLen(name));
    dtbuf.AppendAlign(false);
  }

  method FlattenBegin(name: CString, dtbuf: Data)
    requires dtbuf.Valid()
    modifies dtbuf, dtbuf.val
    ensures dtbuf.Valid()
    ensures dtbuf.Contents() == EmitAlign4(EmitString(EmitCell(old(dtbuf.Contents()), BEGIN_NODE), name, 0))
    ensures dtbuf.val == old(dtbuf.val) || fresh(dtbuf.val)
  {
    hide EmitCell, EmitAlign4, EmitString, Data.Contents;
    dtbuf.AppendCell(BEGIN_NODE);
    dtbuf.EmitText(name, 0);
    dtbuf.AppendAlign(false);
  }

  /** Name and properties of a node. */
  method FlattenFront(tree: Node, path: CString, dtbuf: Data, strbuf: Data, v: Version)
    requires Separate(dtbuf, strbuf)
    modifies dtbuf, dtbuf.val, strbuf, strbuf.val
    ensures Separate(dtbuf, strbuf)
    ensures var t := Tree(tree.name, false, [], tree.props, []);
            Written(dtbuf, strbuf)
            == NodeProps(NodeHead(old(Written(dtbuf, strbuf)), if v.legacy then path else tree.name), t, v)
    ensures (dtbuf.val == old(dtbuf.val) || fresh(dtbuf.val)) && (strbuf.val == old(strbuf.val) || fresh(strbuf.val))
  {
    hide EmitCell, EmitAlign4, EmitString, EmitProps, EmitNameProp, HasName, Data.Contents;
    FlattenBegin(if v.legacy then path else tree.name, dtbuf);
    var seenName := FlattenProperties(tree.props, dtbuf, strbuf, v);
    if v.legacy && !seenName {
      FlattenName(tree.name, dtbuf, strbuf);
    }
  }

  /** A node with everything in it; deleted nodes leave no trace. */
  method FlattenTree(tree: Node, path: CString, dtbuf: Data, strbuf: Data, v: Version)
    requires tree.Valid() && Separate(dtbuf, strbuf)
    modifies dtbuf, dtbuf.val, strbuf, strbuf.val
    ensures Separate(dtbuf, strbuf) && tree.Valid() && tree.Value() == old(tree.Value())
    ensures Written(dtbuf, strbuf)
            == if tree.deleted then old(Written(dtbuf, strbuf)) else EmitNode(old(Written(dtbuf, strbuf)), tree.Value(), path, v)
    ensures (dtbuf.val == old(dtbuf.val) || fresh(dtbuf.val)) && (strbuf.val == old(strbuf.val) || fresh(strbuf.val))
    decreases tree.Repr, 1
  {
    hide EmitNode, EmitKids, NodeProps, NodeHead, Data.Contents, Written, Node.Valid, Node.Value;
    if tree.deleted {
      return;
    }
    ghost var o, t := Written(dtbuf, strbuf), tree.Value();
    FlattenFront(tree, path, dtbuf, strbuf, v);
    FlattenChildren(tree, path, dtbuf, strbuf, v);
    EmitNodeStages(o, t, path, v);
    SameFront(NodeHead(o, if v.legacy then path else t.name), t, v);
    FlattenEnd(dtbuf, strbuf);
  }

  lemma SameFront(o: Out, t: Tree, v: Version)
    ensures NodeProps(o, t, v) == NodeProps(o, Tree(t.name, false, [], t.props, []), v)
  {
  }

  method FlattenEnd(dtbuf: Data, strbuf: Data)
    requires Separate(dtbuf, strbuf)
    modifies dtbuf, dtbuf.val
    ensures Separate(dtbuf, strbuf)
    ensures var o := old(Written(dtbuf, strbuf)); Written(dtbuf, strbuf) == Out(EmitCell(o.dt, END_NODE), o.strs)
    ensures dtbuf.val == old(dtbuf.val) || fresh(dtbuf.val)
  {
    hide EmitCell, Data.Contents;
    dtbuf.AppendCell(END_NODE);
  }

  method FlattenChildren(tree: Node, path: CString, dtbuf: Data, strbuf: Data, v: Version)
    requires tree.Valid() && Separate(dtbuf, strbuf)
    modifies dtbuf, dtbuf.val, strbuf, strbuf.val
    ensures Separate(dtbuf, strbuf) && tree.Valid() && tree.Value() == old(tree.Value())
    ensures Written(dtbuf, strbuf) == EmitKids(old(Written(dtbuf, strbuf)), tree.Value().kids, path, v)
    ensures (dtbuf.val == old(dtbuf.val) || fresh(dtbuf.val)) && (strbuf.val == old(strbuf.val) || fresh(strbuf.val))
    decreases tree.Repr, 0
  {
    hide EmitNode, Data.Contents, Written, Node.Valid, Node.Value;
    ghost var o, kids := Written(dtbuf, strbuf), tree.Value().kids;
    assert kids[0..] == kids;
    for i := 0 to |tree.children|
      invariant tree.Valid() && tree.Value() == old(tree.Value()) && Separate(dtbuf, strbuf)
      invariant EmitKids(Written(dtbuf, strbuf), kids[i..], path, v) == EmitKids(o, kids, path, v)
      invariant (dtbuf.val == old(dtbuf.val) || fresh(dtbuf.val)) && (strbuf.val == old(strbuf.val) || fresh(strbuf.val))
    {
      tree.ChildValue(i);
      assert kids[i..][1..] == kids[i + 1..];
      var child := tree.children[i];
      FlattenTree(child, JoinPath(path, child.name), dtbuf, strbuf, v);
    }
  }

  // ----- The blob

  method AppendReserve(d: Data, r: Reserve)
    requires d.Valid()
    modifies d, d.val
    ensures d.Valid() && d.Contents() == old(d.Contents()) + (Cell64(r.address) + Cell64(r.size))
    ensures d.val == old(d.val) || fresh(d.val)
  {
    d.AppendData(Cell64(r.address) + Cell64(r.size));
  }

  lemma {:induction false} ReservesAppend(rs: seq<Reserve>, r: Reserve)
    ensures EmitReserves(rs + [r]) == EmitReserves(rs) + (Cell64(r.address) + Cell64(r.size))
  {
    hide Cell64;
    if rs == [] {
      assert rs + [r] == [r] && [r][1..] == [];
      assert EmitReserves([r]) == Cell64(r.address) + Cell64(r.size) + [];
    } else {
      assert (rs + [r])[1..] == rs[1..] + [r];
      ReservesAppend(rs[1..], r);
      var head, last := Cell64(rs[0].address) + Cell64(rs[0].size), Cell64(r.address) + Cell64(r.size);
      assert head + (EmitReserves(rs[1..]) + last) == (head + EmitReserves(rs[1..])) + last;
    }
  }

  method FlattenReserveList(rs: seq<Reserve>, slots: nat) returns (d: Data)
    ensures d.Valid() && fresh(d) && fresh(d.val) && d.Contents() == EmitReserves(rs) + Zeros(16 * slots)
    ensures |d.Contents()| == 16 * (|rs| + slots)
    ensures ReservesLaid(d.Contents(), 0, rs) && ZerosFrom(d.Contents(), 16 * |rs|, 16 * (|rs| + slots))
  {
    hide Data.Contents, Cell64, Zeros, ReservesLaid, ZerosFrom;
    d := new Data();
    assert rs[..0] == [] && EmitReserves([]) == [];
    for i := 0 to |rs|
      invariant d.Valid() && fresh(d) && fresh(d.val) && d.Contents() == EmitReserves(rs[..i])
    {
      assert rs[..i + 1] == rs[..i] + [rs[i]];
      ReservesAppend(rs[..i], rs[i]);
      AppendReserve(d, rs[i]);
    }
    assert rs[..|rs|] == rs;
    ZeroCell64();
    assert EmitReserves(rs) == EmitReserves(rs) + Zeros(0);
    for j := 0 to slots
      invariant d.Valid() && fresh(d) && fresh(d.val) && d.Contents() == EmitReserves(rs) + Zeros(16 * j)
    {
      AppendReserve(d, Reserve(0, 0));
      assert EmitReserves(rs) + Zeros(16 * j) + (Zeros(8) + Zeros(8)) == EmitReserves(rs) + Zeros(16 * (j + 1));
    }
    ListLaid(rs, slots);
  }

  lemma ListLaid(rs: seq<Reserve>, slots: nat)
    ensures var b := EmitReserves(rs) + Zeros(16 * slots);
            |b| == 16 * (|rs| + slots) && ReservesLaid(b, 0, rs) && ZerosFrom(b, 16 * |rs|, 16 * (|rs| + slots))
  {
    hide EmitReserves, ReservesLaid, Zeros;
    var b, block := EmitReserves(rs) + Zeros(16 * slots), ReserveBlock(rs, slots);
    assert block[0..|block|] == block;
    ReserveBlockLaid(block, 0, rs, slots);
    ReservesLength(rs);
    assert block == b + Zeros(16);
    LaidInPrefix(b, block, rs);
  }

  lemma LaidInPrefix(a: seq<Byte>, b: seq<Byte>, rs: seq<Reserve>)
    requires a <= b && |a| >= 16 * |rs| && ReservesLaid(b, 0, rs)
    ensures ReservesLaid(a, 0, rs)
  {
    hide Digit;
    forall i | 0 <= i < |rs|
      ensures DigitsAt(a, 0 + 16 * i, 8, rs[i].address) && DigitsAt(a, 0 + 16 * i + 8, 8, rs[i].size)
    {
      assert DigitsAt(b, 0 + 16 * i, 8, rs[i].address) && DigitsAt(b, 0 + 16 * i + 8, 8, rs[i].size);
    }
  }

  /** The header fields; those that a version does not have stay all ones. */
  method FillHeader(v: Version, reserveSize: nat, dtSize: nat, strSize: nat, boot: nat, pad: nat) returns (fdt: array<nat>)
    ensures fdt.Length == 10
    ensures var off := ReserveOffset(v);
            && fdt[0] == MAGIC && fdt[1] == off + reserveSize + dtSize + strSize + pad
            && fdt[2] == off + reserveSize && fdt[3] == off + reserveSize + dtSize && fdt[4] == off
            && fdt[5] == v.version && fdt[6] == v.lastComp
            && fdt[7] == (if v.bootCpuid then boot else 0xffff_ffff)
            && fdt[8] == (if v.strtabSize then strSize else 0xffff_ffff)
            && fdt[9] == (if v.structSize then dtSize else 0xffff_ffff)
  {
    hide Align8;
    fdt := new nat[10](_ => 0xffff_ffff);
    var reserveOff := Align8(v.hdrSize);
    fdt[0], fdt[5], fdt[6] := MAGIC, v.version, v.lastComp;
    fdt[4] := reserveOff;
    fdt[2] := reserveOff + reserveSize;
    fdt[3] := reserveOff + reserveSize + dtSize;
    fdt[1] := reserveOff + reserveSize + dtSize + strSize;
    if v.bootCpuid {
      fdt[7] := boot;
    }
    if v.strtabSize {
      fdt[8] := strSize;
    }
    if v.structSize {
      fdt[9] := dtSize;
    }
    if pad > 0 {
      fdt[1] := fdt[1] + pad;
    }
  }

  /** The header fields, cut to the size of the version. */
  method MakeFdtHeader(version: int, v: Version, rsSize: nat, dtSize: nat, strSize: nat, boot: nat, pad: nat) returns (h: seq<Byte>)
    requires VersionInfo(version) == Some(v)
    ensures var off := ReserveOffset(v);
            h == Cells(HeaderWords(v, off + (rsSize + 16) + dtSize + strSize + pad, rsSize + 16, dtSize, strSize, boot))
  {
    hide Cells, HeaderWords, VersionInfo, ReserveOffset;
    var fdt := FillHeader(v, rsSize + 16, dtSize, strSize, boot, pad);
    var n := v.hdrSize / 4;
    ghost var total := ReserveOffset(v) + (rsSize + 16) + dtSize + strSize + pad;
    HeaderLength(version, v, total, rsSize + 16, dtSize, strSize, boot);
    assert fdt[..n] == HeaderWords(v, total, rsSize + 16, dtSize, strSize, boot);
    h := Cells(fdt[..n]);
  }

  /** The blob up to the structure block. */
  method AssembleFront(header: seq<Byte>, reservebuf: Data) returns (blob: Data)
    requires reservebuf.Valid()
    ensures fresh(blob) && fresh(blob.val) && blob.Valid()
    ensures blob.Contents() == EmitAlign8(header) + (reservebuf.Contents() + Zeros(16))
  {
    hide Data.Contents, EmitAlign8, Zeros, Align8;
    blob := new Data();
    blob.AppendData(header);
    assert [] + header == header;
    blob.AppendAlign(true);
    blob.Merge(reservebuf);
    blob.AppendZeroes(16);
    ghost var a, rs := EmitAlign8(header), reservebuf.Contents();
    assert a + rs + Zeros(16) == a + (rs + Zeros(16));
  }

  /** Header, reservations, structure, strings and padding, one after the other. */
  method Assemble(header: seq<Byte>, reservebuf: Data, dtbuf: Data, strbuf: Data, pad: nat) returns (bytes: seq<Byte>)
    requires reservebuf.Valid() && dtbuf.Valid() && strbuf.Valid()
    ensures bytes == EmitAlign8(header) + (reservebuf.Contents() + Zeros(16)) + dtbuf.Contents() + strbuf.Contents() + Zeros(pad)
  {
    hide Data.Contents, EmitAlign8, Zeros, Align8;
    var blob := AssembleFront(header, reservebuf);
    blob.Merge(dtbuf);
    blob.Merge(strbuf);
    ghost var whole := blob.Contents();
    NoPadding(whole);
    if pad > 0 {
      blob.AppendZeroes(pad);
    }
    bytes := blob.ToBytes();
  }

  lemma NoPadding(s: seq<Byte>)
    ensures s + Zeros(0) == s
  {
  }

  lemma BlobParts(d: DtInfo, v: Version, slots: nat, pad: nat)
    ensures var o, r := Blocks(d.tree, v), EmitReserves(d.reserves) + Zeros(16 * slots);
            var total := ReserveOffset(v) + (|r| + 16) + |o.dt| + |o.strs| + pad;
            Blob(d, v, slots, pad)
            == EmitAlign8(Cells(HeaderWords(v, total, |r| + 16, |o.dt|, |o.strs|, d.bootCpuid))) + (r + Zeros(16)) + o.dt + o.strs + Zeros(pad)
  {
    hide Cells, HeaderWords, EmitAlign8, EmitReserves, Blocks, Zeros;
    HeaderIsCells(d, v, slots, pad);
    assert |ReserveBlock(d.reserves, slots)| == |EmitReserves(d.reserves) + Zeros(16 * slots)| + 16;
  }

  /** Writes the whole blob; an unknown version is refused. */
  method DtToBlob(dt: Node, reserves: seq<Reserve>, boot: nat, version: int, slots: nat, pad: nat) returns (r: Option<seq<Byte>>)
    requires dt.Valid()
    ensures match VersionInfo(version)
            case None => r == None
            case Some(v) => r == Some(Blob(DtInfo(reserves, old(dt.Value()), boot), v, slots, pad))
    ensures match VersionInfo(version)
            case None => true
            case Some(v) =>
              var o := Blocks(old(dt.Value()), v);
              r.Some? && Laid(r.value, version, reserves, slots, boot, o.dt, o.strs)
  {
    hide Laid, EmitNode, Data.Contents, Cells, HeaderWords, EmitReserves, Zeros, Node.Valid, Node.Value, EmitCell, VersionInfo, EmitAlign8;
    var info := VersionInfo(version);
    if info.None? {
      return None;
    }
    var v := info.value;
    ghost var t := dt.Value();
    var dtbuf := new Data();
    var strbuf := new Data();
    FlattenTree(dt, JoinPath([], dt.name), dtbuf, strbuf, v);
    dtbuf.AppendCell(END);
    ghost var o := Written(dtbuf, strbuf);
    assert o == Blocks(t, v);
    var reservebuf := FlattenReserveList(reserves, slots);
    var header := MakeFdtHeader(version, v, reservebuf.len, dtbuf.len, strbuf.len, boot, pad);
    var blob := Assemble(header, reservebuf, dtbuf, strbuf, pad);
    BlobParts(DtInfo(reserves, t, boot), v, slots, pad);
    BlobIsLaid(DtInfo(reserves, t, boot), version, v, slots, pad);
    r := Some(blob);
  }
}
