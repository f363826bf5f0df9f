/** Unflattening: the reader as it advances through its buffers and builds a live tree. */
module DtReader {
  import opened BigEndian
  import opened CText
  import opened LiveTree
  import opened LiveNode
  import opened DtFormat
  import opened DtBlob
  import opened DtLayout

  /** A piece of a blob and the place reached in it. Where the original gives up, a read returns None. */
  class InBuf {
    const data: seq<Byte>
    var ptr: nat

    predicate Valid()
      reads this
    {
      ptr <= |data|
    }

    constructor (data: seq<Byte>)
      ensures Valid() && this.data == data && ptr == 0
    {
      this.data, ptr := data, 0;
    }

    method FlatReadChunk(n: nat) returns (p: Option<seq<Byte>>)
      requires Valid()
      modifies this
      ensures Valid() && (p.Some? <==> old(ptr) + n <= |data|)
      ensures p.Some? ==> p.value == data[old(ptr)..old(ptr) + n] && ptr == old(ptr) + n
    {
      if ptr + n > |data| {
        return None;
      }
      p := Some(data[ptr..ptr + n]);
      ptr := ptr + n;
    }

    method FlatReadWord() returns (r: Option<nat>)
      requires Valid()
      modifies this
      ensures Valid() && Agrees(r, ReadWord(data, old(ptr)))
    {
      if ptr % 4 != 0 {
        return None;
      }
      var p := FlatReadChunk(4);
      if p.None? {
        return None;
      }
      r := Some(CellValue(p.value));
    }

    /** The read succeeded as specified and moved to the position after it. */
    ghost predicate Agrees<T>(r: Option<T>, spec: Parsed<T>)
      reads this
    {
      match spec
      case Fail => r == None
      case Done(value, pos) => r == Some(value) && ptr == pos
    }

    method FlatRealign(wide: bool) returns (ok: bool)
      requires Valid()
      modifies this
      ensures Valid() && ok == ((if wide then Align8(old(ptr)) else Align4(old(ptr))) <= |data|)
      ensures ok ==> ptr == if wide then Align8(old(ptr)) else Align4(old(ptr))
    {
      var target := if wide then Align8(ptr) else Align4(ptr);
      if target > |data| {
        return false;
      }
      ptr, ok := target, true;
    }

    method FlatReadString() returns (r: Option<CString>)
      requires Valid()
      modifies this
      ensures Valid() && Agrees(r, ReadString(data, old(ptr)))
    {
      hide Align4;
      var start, p := ptr, ptr;
      while p < |data| && data[p] != 0
        invariant start <= p <= |data| && ptr == start
        invariant FindZero(data, p) == FindZero(data, start)
      {
        p := p + 1;
      }
      if p >= |data| {
        return None;
      }
      ptr := p + 1;
      var ok := FlatRealign(false);
      if !ok {
        return None;
      }
      r := Some(data[start..p]);
    }

    method FlatReadData(n: nat) returns (r: Option<seq<Byte>>)
      requires Valid()
      modifies this
      ensures Valid() && Agrees(r, ReadData(data, old(ptr), n))
    {
      hide Align4;
      if n == 0 {
        return Some([]);
      }
      r := FlatReadChunk(n);
      if r.Some? {
        var ok := FlatRealign(false);
        if !ok {
          r := None;
        }
      }
    }

    /** The text at an offset of the string table. */
    method FlatReadStringTable(offset: nat) returns (r: Option<CString>)
      ensures r == ReadStringTable(data, offset)
    {
      var p := offset;
      while true
        invariant offset <= p
        invariant p <= |data| ==> FindZero(data, p) == FindZero(data, offset)
        invariant offset <= |data| ==> p <= |data|
        decreases |data| - p
      {
        if p >= |data| {
          return None;
        }
        if data[p] == 0 {
          break;
        }
        p := p + 1;
      }
      r := Some(data[offset..p]);
    }

    method FlatReadProperty(strbuf: InBuf, legacy: bool) returns (r: Option<Prop>)
      requires Valid()
      modifies this
      ensures Valid() && Agrees(r, ReadProp(data, strbuf.data, old(ptr), legacy))
    {
      hide ReadWord, ReadData, ReadStringTable, Align8;
      var proplen := FlatReadWord();
      if proplen.None? {
        return None;
      }
      var stroff := FlatReadWord();
      if stroff.None? {
        return None;
      }
      var name := strbuf.FlatReadStringTable(stroff.value);
      if name.None? {
        return None;
      }
      if legacy && proplen.value >= 8 {
        var ok := FlatRealign(true);
        if !ok {
          return None;
        }
      }
      var val := FlatReadData(proplen.value);
      if val.None? {
        return None;
      }
      r := Some(Prop(name.value, val.value, false, []));
    }

    /** All reservations up to the terminating one. */
    method FlatReadMemReserve() returns (r: Option<seq<Reserve>>)
      requires Valid()
      modifies this
      ensures r == ReadReserves(data, old(ptr))
      ensures forall rs :: r == Some(rs) <==> ReservesListed(data, old(ptr), rs)
    {
      hide Cell64Value, ReservesListed;
      forall rs
        ensures ReadReserves(data, ptr) == Some(rs) <==> ReservesListed(data, ptr, rs)
      {
        ReservesReadByDigits(data, ptr, rs);
      }
      var list: seq<Reserve> := [];
      ghost var whole := ReadReserves(data, ptr);
      PrependNothing(whole);
      while true
        invariant Valid() && Prepend(list, ReadReserves(data, ptr)) == whole
        decreases |data| - ptr
      {
        var re := FlatReadChunk(16);
        if re.None? {
          return None;
        }
        var entry := Reserve(Cell64Value(re.value[..8]), Cell64Value(re.value[8..]));
        assert re.value[..8] == data[ptr - 16..ptr - 8] && re.value[8..] == data[ptr - 8..ptr];
        if entry.size == 0 {
          break;
        }
        PrependMore(list, entry, ReadReserves(data, ptr));
        list := list + [entry];
      }
      assert list + [] == list;
      r := Some(list);
    }

    /** A node whose tag has been read, with everything in it; null where the original gives up. */
    method UnflattenTree(strbuf: InBuf, parentFlatname: CString, legacy: bool) returns (node: Node?)
      requires Valid()
      modifies this
      ensures Valid() && Built(node, ReadNode(data, strbuf.data, old(ptr), parentFlatname, legacy))
      ensures node != null ==> fresh(node.Repr)
      decreases |data| - ptr, 0
    {
      hide ReadString, NameFromPath, ReadBody, Node.Valid, Node.Value;
      var flatname := FlatReadString();
      if flatname.None? {
        return null;
      }
      var name := if legacy then NameFromPath(parentFlatname, flatname.value) else Some(flatname.value);
      if name.None? {
        return null;
      }
      var n := new Node(name.value);
      var ok := UnflattenBody(n, strbuf, flatname.value, legacy);
      node := if ok then n else null;
    }

    ghost predicate Built(node: Node?, spec: Parsed<Tree>)
      reads this, node, if node == null then {} else node.Repr
    {
      match spec
      case Fail => node == null
      case Done(t, pos) => node != null && node.Valid() && node.Value() == t && ptr == pos
    }

    /** Reads tags and what follows them until the node ends. */
    method UnflattenBody(node: Node, strbuf: InBuf, flatname: CString, legacy: bool) returns (ok: bool)
      requires Valid() && node.Valid()
      modifies this, node
      ensures Valid() && node.Valid() && fresh(node.Repr - old(node.Repr))
      ensures match ReadBody(data, strbuf.data, old(ptr), flatname, legacy, old(node.Value()))
              case Fail => !ok
              case Done(t, pos) => ok && node.Value() == t && ptr == pos
      decreases |data| - ptr, 1
    {
      hide ReadNode, ReadProp, ReadWord, Node.Valid, Node.Value;
      ghost var whole := ReadBody(data, strbuf.data, ptr, flatname, legacy, node.Value());
      while true
        invariant Valid() && node.Valid() && fresh(node.Repr - old(node.Repr)) && ptr >= old(ptr)
        invariant ReadBody(data, strbuf.data, ptr, flatname, legacy, node.Value()) == whole
        decreases |data| - ptr
      {
        var val := FlatReadWord();
        if val.None? {
          return false;
        }
        if val.value == PROP {
          var prop := FlatReadProperty(strbuf, legacy);
          if prop.None? {
            return false;
          }
          node.AddProperty(prop.value);
        } else if val.value == BEGIN_NODE {
          var child := UnflattenTree(strbuf, flatname, legacy);
          if child == null {
            return false;
          }
          node.AddChild(child);
        } else if val.value == END_NODE {
          return true;
        } else if val.value != NOP {
          return false;
        }
      }
    }
  }

  /** The entries read so far in front of what the rest gives. */
  ghost function Prepend(list: seq<Reserve>, rest: Option<seq<Reserve>>): Option<seq<Reserve>> {
    if rest.None? then None else Some(list + rest.value)
  }

  lemma PrependMore(list: seq<Reserve>, entry: Reserve, rest: Option<seq<Reserve>>)
    ensures Prepend(list, Prepend([entry], rest)) == Prepend(list + [entry], rest)
  {
    if rest.Some? {
      assert list + ([entry] + rest.value) == list + [entry] + rest.value;
    }
  }

  lemma PrependNothing(rest: Option<seq<Reserve>>)
    ensures Prepend([], rest) == rest
  {
    if rest.Some? {
      assert [] + rest.value == rest.value;
    }
  }

  /** Reads a structure block from its first tag to the end tag. */
  method ReadTree(dtbuf: InBuf, strbuf: InBuf, legacy: bool) returns (tree: Node?)
    requires dtbuf.Valid() && dtbuf.ptr == 0
    modifies dtbuf
    ensures var t := ReadStructure(dtbuf.data, strbuf.data, legacy);
            if t.None? then tree == null else tree != null && tree.Valid() && tree.Value() == t.value
  {
    hide ReadNode, ReadWord, Node.Valid, Node.Value;
    var val := dtbuf.FlatReadWord();
    if val.None? || val.value != BEGIN_NODE {
      return null;
    }
    var node := dtbuf.UnflattenTree(strbuf, [], legacy);
    if node == null {
      return null;
    }
    val := dtbuf.FlatReadWord();
    if val.None? || val.value != END {
      return null;
    }
    tree := node;
  }

  /** Reads a blob from the bytes of a file; null where the original gives up. */
  method DtFromBlob(f: seq<Byte>) returns (tree: Node?, reserves: seq<Reserve>, bootCpuid: nat)
    ensures match ReadBlob(f)
            case None => tree == null
            case Some(d) => tree != null && tree.Valid() && tree.Value() == d.tree && reserves == d.reserves && bootCpuid == d.bootCpuid
    ensures tree == null <==> forall d, h :: !FileMeans(f, d, h)
    ensures tree != null ==> tree.Valid() && exists h :: FileMeans(f, DtInfo(reserves, tree.Value(), bootCpuid), h)
  {
    hide FileMeans, ReadBlob, Node.Valid, Node.Value;
    tree, reserves, bootCpuid := ReadFile(f);
    MeansRead(f);
  }

  lemma MeansRead(f: seq<Byte>)
    ensures forall d, h :: FileMeans(f, d, h) ==> ReadBlob(f) == Some(d)
    ensures ReadBlob(f).Some? ==> FileMeans(f, ReadBlob(f).value, FieldsOf(f))
  {
    hide FileMeans, ReadBlob;
    forall d, h | FileMeans(f, d, h)
      ensures ReadBlob(f) == Some(d)
    {
      ReadByDigits(f, d);
    }
    if ReadBlob(f).Some? {
      ReadByDigits(f, ReadBlob(f).value);
    }
  }

  method ReadFile(f: seq<Byte>) returns (tree: Node?, reserves: seq<Reserve>, bootCpuid: nat)
    ensures match ReadBlob(f)
            case None => tree == null
            case Some(d) => tree != null && tree.Valid() && tree.Value() == d.tree && reserves == d.reserves && bootCpuid == d.bootCpuid
  {
    hide ReadReserves, ReadStructure, Node.Valid, Node.Value, CellValue, ReservesListed;
    tree, reserves, bootCpuid := null, [], 0;
    if |f| < 8 || HeaderWord(f, 0) != MAGIC {
      return;
    }
    var totalsize := HeaderWord(f, 1);
    if totalsize < 28 || |f| < totalsize {
      return;
    }
    var blob := f[..totalsize];
    var offDt, offStr, offRsv := HeaderWord(blob, 2), HeaderWord(blob, 3), HeaderWord(blob, 4);
    var version := HeaderWord(blob, 5);
    if offRsv >= totalsize || offDt >= totalsize || offStr > totalsize {
      return;
    }
    var strEnd := totalsize;
    if version >= 3 {
      strEnd := offStr + HeaderWord(blob, 8);
      if strEnd > totalsize {
        return;
      }
    }
    if version >= 17 && offDt + HeaderWord(blob, 9) > totalsize {
      return;
    }
    var strbuf := new InBuf(blob[offStr..strEnd]);
    var memresvbuf := new InBuf(blob[offRsv..]);
    var dtbuf := new InBuf(blob[offDt..]);
    var list := memresvbuf.FlatReadMemReserve();
    if list.None? {
      return;
    }
    var node := ReadTree(dtbuf, strbuf, version < 16);
    if node == null {
      return;
    }
    tree, reserves, bootCpuid := node, list.value, HeaderWord(blob, 7);
  }
}
