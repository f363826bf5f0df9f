/**
 The flattened device tree: what the writer emits and what the reader makes of
 any bytes. Positions count from the start of the structure block.
 */
module DtFormat {
  import opened BigEndian
  import opened CText
  import opened LiveTree

  // ----- Tags

  const BEGIN_NODE := 1
  const END_NODE := 2
  const PROP := 3
  const NOP := 4
  const END := 9
  const MAGIC := 0xd00d_feed

  // ----- Alignment

  function Align4(n: nat): (r: nat)
    ensures n <= r < n + 4 && r % 4 == 0
  {
    (n + 3) / 4 * 4
  }

  function Align8(n: nat): (r: nat)
    ensures n <= r < n + 8 && r % 8 == 0
  {
    (n + 7) / 8 * 8
  }

  // ----- Versions

  datatype Version = Version(version: nat, lastComp: nat, hdrSize: nat, legacy: bool, bootCpuid: bool, strtabSize: bool, structSize: bool)

  /** The formats that can be written; `legacy` ones have full paths, aligned values and name properties. */
  function VersionInfo(version: int): Option<Version> {
    if version == 1 then Some(Version(1, 1, 28, true, false, false, false))
    else if version == 2 then Some(Version(2, 1, 32, true, true, false, false))
    else if version == 3 then Some(Version(3, 1, 36, true, true, true, false))
    else if version == 16 then Some(Version(16, 16, 36, false, true, true, false))
    else if version == 17 then Some(Version(17, 16, 40, false, true, true, true))
    else None
  }

  // ----- Names

  predicate NulFree(s: CString) {
    forall i :: 0 <= i < |s| ==> s[i] != 0
  }

  const NAME: CString := [110, 97, 109, 101]

  function JoinPath(path: CString, name: CString): CString {
    if path != [] && path[|path| - 1] == SLASH then path + name else path + [SLASH] + name
  }

  /** Length of the name up to its unit address. */
  function BaseLen(name: CString): (n: nat)
    ensures n <= |name|
  {
    if name == [] || name[0] == AT then 0 else 1 + BaseLen(name[1..])
  }

  // ----- Writing

  /** The structure block and the strings block under construction. */
  datatype Out = Out(dt: seq<Byte>, strs: seq<Byte>)

  /** Both blocks only ever grow. */
  predicate Extends(o: Out, r: Out) {
    o.dt <= r.dt && o.strs <= r.strs
  }

  function EmitCell(dt: seq<Byte>, v: nat): seq<Byte> {
    dt + Cell(v)
  }

  /** The first `len` bytes of a text, or all of it when `len` is 0, and a terminator. */
  function EmitString(dt: seq<Byte>, s: CString, len: nat): seq<Byte>
    requires len <= |s|
  {
    dt + (if len == 0 then s else s[..len]) + [0]
  }

  function EmitAlign4(dt: seq<Byte>): (r: seq<Byte>)
    ensures dt <= r && |r| == Align4(|dt|)
  {
    dt + Zeros(Align4(|dt|) - |dt|)
  }

  function EmitAlign8(dt: seq<Byte>): (r: seq<Byte>)
    ensures dt <= r && |r| == Align8(|dt|)
  {
    dt + Zeros(Align8(|dt|) - |dt|)
  }

  /** The text s stands, with its terminator, at offset i. */
  predicate StringAt(strs: seq<Byte>, i: nat, s: CString) {
    i + |s| < |strs| && strs[i..i + |s|] == s && strs[i + |s|] == 0
  }

  /** The first offset from i on where s can be shared, or the end of the table. */
  function FindString(strs: seq<Byte>, s: CString, i: nat): (r: nat)
    requires i <= |strs|
    ensures i <= r <= |strs| && (r < |strs| ==> StringAt(strs, r, s))
    ensures forall j :: i <= j < r ==> !StringAt(strs, j, s)
    decreases |strs| - i
  {
    if i == |strs| || StringAt(strs, i, s) then i else FindString(strs, s, i + 1)
  }

  function InsertString(strs: seq<Byte>, s: CString): (r: seq<Byte>)
    ensures strs <= r && StringAt(r, FindString(strs, s, 0), s)
  {
    if FindString(strs, s, 0) < |strs| then strs else strs + s + [0]
  }

  /** Tag, length and name offset of a property. */
  function PropHead(dt: seq<Byte>, len: nat, off: nat): seq<Byte> {
    EmitCell(EmitCell(EmitCell(dt, PROP), len), off)
  }

  /** The block up to where the value goes; old formats align long values to 8. */
  function PropPlace(dt: seq<Byte>, len: nat, off: nat, legacy: bool): (r: seq<Byte>)
    ensures PropHead(dt, len, off) <= r
  {
    if legacy && len >= 8 then EmitAlign8(PropHead(dt, len, off)) else PropHead(dt, len, off)
  }

  function EmitProp(o: Out, name: CString, val: seq<Byte>, v: Version): (r: Out)
    ensures Extends(o, r)
  {
    var place := PropPlace(o.dt, |val|, FindString(o.strs, name, 0), v.legacy);
    Out(EmitAlign4(place + val), InsertString(o.strs, name))
  }

  function EmitProps(o: Out, props: seq<Prop>, v: Version): (r: Out)
    ensures Extends(o, r)
    decreases props
  {
    if props == [] then o
    else if props[0].deleted then EmitProps(o, props[1..], v)
    else EmitProps(EmitProp(o, props[0].name, props[0].val, v), props[1..], v)
  }

  predicate HasName(props: seq<Prop>) {
    exists i :: 0 <= i < |props| && !props[i].deleted && props[i].name == NAME
  }

  /** The base name as old formats store it. */
  function EmitNameProp(o: Out, name: CString): (r: Out)
    ensures Extends(o, r)
  {
    var place := PropPlace(o.dt, BaseLen(name) + 1, FindString(o.strs, NAME, 0), true);
    Out(EmitAlign4(EmitString(place, name, BaseLen(name))), InsertString(o.strs, NAME))
  }

  /** A live node with everything live in it; `path` is its full path. */
  function EmitNode(o: Out, t: Tree, path: CString, v: Version): (r: Out)
    ensures Extends(o, r)
    decreases t, 0
  {
    var head := EmitAlign4(EmitString(EmitCell(o.dt, BEGIN_NODE), if v.legacy then path else t.name, 0));
    var o1 := EmitProps(Out(head, o.strs), t.props, v);
    var o2 := if v.legacy && !HasName(t.props) then EmitNameProp(o1, t.name) else o1;
    var o3 := EmitKids(o2, t.kids, path, v);
    Out(EmitCell(o3.dt, END_NODE), o3.strs)
  }

  function EmitKids(o: Out, kids: seq<Tree>, path: CString, v: Version): (r: Out)
    ensures Extends(o, r)
    decreases kids
  {
    if kids == [] then o
    else if kids[0].deleted then EmitKids(o, kids[1..], path, v)
    else EmitKids(EmitNode(o, kids[0], JoinPath(path, kids[0].name), v), kids[1..], path, v)
  }

  // ----- Reading

  /** What was read and the position after it; failures end the original program. */
  datatype Parsed<T> = Fail | Done(value: T, pos: nat)

  function ReadWord(b: seq<Byte>, pos: nat): (r: Parsed<nat>)
    ensures r.Done? ==> r.pos == pos + 4 <= |b| && r.value < WORD
  {
    if pos % 4 != 0 || pos + 4 > |b| then Fail else Done(CellValue(b[pos..pos + 4]), pos + 4)
  }

  /** Position of the first zero from i on, or the end. */
  function FindZero(b: seq<Byte>, i: nat): (r: nat)
    requires i <= |b|
    ensures i <= r <= |b| && (r < |b| ==> b[r] == 0)
    ensures forall j :: i <= j < r ==> b[j] != 0
    decreases |b| - i
  {
    if i == |b| || b[i] == 0 then i else FindZero(b, i + 1)
  }

  function ReadString(b: seq<Byte>, pos: nat): (r: Parsed<CString>)
    requires pos <= |b|
    ensures r.Done? ==> pos < r.pos <= |b|
  {
    var z := FindZero(b, pos);
    if z == |b| || Align4(z + 1) > |b| then Fail else Done(b[pos..z], Align4(z + 1))
  }

  function ReadData(b: seq<Byte>, pos: nat, len: nat): (r: Parsed<seq<Byte>>)
    requires pos <= |b|
    ensures r.Done? ==> pos <= r.pos <= |b|
  {
    if len == 0 then Done([], pos)
    else if pos + len > |b| || Align4(pos + len) > |b| then Fail
    else Done(b[pos..pos + len], Align4(pos + len))
  }

  function ReadStringTable(strs: seq<Byte>, off: nat): Option<CString> {
    if off >= |strs| || FindZero(strs, off) == |strs| then None else Some(strs[off..FindZero(strs, off)])
  }

  function ReadProp(b: seq<Byte>, strs: seq<Byte>, pos: nat, legacy: bool): (r: Parsed<Prop>)
    requires pos <= |b|
    ensures r.Done? ==> pos < r.pos <= |b|
  {
    var len := ReadWord(b, pos);
    if len.Fail? then Fail
    else
      var off := ReadWord(b, len.pos);
      if off.Fail? then Fail
      else
        var name := ReadStringTable(strs, off.value);
        var start := if legacy && len.value >= 8 then Align8(off.pos) else off.pos;
        if name.None? || start > |b| then Fail
        else
          var val := ReadData(b, start, len.value);
          if val.Fail? then Fail else Done(Prop(name.value, val.value, false, []), val.pos)
  }

  /** The last component of a full path. */
  function NameFromPath(parent: CString, path: CString): Option<CString> {
    if !(parent <= path) then None
    else if parent == [SLASH] then Some(path[|parent|..])
    else if |parent| + 1 > |path| then Some([])
    else Some(path[|parent| + 1..])
  }

  /** A node whose opening tag has been read. */
  function ReadNode(b: seq<Byte>, strs: seq<Byte>, pos: nat, parent: CString, legacy: bool): (r: Parsed<Tree>)
    requires pos <= |b|
    ensures r.Done? ==> pos < r.pos <= |b|
    decreases |b| - pos, 0
  {
    var flat := ReadString(b, pos);
    if flat.Fail? then Fail
    else
      var name := if legacy then NameFromPath(parent, flat.value) else Some(flat.value);
      if name.None? then Fail
      else ReadBody(b, strs, flat.pos, flat.value, legacy, Tree(name.value, false, [], [], []))
  }

  /** The rest of a node of which `node` has been read. */
  function ReadBody(b: seq<Byte>, strs: seq<Byte>, pos: nat, flat: CString, legacy: bool, node: Tree): (r: Parsed<Tree>)
    requires pos <= |b|
    ensures r.Done? ==> pos < r.pos <= |b|
    decreases |b| - pos, 1
  {
    var tag := ReadWord(b, pos);
    if tag.Fail? then Fail
    else if tag.value == PROP then
      var p := ReadProp(b, strs, tag.pos, legacy);
      if p.Fail? then Fail else ReadBody(b, strs, p.pos, flat, legacy, node.(props := node.props + [p.value]))
    else if tag.value == BEGIN_NODE then
      var k := ReadNode(b, strs, tag.pos, flat, legacy);
      if k.Fail? then Fail else ReadBody(b, strs, k.pos, flat, legacy, node.(kids := node.kids + [k.value]))
    else if tag.value == END_NODE then Done(node, tag.pos)
    else if tag.value == NOP then ReadBody(b, strs, tag.pos, flat, legacy, node)
    else Fail
  }

  // ----- What survives a round trip

  function LiveProps(props: seq<Prop>): seq<Prop> {
    if props == [] then []
    else if props[0].deleted then LiveProps(props[1..])
    else [Prop(props[0].name, props[0].val, false, [])] + LiveProps(props[1..])
  }

  function LiveKids(kids: seq<Tree>): seq<Tree> {
    if kids == [] then []
    else if kids[0].deleted then LiveKids(kids[1..])
    else [Live(kids[0])] + LiveKids(kids[1..])
  }

  /** The live part of a tree, in order, without labels. */
  function Live(t: Tree): Tree {
    Tree(t.name, false, [], LiveProps(t.props), LiveKids(t.kids))
  }
}
