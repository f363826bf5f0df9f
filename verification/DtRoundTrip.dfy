/** Reading back a structure block gives the live part of the tree that was written. */
module DtRoundTrip {
  import opened BigEndian
  import opened CText
  import opened LiveTree
  import opened DtFormat

  // ----- Single items

  lemma CellReads(dt: seq<Byte>, val: nat, b: seq<Byte>)
    requires |dt| % 4 == 0 && val < WORD && EmitCell(dt, val) <= b
    ensures ReadWord(b, |dt|) == Done(val, |dt| + 4)
  {
    CellRoundTrip(val);
    assert b[|dt|..|dt| + 4] == EmitCell(dt, val)[|dt|..|dt| + 4] == Cell(val);
  }

  lemma {:induction false} FindZeroAt(b: seq<Byte>, i: nat, z: nat)
    requires i <= z < |b| && b[z] == 0
    requires forall j :: i <= j < z ==> b[j] != 0
    ensures FindZero(b, i) == z
    decreases z - i
  {
    if i < z {
      FindZeroAt(b, i + 1, z);
    }
  }

  lemma TextReads(dt: seq<Byte>, s: CString, b: seq<Byte>)
    requires |dt| % 4 == 0 && NulFree(s) && EmitAlign4(EmitString(dt, s, 0)) <= b
    ensures ReadString(b, |dt|) == Done(s, |EmitAlign4(EmitString(dt, s, 0))|)
  {
    var e := EmitString(dt, s, 0);
    assert e == dt + s + [0];
    assert b[..|e|] == e;
    var z := |dt| + |s|;
    assert b[z] == e[z] == 0;
    assert b[|dt|..z] == e[|dt|..z] == s;
    forall j | |dt| <= j < z
      ensures b[j] != 0
    {
      assert b[j] == b[|dt|..z][j - |dt|];
    }
    FindZeroAt(b, |dt|, z);
  }

  lemma DataReads(dt: seq<Byte>, val: seq<Byte>, b: seq<Byte>)
    requires |dt| % 4 == 0 && EmitAlign4(dt + val) <= b
    ensures ReadData(b, |dt|, |val|) == Done(val, |EmitAlign4(dt + val)|)
  {
    assert b[|dt|..|dt| + |val|] == EmitAlign4(dt + val)[|dt|..|dt| + |val|] == val;
  }

  /** A text keeps its offset while the table grows behind it. */
  lemma TextStays(strs: seq<Byte>, i: nat, s: CString, more: seq<Byte>)
    requires StringAt(strs, i, s) && strs <= more
    ensures StringAt(more, i, s)
  {
    assert more[i..i + |s|] == strs[i..i + |s|];
  }

  lemma TableReads(strs: seq<Byte>, i: nat, s: CString)
    requires StringAt(strs, i, s) && NulFree(s)
    ensures ReadStringTable(strs, i) == Some(s)
  {
    forall j | i <= j < i + |s|
      ensures strs[j] != 0
    {
      assert strs[j] == strs[i..i + |s|][j - i];
    }
    FindZeroAt(strs, i, i + |s|);
  }

  // ----- Properties

  lemma HeadReads(dt: seq<Byte>, len: nat, off: nat, b: seq<Byte>)
    requires |dt| % 4 == 0 && len < WORD && off < WORD && PropHead(dt, len, off) <= b
    ensures ReadWord(b, |dt|) == Done(PROP, |dt| + 4)
    ensures ReadWord(b, |dt| + 4) == Done(len, |dt| + 8)
    ensures ReadWord(b, |dt| + 8) == Done(off, |dt| + 12)
  {
    hide Cell, ReadWord;
    var a := EmitCell(dt, PROP);
    var c := EmitCell(a, len);
    assert dt <= a <= c <= PropHead(dt, len, off) <= b;
    CellReads(dt, PROP, b);
    CellReads(a, len, b);
    CellReads(c, off, b);
  }

  lemma PropReads(o: Out, name: CString, val: seq<Byte>, v: Version, b: seq<Byte>, strs: seq<Byte>)
    requires |o.dt| % 4 == 0 && NulFree(name)
    requires var r := EmitProp(o, name, val, v); r.dt <= b && r.strs <= strs
    requires |b| < WORD && |strs| < WORD
    ensures |EmitProp(o, name, val, v).dt| % 4 == 0
    ensures ReadWord(b, |o.dt|) == Done(PROP, |o.dt| + 4)
    ensures ReadProp(b, strs, |o.dt| + 4, v.legacy) == Done(Prop(name, val, false, []), |EmitProp(o, name, val, v).dt|)
  {
    hide Cell, ReadWord, ReadData, ReadStringTable, InsertString, FindString, StringAt, ReadProp, PropHead, PropPlace, EmitAlign4;
    var off := FindString(o.strs, name, 0);
    var place := PropPlace(o.dt, |val|, off, v.legacy);
    PlaceLength(o.dt, |val|, off, v.legacy);
    assert place <= place + val <= EmitAlign4(place + val) <= b;
    OffsetInTable(o.strs, name, strs);
    HeadReads(o.dt, |val|, off, b);
    DataReads(place, val, b);
    PropParts(b, strs, |o.dt| + 4, v.legacy, off, name, val, |place|, |EmitAlign4(place + val)|);
  }

  lemma PlaceLength(dt: seq<Byte>, len: nat, off: nat, legacy: bool)
    requires |dt| % 4 == 0
    ensures |PropHead(dt, len, off)| == |dt| + 12
    ensures |PropPlace(dt, len, off, legacy)| == if legacy && len >= 8 then Align8(|dt| + 12) else |dt| + 12
    ensures |PropPlace(dt, len, off, legacy)| % 4 == 0
  {
  }

  /** The parts of a property make up the property. */
  lemma PropParts(b: seq<Byte>, strs: seq<Byte>, pos: nat, legacy: bool, off: nat, name: CString, val: seq<Byte>,
                  start: nat, end: nat)
    requires start == if legacy && |val| >= 8 then Align8(pos + 8) else pos + 8
    requires start <= |b|
    requires ReadWord(b, pos) == Done(|val|, pos + 4) && ReadWord(b, pos + 4) == Done(off, pos + 8)
    requires ReadStringTable(strs, off) == Some(name) && ReadData(b, start, |val|) == Done(val, end)
    ensures ReadProp(b, strs, pos, legacy) == Done(Prop(name, val, false, []), end)
  {
  }

  lemma OffsetInTable(old': seq<Byte>, name: CString, strs: seq<Byte>)
    requires InsertString(old', name) <= strs && NulFree(name) && |strs| < WORD
    ensures FindString(old', name, 0) < WORD
    ensures ReadStringTable(strs, FindString(old', name, 0)) == Some(name)
  {
    var off := FindString(old', name, 0);
    TextStays(InsertString(old', name), off, name, strs);
    TableReads(strs, off, name);
  }

  // ----- The name property of old formats

  /** What a reader gets as the value of an added name property. */
  function NameValue(name: CString): seq<Byte> {
    if BaseLen(name) == 0 then (name + [0])[..1] else name[..BaseLen(name)] + [0]
  }

  function NameProp(name: CString): Prop {
    Prop(NAME, NameValue(name), false, [])
  }

  /**
   The writer takes a base name of length 0 for a request to write the whole
   name, so a name like "@..." overruns its declared length. That is harmless
   only while the overrun stays in the padding.
   */
  predicate NameStorable(t: Tree) {
    HasName(t.props) || BaseLen(t.name) > 0 || |t.name| <= 3
  }

  lemma NamePropReads(o: Out, name: CString, v: Version, b: seq<Byte>, strs: seq<Byte>)
    requires |o.dt| % 4 == 0 && v.legacy && NulFree(name)
    requires var r := EmitNameProp(o, name); r.dt <= b && r.strs <= strs
    requires |b| < WORD && |strs| < WORD
    ensures |EmitNameProp(o, name).dt| % 4 == 0
    ensures ReadWord(b, |o.dt|) == Done(PROP, |o.dt| + 4)
    ensures var end := |o.dt| + 16;
            if BaseLen(name) > 0 || |name| <= 3 then
              ReadProp(b, strs, |o.dt| + 4, true) == Done(NameProp(name), |EmitNameProp(o, name).dt|)
            else
              ReadProp(b, strs, |o.dt| + 4, true) == Done(NameProp(name), end) && InvalidTag(b, end)
  {
    hide EmitNameProp, EmitProp, ReadProp, ReadWord, InvalidTag, Cell;
    if BaseLen(name) > 0 {
      NamePropIsProp(o, name, v);
      PropReads(o, NAME, NameValue(name), v, b, strs);
    } else {
      UnbasedNameReads(o, name, b, strs);
    }
  }

  lemma NamePropIsProp(o: Out, name: CString, v: Version)
    requires v.legacy && BaseLen(name) > 0
    ensures EmitNameProp(o, name) == EmitProp(o, NAME, NameValue(name), v)
  {
    hide FindString, InsertString, PropPlace, EmitAlign4;
    var val := NameValue(name);
    var place := PropPlace(o.dt, |val|, FindString(o.strs, NAME, 0), true);
    assert EmitString(place, name, BaseLen(name)) == place + val;
  }

  /** No reader accepts the word at this position as a tag. */
  predicate InvalidTag(b: seq<Byte>, pos: nat) {
    pos % 4 == 0 && pos + 4 <= |b| && var tag := CellValue(b[pos..pos + 4]); tag == 0 || tag > END
  }

  lemma UnbasedNameReads(o: Out, name: CString, b: seq<Byte>, strs: seq<Byte>)
    requires |o.dt| % 4 == 0 && NulFree(name) && BaseLen(name) == 0
    requires var r := EmitNameProp(o, name); r.dt <= b && r.strs <= strs
    requires |b| < WORD && |strs| < WORD
    ensures |EmitNameProp(o, name).dt| % 4 == 0
    ensures ReadWord(b, |o.dt|) == Done(PROP, |o.dt| + 4)
    ensures var end := |o.dt| + 16;
            && ReadProp(b, strs, |o.dt| + 4, true) == Done(NameProp(name), end)
            && if |name| <= 3 then |EmitNameProp(o, name).dt| == end else InvalidTag(b, end)
  {
    hide Cell, ReadWord, ReadStringTable, InsertString, FindString, StringAt, ReadProp, InvalidTag, PropHead, EmitProp,
         EmitNameProp, EmitAlign4, EmitString, ReadData, NameValue, BaseLen, PropPlace, EmitCell;
    UnbasedBlock(o, name);
    var off := FindString(o.strs, NAME, 0);
    var head := PropHead(o.dt, 1, off);
    OffsetInTable(o.strs, NAME, strs);
    PlaceLength(o.dt, 1, off, true);
    HeadReads(o.dt, 1, off, b);
    UnbasedValueReads(head, name, b);
    PropParts(b, strs, |o.dt| + 4, true, off, NAME, NameValue(name), |o.dt| + 12, |o.dt| + 16);
  }

  lemma UnbasedBlock(o: Out, name: CString)
    requires BaseLen(name) == 0
    ensures var head := PropHead(o.dt, 1, FindString(o.strs, NAME, 0));
            && EmitNameProp(o, name) == Out(EmitAlign4(EmitString(head, name, 0)), InsertString(o.strs, NAME))
            && head <= EmitAlign4(EmitString(head, name, 0))
            && |NameValue(name)| == 1
  {
    hide PropHead, FindString, InsertString;
  }

  lemma UnbasedValueReads(head: seq<Byte>, name: CString, b: seq<Byte>)
    requires |head| % 4 == 0 && NulFree(name) && BaseLen(name) == 0
    requires EmitAlign4(EmitString(head, name, 0)) <= b
    ensures ReadData(b, |head|, 1) == Done(NameValue(name), |head| + 4)
    ensures var dt := EmitAlign4(EmitString(head, name, 0));
            |dt| % 4 == 0 && if |name| <= 3 then |dt| == |head| + 4 else InvalidTag(b, |head| + 4)
  {
    var full := head + name + [0];
    var dt := EmitAlign4(EmitString(head, name, 0));
    assert dt == EmitAlign4(full);
    assert b[|head|..|head| + 1] == (name + [0])[..1] by {
      assert b[|head|] == full[|head|];
    }
    if |name| > 3 {
      OverrunIsNoTag(name, full, dt, b, |head| + 4);
    }
  }

  lemma OverrunIsNoTag(name: CString, full: seq<Byte>, dt: seq<Byte>, b: seq<Byte>, end: nat)
    requires |name| > 3 && NulFree(name) && |full| >= |name| + 1 && end == |full| - |name| - 1 + 4 && end % 4 == 0
    requires full[|full| - |name| - 1..] == name + [0]
    requires dt == EmitAlign4(full) && dt <= b
    ensures InvalidTag(b, end)
  {
    assert |dt| >= end + 4;
    var start := |full| - |name| - 1;
    forall i | 0 <= i < |full|
      ensures b[i] == full[i]
    {
    }
    if |name| > 4 {
      assert full[end] == full[start..][4] == name[4];
      assert b[end..end + 4][0] == name[4];
    } else {
      assert full[end] == full[start..][4] == 0;
      assert b[end..end + 4] == [0, 0, 0, 0] by {
        assert forall i :: end < i < end + 4 ==> b[i] == dt[i] == 0;
      }
    }
  }

  // ----- Bodies of nodes

  /** What the reader gets of a tree: its live part, in old formats with the names added. */
  function Stored(t: Tree, legacy: bool): Tree {
    Tree(t.name, false, [], LiveProps(t.props) + (if legacy && !HasName(t.props) then [NameProp(t.name)] else []),
         StoredKids(t.kids, legacy))
  }

  function StoredKids(kids: seq<Tree>, legacy: bool): seq<Tree> {
    if kids == [] then []
    else if kids[0].deleted then StoredKids(kids[1..], legacy)
    else [Stored(kids[0], legacy)] + StoredKids(kids[1..], legacy)
  }

  /** Whether every live node can store its base name. */
  predicate Storable(t: Tree) {
    NameStorable(t) && KidsStorable(t.kids)
  }

  predicate KidsStorable(kids: seq<Tree>) {
    forall i :: 0 <= i < |kids| && !kids[i].deleted ==> Storable(kids[i])
  }

  /** A path component: old formats recover it from the full path. */
  predicate CleanName(name: CString) {
    name != [] && name[|name| - 1] != SLASH
  }

  predicate PropNames(props: seq<Prop>) {
    forall i :: 0 <= i < |props| && !props[i].deleted ==> NulFree(props[i].name)
  }

  /** Names are C strings, and in old formats those of children are path components. */
  predicate WellNamed(t: Tree, legacy: bool)
    decreases t, 1
  {
    NulFree(t.name) && PropNames(t.props) && KidsWellNamed(t.kids, legacy)
  }

  predicate KidsWellNamed(kids: seq<Tree>, legacy: bool)
    decreases kids, 0
  {
    forall i :: 0 <= i < |kids| && !kids[i].deleted ==>
      WellNamed(kids[i], legacy) && (legacy ==> CleanName(kids[i].name))
  }

  /** Full paths end with a slash at the root only. */
  predicate CleanPath(path: CString) {
    NulFree(path) && path != [] && (path[|path| - 1] == SLASH ==> path == [SLASH])
  }

  lemma ComponentOfPath(path: CString, name: CString)
    requires CleanPath(path) && CleanName(name) && NulFree(name)
    ensures CleanPath(JoinPath(path, name)) && NameFromPath(path, JoinPath(path, name)) == Some(name)
  {
    var full := JoinPath(path, name);
    if path[|path| - 1] == SLASH {
      assert full[|path|..] == name;
    } else {
      assert path <= full && full[|path| + 1..] == name;
    }
    assert full[|full| - 1] == name[|name| - 1];
  }

  /** One step of reading a body. */
  lemma BodyTakesProp(b: seq<Byte>, strs: seq<Byte>, pos: nat, flat: CString, legacy: bool, node: Tree, p: Prop, end: nat)
    requires pos <= |b| && ReadWord(b, pos) == Done(PROP, pos + 4)
    requires ReadProp(b, strs, pos + 4, legacy) == Done(p, end)
    ensures ReadBody(b, strs, pos, flat, legacy, node)
            == ReadBody(b, strs, end, flat, legacy, node.(props := node.props + [p]))
  {
  }

  lemma FirstPropName(props: seq<Prop>)
    requires props != [] && PropNames(props)
    ensures PropNames(props[1..]) && (!props[0].deleted ==> NulFree(props[0].name))
  {
    assert forall i :: 0 <= i < |props[1..]| ==> props[1..][i] == props[i + 1];
  }

  lemma {:induction false} PropsRead(o: Out, props: seq<Prop>, v: Version, b: seq<Byte>, strs: seq<Byte>, flat: CString, node: Tree)
    requires |o.dt| % 4 == 0 && PropNames(props)
    requires var r := EmitProps(o, props, v); r.dt <= b && r.strs <= strs
    requires |b| < WORD && |strs| < WORD
    ensures var r := EmitProps(o, props, v);
            && |r.dt| % 4 == 0
            && ReadBody(b, strs, |o.dt|, flat, v.legacy, node)
               == ReadBody(b, strs, |r.dt|, flat, v.legacy, node.(props := node.props + LiveProps(props)))
    decreases props
  {
    hide EmitProp, ReadBody, ReadProp, ReadWord, PropNames;
    if props == [] {
      assert node.props + [] == node.props;
    } else {
      var p, rest := props[0], props[1..];
      FirstPropName(props);
      if p.deleted {
        PropsRead(o, rest, v, b, strs, flat, node);
      } else {
        var o1 := EmitProp(o, p.name, p.val, v);
        var read := Prop(p.name, p.val, false, []);
        OnePropRead(o, p, v, b, strs, flat, node, EmitProps(o1, rest, v));
        PropsRead(o1, rest, v, b, strs, flat, node.(props := node.props + [read]));
        Regrouped(node.props, read, LiveProps(rest));
      }
    }
  }

  lemma OnePropRead(o: Out, p: Prop, v: Version, b: seq<Byte>, strs: seq<Byte>, flat: CString, node: Tree, later: Out)
    requires |o.dt| % 4 == 0 && NulFree(p.name)
    requires Extends(EmitProp(o, p.name, p.val, v), later) && later.dt <= b && later.strs <= strs
    requires |b| < WORD && |strs| < WORD
    ensures var o1 := EmitProp(o, p.name, p.val, v);
            && |o1.dt| % 4 == 0
            && ReadBody(b, strs, |o.dt|, flat, v.legacy, node)
               == ReadBody(b, strs, |o1.dt|, flat, v.legacy, node.(props := node.props + [Prop(p.name, p.val, false, [])]))
  {
    hide EmitProp, ReadBody, ReadProp, ReadWord;
    PropReads(o, p.name, p.val, v, b, strs);
    BodyTakesProp(b, strs, |o.dt|, flat, v.legacy, node, Prop(p.name, p.val, false, []), |EmitProp(o, p.name, p.val, v).dt|);
  }

  lemma Regrouped<T>(a: seq<T>, x: T, b: seq<T>)
    ensures a + [x] + b == a + ([x] + b)
  {
  }

  lemma BodyFails(b: seq<Byte>, strs: seq<Byte>, pos: nat, flat: CString, legacy: bool, node: Tree)
    requires InvalidTag(b, pos)
    ensures ReadBody(b, strs, pos, flat, legacy, node).Fail?
  {
  }

  /** The added name property is read back, or breaks the block. */
  lemma NameRead(o: Out, t: Tree, v: Version, b: seq<Byte>, strs: seq<Byte>, flat: CString, node: Tree)
    requires |o.dt| % 4 == 0 && v.legacy && NulFree(t.name) && !HasName(t.props)
    requires var r := EmitNameProp(o, t.name); r.dt <= b && r.strs <= strs
    requires |b| < WORD && |strs| < WORD
    ensures var r := EmitNameProp(o, t.name);
            && |r.dt| % 4 == 0
            && ReadBody(b, strs, |o.dt|, flat, true, node)
               == (if NameStorable(t) then ReadBody(b, strs, |r.dt|, flat, true, node.(props := node.props + [NameProp(t.name)]))
                   else Fail)
  {
    hide EmitNameProp, ReadBody, ReadProp, ReadWord, InvalidTag, NameProp;
    NamePropReads(o, t.name, v, b, strs);
    if NameStorable(t) {
      BodyTakesProp(b, strs, |o.dt|, flat, true, node, NameProp(t.name), |EmitNameProp(o, t.name).dt|);
    } else {
      BodyTakesProp(b, strs, |o.dt|, flat, true, node, NameProp(t.name), |o.dt| + 16);
      BodyFails(b, strs, |o.dt| + 16, flat, true, node.(props := node.props + [NameProp(t.name)]));
    }
  }

  // ----- Whole trees

  /** Whether a reader gets through what a version makes of a tree. */
  predicate Readable(t: Tree, v: Version) {
    v.legacy ==> Storable(t)
  }

  predicate KidsReadable(kids: seq<Tree>, v: Version) {
    v.legacy ==> KidsStorable(kids)
  }

  /** The block after the opening tag and the name. */
  function NodeHead(o: Out, name: CString): (r: Out)
    ensures Extends(o, r) && |r.dt| % 4 == 0
  {
    Out(EmitAlign4(EmitString(EmitCell(o.dt, BEGIN_NODE), name, 0)), o.strs)
  }

  /** The block after all properties. */
  function NodeProps(o: Out, t: Tree, v: Version): (r: Out)
    ensures Extends(o, r)
  {
    var o1 := EmitProps(o, t.props, v);
    if v.legacy && !HasName(t.props) then EmitNameProp(o1, t.name) else o1
  }

  lemma EmitNodeStages(o: Out, t: Tree, path: CString, v: Version)
    ensures var o2 := NodeProps(NodeHead(o, if v.legacy then path else t.name), t, v);
            var o3 := EmitKids(o2, t.kids, path, v);
            EmitNode(o, t, path, v) == Out(EmitCell(o3.dt, END_NODE), o3.strs)
  {
  }

  lemma NodePropsRead(o: Out, t: Tree, v: Version, b: seq<Byte>, strs: seq<Byte>, flat: CString)
    requires |o.dt| % 4 == 0 && NulFree(t.name) && PropNames(t.props)
    requires var r := NodeProps(o, t, v); r.dt <= b && r.strs <= strs
    requires |b| < WORD && |strs| < WORD
    ensures var r := NodeProps(o, t, v);
            && |r.dt| % 4 == 0
            && ReadBody(b, strs, |o.dt|, flat, v.legacy, Tree(t.name, false, [], [], []))
               == (if v.legacy ==> NameStorable(t) then
                     ReadBody(b, strs, |r.dt|, flat, v.legacy, Tree(t.name, false, [], Stored(t, v.legacy).props, []))
                   else Fail)
  {
    hide EmitProps, EmitNameProp, ReadBody, NameProp, StoredKids;
    var o1, node := EmitProps(o, t.props, v), Tree(t.name, false, [], [], []);
    assert Extends(o1, NodeProps(o, t, v));
    PropsRead(o, t.props, v, b, strs, flat, node);
    assert [] + LiveProps(t.props) == LiveProps(t.props) + [] == LiveProps(t.props);
    if v.legacy && !HasName(t.props) {
      NameRead(o1, t, v, b, strs, flat, node.(props := LiveProps(t.props)));
    }
  }

  /** The head of a node: its tag and its name. */
  lemma HeadOfNodeReads(o: Out, name: CString, b: seq<Byte>)
    requires |o.dt| % 4 == 0 && NulFree(name) && NodeHead(o, name).dt <= b
    ensures ReadWord(b, |o.dt|) == Done(BEGIN_NODE, |o.dt| + 4)
    ensures ReadString(b, |o.dt| + 4) == Done(name, |NodeHead(o, name).dt|)
  {
    hide Cell, ReadWord, ReadString;
    var dt := EmitCell(o.dt, BEGIN_NODE);
    assert dt <= EmitString(dt, name, 0) <= NodeHead(o, name).dt <= b;
    CellReads(o.dt, BEGIN_NODE, b);
    TextReads(dt, name, b);
  }

  lemma BodyEnds(b: seq<Byte>, strs: seq<Byte>, pos: nat, flat: CString, legacy: bool, node: Tree)
    requires ReadWord(b, pos) == Done(END_NODE, pos + 4)
    ensures ReadBody(b, strs, pos, flat, legacy, node) == Done(node, pos + 4)
  {
  }

  lemma BodyTakesKid(b: seq<Byte>, strs: seq<Byte>, pos: nat, flat: CString, legacy: bool, node: Tree)
    requires ReadWord(b, pos) == Done(BEGIN_NODE, pos + 4)
    ensures var k := ReadNode(b, strs, pos + 4, flat, legacy);
            ReadBody(b, strs, pos, flat, legacy, node)
            == if k.Fail? then Fail else ReadBody(b, strs, k.pos, flat, legacy, node.(kids := node.kids + [k.value]))
  {
  }

  /** A written node is read back exactly when all its base names can be stored. */
  lemma {:induction false} NodeReads(o: Out, t: Tree, path: CString, v: Version, b: seq<Byte>, strs: seq<Byte>, parent: CString)
    requires |o.dt| % 4 == 0 && WellNamed(t, v.legacy)
    requires v.legacy ==> CleanPath(path) && NameFromPath(parent, path) == Some(t.name)
    requires var r := EmitNode(o, t, path, v); r.dt <= b && r.strs <= strs
    requires |b| < WORD && |strs| < WORD
    ensures |EmitNode(o, t, path, v).dt| % 4 == 0
    ensures ReadWord(b, |o.dt|) == Done(BEGIN_NODE, |o.dt| + 4)
    ensures ReadNode(b, strs, |o.dt| + 4, parent, v.legacy)
            == if Readable(t, v) then Done(Stored(t, v.legacy), |EmitNode(o, t, path, v).dt|) else Fail
    decreases t, 1
  {
    hide EmitKids, NodeProps, NodeHead, ReadBody, ReadWord, ReadString, EmitNode, KidsWellNamed, KidsStorable, NameStorable, Cell,
         NameFromPath, HasName, LiveProps, NameProp;
    var flat := if v.legacy then path else t.name;
    EmitNodeStages(o, t, path, v);
    var o1 := NodeHead(o, flat);
    var o2 := NodeProps(o1, t, v);
    var o3 := EmitKids(o2, t.kids, path, v);
    var r := EmitNode(o, t, path, v);
    assert o1.dt <= o2.dt <= o3.dt <= r.dt <= b && o2.strs <= o3.strs == r.strs <= strs;
    HeadOfNodeReads(o, flat, b);
    NodePropsRead(o1, t, v, b, strs, flat);
    var node := Tree(t.name, false, [], Stored(t, v.legacy).props, []);
    KidsRead(o2, t.kids, path, v, b, strs, flat, node);
    CellReads(o3.dt, END_NODE, b);
    assert [] + StoredKids(t.kids, v.legacy) == StoredKids(t.kids, v.legacy);
    BodyEnds(b, strs, |o3.dt|, flat, v.legacy, Stored(t, v.legacy));
  }

  lemma {:induction false} KidsRead(o: Out, kids: seq<Tree>, path: CString, v: Version, b: seq<Byte>, strs: seq<Byte>, flat: CString, node: Tree)
    requires |o.dt| % 4 == 0 && KidsWellNamed(kids, v.legacy)
    requires v.legacy ==> CleanPath(path) && flat == path
    requires var r := EmitKids(o, kids, path, v); r.dt <= b && r.strs <= strs
    requires |b| < WORD && |strs| < WORD
    ensures |EmitKids(o, kids, path, v).dt| % 4 == 0
    ensures ReadBody(b, strs, |o.dt|, flat, v.legacy, node)
            == if KidsReadable(kids, v) then
                 ReadBody(b, strs, |EmitKids(o, kids, path, v).dt|, flat, v.legacy,
                          node.(kids := node.kids + StoredKids(kids, v.legacy)))
               else Fail
    decreases kids, 0
  {
    hide EmitNode, ReadBody, ReadNode, ReadWord, JoinPath, NameFromPath, CleanPath, Stored, WellNamed, Storable;
    if kids == [] {
      assert node.kids + [] == node.kids;
    } else {
      var k, rest := kids[0], kids[1..];
      assert forall i :: 0 <= i < |rest| ==> rest[i] == kids[i + 1];
      if k.deleted {
        KidsRead(o, rest, path, v, b, strs, flat, node);
      } else {
        var sub := JoinPath(path, k.name);
        var o1 := EmitNode(o, k, sub, v);
        assert Extends(o1, EmitKids(o1, rest, path, v));
        if v.legacy {
          WellNamedName(k);
          ComponentOfPath(path, k.name);
        }
        NodeReads(o, k, sub, v, b, strs, flat);
        BodyTakesKid(b, strs, |o.dt|, flat, v.legacy, node);
        var read := Stored(k, v.legacy);
        KidsRead(o1, rest, path, v, b, strs, flat, node.(kids := node.kids + [read]));
        assert node.kids + [read] + StoredKids(rest, v.legacy) == node.kids + StoredKids(kids, v.legacy);
      }
    }
  }

  lemma WellNamedName(t: Tree)
    ensures WellNamed(t, true) ==> NulFree(t.name)
  {
  }
}
