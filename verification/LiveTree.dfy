/**
 The live device tree as a value, with its soft-deleted entries, and what the
 tree operations of the compiler do to it.
 */
module LiveTree {
  import opened CText

  datatype Label = Label(name: CString, deleted: bool)

  datatype Prop = Prop(name: CString, val: seq<Byte>, deleted: bool, labels: seq<Label>)

  datatype Tree = Tree(name: CString, deleted: bool, labels: seq<Label>, props: seq<Prop>, kids: seq<Tree>)

  // ----- Search by name, deleted entries included

  function FindLabel(ls: seq<Label>, name: CString): (i: nat)
    ensures i <= |ls| && (i < |ls| ==> ls[i].name == name)
    ensures forall j :: 0 <= j < i ==> ls[j].name != name
  {
    if ls == [] || ls[0].name == name then 0 else 1 + FindLabel(ls[1..], name)
  }

  function FindProp(props: seq<Prop>, name: CString): (i: nat)
    ensures i <= |props| && (i < |props| ==> props[i].name == name)
    ensures forall j :: 0 <= j < i ==> props[j].name != name
  {
    if props == [] || props[0].name == name then 0 else 1 + FindProp(props[1..], name)
  }

  function FindKid(kids: seq<Tree>, name: CString): (i: nat)
    ensures i <= |kids| && (i < |kids| ==> kids[i].name == name)
    ensures forall j :: 0 <= j < i ==> kids[j].name != name
  {
    if kids == [] || kids[0].name == name then 0 else 1 + FindKid(kids[1..], name)
  }

  // ----- Labels

  /** A label that is there already comes back to life; a new one goes to the front. */
  function AddLabel(ls: seq<Label>, name: CString): seq<Label> {
    var i := FindLabel(ls, name);
    if i < |ls| then ls[i := Label(name, false)] else [Label(name, false)] + ls
  }

  /** Adds all labels of the other list, its deleted ones as well. */
  function AddLabels(ls: seq<Label>, more: seq<Label>): seq<Label>
    decreases more
  {
    if more == [] then ls else AddLabels(AddLabel(ls, more[0].name), more[1..])
  }

  function DeleteLabels(ls: seq<Label>): (r: seq<Label>)
    ensures |r| == |ls|
    ensures forall i :: 0 <= i < |ls| ==> r[i] == Label(ls[i].name, true)
  {
    seq(|ls|, i requires 0 <= i < |ls| => Label(ls[i].name, true))
  }

  // ----- Deletion

  function DeleteProp(p: Prop): Prop {
    p.(deleted := true, labels := DeleteLabels(p.labels))
  }

  /** Deletes the properties that are live. */
  function DeleteProps(props: seq<Prop>): (r: seq<Prop>)
    ensures |r| == |props|
    ensures forall i :: 0 <= i < |props| ==> r[i] == if props[i].deleted then props[i] else DeleteProp(props[i])
  {
    seq(|props|, i requires 0 <= i < |props| => if props[i].deleted then props[i] else DeleteProp(props[i]))
  }

  /** Deletes a node with everything in it that is live. */
  function DeleteTree(t: Tree): Tree {
    Tree(t.name, true, DeleteLabels(t.labels), DeleteProps(t.props), DeleteKids(t.kids))
  }

  function DeleteKids(kids: seq<Tree>): (r: seq<Tree>)
    ensures |r| == |kids|
    ensures forall i :: 0 <= i < |kids| ==> r[i] == if kids[i].deleted then kids[i] else DeleteTree(kids[i])
  {
    if kids == [] then []
    else [if kids[0].deleted then kids[0] else DeleteTree(kids[0])] + DeleteKids(kids[1..])
  }

  function DeletePropNamed(props: seq<Prop>, name: CString): seq<Prop> {
    var i := FindProp(props, name);
    if i < |props| then props[i := DeleteProp(props[i])] else props
  }

  function DeleteKidNamed(kids: seq<Tree>, name: CString): seq<Tree> {
    var i := FindKid(kids, name);
    if i < |kids| then kids[i := DeleteTree(kids[i])] else kids
  }

  // ----- Merging

  /** One property of the new node, applied to the properties of the old one. */
  function MergeProp(props: seq<Prop>, p: Prop): seq<Prop> {
    var i := FindProp(props, p.name);
    if p.deleted then DeletePropNamed(props, p.name)
    else if i < |props| then props[i := Prop(p.name, p.val, false, AddLabels(props[i].labels, p.labels))]
    else props + [p]
  }

  function MergeProps(props: seq<Prop>, more: seq<Prop>): seq<Prop>
    decreases more
  {
    if more == [] then props else MergeProps(MergeProp(props, more[0]), more[1..])
  }

  /** One child of the new node, applied to the children of the old one. */
  function MergeKid(kids: seq<Tree>, k: Tree): seq<Tree>
    decreases k, 1
  {
    var i := FindKid(kids, k.name);
    if k.deleted then DeleteKidNamed(kids, k.name)
    else if i < |kids| then kids[i := Merge(kids[i], k)]
    else kids + [k]
  }

  function MergeKids(kids: seq<Tree>, more: seq<Tree>): seq<Tree>
    decreases more
  {
    if more == [] then kids else MergeKids(MergeKid(kids, more[0]), more[1..])
  }

  /** The old node with the contents of the new one merged into it. */
  function Merge(o: Tree, n: Tree): Tree
    decreases n, 0
  {
    Tree(o.name, false, AddLabels(o.labels, n.labels), MergeProps(o.props, n.props), MergeKids(o.kids, n.kids))
  }

  // ----- Lookups of live entries

  function GetProperty(props: seq<Prop>, name: CString): (r: Option<Prop>)
    ensures r.Some? ==> r.value in props && r.value.name == name && !r.value.deleted
  {
    if props == [] then None
    else if !props[0].deleted && props[0].name == name then Some(props[0])
    else GetProperty(props[1..], name)
  }

  function GetSubnode(kids: seq<Tree>, name: CString): (r: Option<Tree>)
    ensures r.Some? ==> r.value in kids && r.value.name == name && !r.value.deleted
  {
    if kids == [] then None
    else if !kids[0].deleted && kids[0].name == name then Some(kids[0])
    else GetSubnode(kids[1..], name)
  }

  function SkipSlashes(path: CString): (r: CString)
    ensures |r| <= |path|
    ensures r != [] ==> r[0] != SLASH
  {
    if path != [] && path[0] == SLASH then SkipSlashes(path[1..]) else path
  }

  /** Position of the first slash, or the length. */
  function FirstSlash(path: CString): (i: nat)
    ensures i <= |path| && (i < |path| ==> path[i] == SLASH)
    ensures forall j :: 0 <= j < i ==> path[j] != SLASH
  {
    if path == [] || path[0] == SLASH then 0 else 1 + FirstSlash(path[1..])
  }

  /** The live node that a path leads to. */
  function NodeByPath(t: Tree, path: CString): Option<Tree>
    decreases |path|
  {
    if path == [] then (if t.deleted then None else Some(t))
    else
      var p := SkipSlashes(path);
      var i := FirstSlash(p);
      var kid := GetSubnode(t.kids, p[..i]);
      if kid.None? || i == |p| then kid else NodeByPath(kid.value, p[i + 1..])
  }
}
