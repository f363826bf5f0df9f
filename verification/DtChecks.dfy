/** The check that removes redundant name properties, and the checks that must pass before it runs. */
module DtChecks {
  import opened CText
  import opened LiveTree
  import opened LiveNode
  import opened DtFormat

  // ----- The checks in front of the name check

  predicate IsAlnum(c: Byte) {
    97 <= c <= 122 || 65 <= c <= 90 || 48 <= c <= 57
  }

  /** Letters, digits and ",._+-@". */
  predicate IsNodeChar(c: Byte) {
    IsAlnum(c) || c in [44, 46, 95, 43, 45, AT]
  }

  /** Letters, digits and ",._+*#?-". */
  predicate IsPropChar(c: Byte) {
    IsAlnum(c) || c in [44, 46, 95, 43, 42, 35, 63, 45]
  }

  predicate NodeChars(name: CString) {
    forall i :: 0 <= i < |name| ==> IsNodeChar(name[i])
  }

  predicate PropChars(props: seq<Prop>) {
    forall i, j :: 0 <= i < |props| && !props[i].deleted && 0 <= j < |props[i].name| ==> IsPropChar(props[i].name[j])
  }

  /** No second "@" in the unit address. */
  predicate OneUnit(name: CString) {
    forall i :: BaseLen(name) < i < |name| ==> name[i] != AT
  }

  predicate DistinctKids(kids: seq<Tree>) {
    forall i, j :: 0 <= i < j < |kids| && !kids[i].deleted ==> kids[i].name != kids[j].name
  }

  predicate DistinctProps(props: seq<Prop>) {
    forall i, j :: 0 <= i < j < |props| && !props[i].deleted && !props[j].deleted ==> props[i].name != props[j].name
  }

  /** What the checks before those on name properties ask of one node. */
  predicate NodePasses(t: Tree, root: bool) {
    && DistinctKids(t.kids) && DistinctProps(t.props) && PropChars(t.props)
    && NodeChars(t.name) && OneUnit(t.name) && (root || BaseLen(t.name) > 0)
  }

  predicate Passes(t: Tree, root: bool)
    decreases t, 1
  {
    NodePasses(t, root) && KidsPass(t.kids)
  }

  predicate KidsPass(kids: seq<Tree>)
    decreases kids, 0
  {
    forall i :: 0 <= i < |kids| && !kids[i].deleted ==> Passes(kids[i], false)
  }

  // ----- Name properties

  predicate IsOneString(val: seq<Byte>) {
    val != [] && val[|val| - 1] == 0 && NulFree(val[..|val| - 1])
  }

  /** The first live name property is a string, if there is one. */
  predicate NameIsString(props: seq<Prop>) {
    var p := LiveTree.GetProperty(props, NAME);
    p.Some? ==> IsOneString(p.value.val)
  }

  predicate NamesAreStrings(t: Tree)
    decreases t, 1
  {
    NameIsString(t.props) && KidsNamesAreStrings(t.kids)
  }

  predicate KidsNamesAreStrings(kids: seq<Tree>)
    decreases kids, 0
  {
    forall i :: 0 <= i < |kids| && !kids[i].deleted ==> NamesAreStrings(kids[i])
  }

  /** The property repeats the base name and a terminator. */
  predicate IsBaseName(name: CString, val: seq<Byte>) {
    |val| == BaseLen(name) + 1 && val[..BaseLen(name)] == name[..BaseLen(name)]
  }

  /** The first name property, if it is right, is removed. */
  function CheckProps(name: CString, props: seq<Prop>): seq<Prop> {
    var i := FindProp(props, NAME);
    if i < |props| && IsBaseName(name, props[i].val) then props[..i] + props[i + 1..] else props
  }

  function CheckNames(t: Tree): Tree {
    Tree(t.name, t.deleted, t.labels, CheckProps(t.name, t.props), CheckKids(t.kids))
  }

  function CheckKids(kids: seq<Tree>): seq<Tree> {
    if kids == [] then []
    else [if kids[0].deleted then kids[0] else CheckNames(kids[0])] + CheckKids(kids[1..])
  }

  /** The check runs only if no name property in the whole tree fails its prerequisite. */
  function RunNameCheck(t: Tree): Tree {
    if NamesAreStrings(t) then CheckNames(t) else t
  }

  /** A failure of any earlier check stops the checks as well. */
  function ProcessChecks(t: Tree): Tree {
    if Passes(t, true) then RunNameCheck(t) else t
  }

  method CheckNameProperties(node: Node)
    modifies node`props
    ensures node.props == CheckProps(node.name, old(node.props))
  {
    var i := 0;
    while i < |node.props| && node.props[i].name != NAME
      invariant 0 <= i <= |node.props|
      invariant forall j :: 0 <= j < i ==> node.props[j].name != NAME
    {
      i := i + 1;
    }
    if i == |node.props| {
      return;
    }
    var val, n := node.props[i].val, BaseLen(node.name);
    if |val| != n + 1 || val[..n] != node.name[..n] {
      return;
    }
    node.props := node.props[..i] + node.props[i + 1..];
  }

  method DataIsOneString(val: seq<Byte>) returns (ok: bool)
    ensures ok == IsOneString(val)
  {
    if |val| == 0 {
      return false;
    }
    for i := 0 to |val| - 1
      invariant forall j :: 0 <= j < i ==> val[j] != 0
    {
      if val[i] == 0 {
        assert val[..|val| - 1][i] == 0;
        return false;
      }
    }
    ok := val[|val| - 1] == 0;
  }

  /** The prerequisite, for a node and everything live in it. */
  method CheckIsString(node: Node) returns (ok: bool)
    requires node.Valid()
    ensures ok == NamesAreStrings(node.Value())
    decreases node.Repr
  {
    hide node.Valid, node.Value, NamesAreStrings, Forest;
    ghost var t := node.Value();
    var prop := node.GetProperty(NAME);
    ok := true;
    if prop.Some? {
      ok := DataIsOneString(prop.value.val);
    }
    for i := 0 to |node.children|
      invariant ok <==> NameIsString(t.props) && forall j :: 0 <= j < i && !t.kids[j].deleted ==> NamesAreStrings(t.kids[j])
    {
      node.ChildValue(i);
      if !node.children[i].deleted {
        var sub := CheckIsString(node.children[i]);
        ok := ok && sub;
      }
    }
    NamesByParts(t);
  }

  lemma NamesByParts(t: Tree)
    ensures NamesAreStrings(t) <==> NameIsString(t.props) && forall i :: 0 <= i < |t.kids| && !t.kids[i].deleted ==> NamesAreStrings(t.kids[i])
  {
  }

  /** The check itself, for a node and everything live in it. */
  method CheckNodesProps(node: Node)
    requires node.Valid()
    modifies node.Repr
    ensures node.Valid() && node.Repr == old(node.Repr) && node.Value() == CheckNames(old(node.Value()))
    decreases node.Repr, 1
  {
    hide node.Valid, node.Value, CheckProps, CheckNames, CheckKids, Forest;
    ghost var t := node.Value();
    CheckOwnName(node);
    for i := 0 to |node.children|
      invariant node.Valid() && node.Repr == old(node.Repr)
      invariant |node.Value().kids| == |t.kids| == |node.children|
      invariant node.Value() == t.(props := CheckProps(t.name, t.props), kids := node.Value().kids)
      invariant forall j :: 0 <= j < i ==> node.Value().kids[j] == CheckedKid(t.kids[j])
      invariant forall j :: i <= j < |t.kids| ==> node.Value().kids[j] == t.kids[j]
    {
      node.ChildValue(i);
      if !node.children[i].deleted {
        CheckChild(node, i);
      }
    }
    KidByKid(t.kids);
    assert node.Value().kids == CheckKids(t.kids);
    CheckedByParts(t);
  }

  function CheckedKid(k: Tree): Tree {
    if k.deleted then k else CheckNames(k)
  }

  lemma CheckedByParts(t: Tree)
    ensures CheckNames(t) == t.(props := CheckProps(t.name, t.props), kids := CheckKids(t.kids))
  {
  }

  lemma {:induction false} KidByKid(kids: seq<Tree>)
    ensures |CheckKids(kids)| == |kids|
    ensures forall i :: 0 <= i < |kids| ==> CheckKids(kids)[i] == CheckedKid(kids[i])
  {
    if kids != [] {
      KidByKid(kids[1..]);
    }
  }

  method CheckOwnName(node: Node)
    requires node.Valid()
    modifies node`props
    ensures node.Valid() && node.Value() == old(node.Value()).(props := CheckProps(node.name, old(node.props)))
  {
    CheckNameProperties(node);
    assert Values(node.children, node.Repr - {node}) == old(Values(node.children, node.Repr - {node}));
  }

  method CheckChild(node: Node, i: nat)
    requires node.Valid() && i < |node.children| && node.children[i].Valid()
    modifies node.children[i].Repr
    ensures node.Valid() && node.Repr == old(node.Repr) && node.children == old(node.children)
    ensures node.Value() == old(node.Value()).(kids := old(node.Value()).kids[i := CheckNames(old(node.Value()).kids[i])])
    decreases node.Repr, 0
  {
    hide CheckNames;
    ghost var R := node.Repr - {node};
    assert Forest(node.children, R);
    CheckNodesProps(node.children[i]);
    forall j | 0 <= j < |node.children| && j != i
      ensures var c := node.children[j]; c.Valid() && c.Repr == old(c.Repr) && c.Value() == old(c.Value())
    {
      assert old(node.children[j].Repr !! node.children[i].Repr);
    }
    assert Forest(node.children, R);
    assert node.Value().kids == old(node.Value()).kids[i := CheckNames(old(node.Value()).kids[i])];
  }

  method RunCheck(root: Node)
    requires root.Valid()
    modifies root.Repr
    ensures root.Valid() && root.Repr == old(root.Repr) && root.Value() == RunNameCheck(old(root.Value()))
  {
    hide root.Valid, root.Value, NamesAreStrings, CheckNames;
    var ok := CheckIsString(root);
    if ok {
      CheckNodesProps(root);
    }
  }
}
