/** Live trees in memory: nodes that are relinked, merged and marked in place. */
module LiveNode {
  import opened CText
  import opened LiveTree
  import opened TreeLabels

  class Node {
    const name: CString
    var deleted: bool
    var labels: seq<Label>
    var props: seq<Prop>
    var children: seq<Node>
    ghost var Repr: set<Node>

    /** Every node of the subtree has one place in it. */
    ghost predicate Valid()
      reads this, Repr
      ensures Valid() ==> this in Repr
      decreases Repr, 0
    {
      this in Repr && Forest(children, Repr - {this})
    }

    /** The tree that hangs from this node. */
    ghost function Value(): (t: Tree)
      requires Valid()
      reads this, Repr
      ensures t.name == name && t.deleted == deleted && t.labels == labels && t.props == props && |t.kids| == |children|
      decreases Repr, 0
    {
      Tree(name, deleted, labels, props, Values(children, Repr - {this}))
    }

    constructor (name: CString)
      ensures Valid() && fresh(Repr) && Value() == Tree(name, false, [], [], [])
    {
      this.name := name;
      deleted, labels, props, children := false, [], [], [];
      Repr := {this};
    }

    // ----- Labels and properties

    method AddProperty(p: Prop)
      requires Valid()
      modifies this`props
      ensures Valid() && Value() == old(Value()).(props := old(Value()).props + [p])
    {
      SetProps(props + [p]);
    }

    method DeletePropertyByName(propname: CString)
      modifies this`props
      ensures props == DeletePropNamed(old(props), propname)
    {
      var i := 0;
      while i < |props|
        invariant 0 <= i <= |props| && props == old(props)
        invariant forall j :: 0 <= j < i ==> props[j].name != propname
      {
        if props[i].name == propname {
          var p := DeleteProperty(props[i]);
          props := props[i := p];
          return;
        }
        i := i + 1;
      }
    }

    /** One property of a new node; a property of the same name is replaced, even a deleted one. */
    method TakeProperty(p: Prop)
      modifies this`props
      ensures props == MergeProp(old(props), p)
    {
      if p.deleted {
        DeletePropertyByName(p.name);
        return;
      }
      var i := 0;
      while i < |props|
        invariant 0 <= i <= |props| && props == old(props)
        invariant forall j :: 0 <= j < i ==> props[j].name != p.name
      {
        if props[i].name == p.name {
          var ls := MoreLabels(props[i].labels, p.labels);
          props := props[i := Prop(p.name, p.val, false, ls)];
          return;
        }
        i := i + 1;
      }
      props := props + [p];
    }

    /** The live property of a name. */
    method GetProperty(propname: CString) returns (r: Option<Prop>)
      ensures r == LiveTree.GetProperty(props, propname)
    {
      var i := 0;
      assert props[0..] == props;
      while i < |props|
        invariant 0 <= i <= |props|
        invariant LiveTree.GetProperty(props, propname) == LiveTree.GetProperty(props[i..], propname)
      {
        assert props[i..][1..] == props[i + 1..];
        if !props[i].deleted && props[i].name == propname {
          return Some(props[i]);
        }
        i := i + 1;
      }
      r := None;
    }

    // ----- Children

    /** Index of the child of a name, deleted ones included, or the number of children. */
    method FindChild(childname: CString) returns (i: nat)
      requires Valid()
      ensures i == FindKid(Value().kids, childname)
    {
      ghost var kids := Value().kids;
      i := 0;
      while i < |children|
        invariant 0 <= i <= |children|
        invariant forall j :: 0 <= j < i ==> kids[j].name != childname
      {
        assert kids[i] == children[i].Value();
        if children[i].name == childname {
          return;
        }
        i := i + 1;
      }
    }

    method AddChild(child: Node)
      requires Valid() && child.Valid() && Repr !! child.Repr
      modifies this`children, this`Repr
      ensures Valid() && Repr == old(Repr) + child.Repr
      ensures Value() == old(Value()).(kids := old(Value()).kids + [old(child.Value())])
    {
      ghost var R := Repr - {this};
      children := children + [child];
      Repr := Repr + child.Repr;
      forall i | 0 <= i < |children|
        ensures children[i].Valid() && children[i].Repr <= Repr - {this} && children[i] in Repr - {this}
        ensures children[i].Value() == if i < |old(children)| then old(children[i].Value()) else old(child.Value())
      {
        if i < |old(children)| {
          assert old(children[i].Valid()) && old(children[i].Repr) <= R;
        }
      }
      assert Forest(children, Repr - {this});
      assert Value().kids == old(Value()).kids + [old(child.Value())];
    }

    // ----- Deletion

    method SetDeleted(d: bool)
      requires Valid()
      modifies this`deleted
      ensures Valid() && Value() == old(Value()).(deleted := d)
    {
      deleted := d;
      assert Values(children, Repr - {this}) == old(Values(children, Repr - {this}));
    }

    method SetLabels(ls: seq<Label>)
      requires Valid()
      modifies this`labels
      ensures Valid() && Value() == old(Value()).(labels := ls)
    {
      labels := ls;
      assert Values(children, Repr - {this}) == old(Values(children, Repr - {this}));
    }

    /** Marks the node and everything live in it as deleted. */
    method Delete()
      requires Valid()
      modifies Repr
      ensures Valid() && Repr == old(Repr) && Value() == DeleteTree(old(Value()))
      ensures Gone(old(Value()), Value())
      decreases Repr, 2
    {
      hide Valid, Value, Gone;
      DeletedIsGone(Value());
      SetDeleted(true);
      DeleteChildren();
      DeleteProperties();
      var ls := MarkLabels(labels);
      SetLabels(ls);
    }

    method DeleteChildren()
      requires Valid()
      modifies Repr
      ensures Valid() && Repr == old(Repr) && Value() == old(Value()).(kids := DeleteKids(old(Value()).kids))
      decreases Repr, 1
    {
      hide Valid, Value, DeleteTree, DeleteKids, Forest;
      ghost var t := Value();
      for i := 0 to |children|
        invariant Valid() && Repr == old(Repr) && children == old(children)
        invariant Value() == t.(kids := Value().kids) && |Value().kids| == |t.kids| == |children|
        invariant forall j :: 0 <= j < i ==> Value().kids[j] == if t.kids[j].deleted then t.kids[j] else DeleteTree(t.kids[j])
        invariant forall j :: i <= j < |children| ==> Value().kids[j] == t.kids[j]
      {
        ChildValue(i);
        if !children[i].deleted {
          DeleteChild(i);
        }
      }
      assert Value().kids == DeleteKids(t.kids);
    }

    lemma ChildValue(i: nat)
      requires Valid() && i < |children|
      ensures children[i] in Repr && children[i].Repr <= Repr && children[i].Valid() && children[i].Value() == Value().kids[i]
      ensures children[i].deleted == Value().kids[i].deleted && this !in children[i].Repr
    {
    }

    /** Marks all live properties. */
    method DeleteProperties()
      requires Valid()
      modifies this`props
      ensures Valid() && Value() == old(Value()).(props := DeleteProps(old(Value()).props))
    {
      hide Valid, DeleteProp;
      for i := 0 to |props|
        invariant Valid() && |props| == |old(props)| && Value() == old(Value()).(props := props)
        invariant forall j :: 0 <= j < i ==>
                    props[j] == if old(props)[j].deleted then old(props)[j] else DeleteProp(old(props)[j])
        invariant forall j :: i <= j < |props| ==> props[j] == old(props)[j]
      {
        if !props[i].deleted {
          var p := DeleteProperty(props[i]);
          SetProps(props[i := p]);
        }
      }
      assert props == DeleteProps(old(props));
    }

    method SetProps(ps: seq<Prop>)
      requires Valid()
      modifies this`props
      ensures Valid() && props == ps && Value() == old(Value()).(props := ps)
    {
      props := ps;
      assert Values(children, Repr - {this}) == old(Values(children, Repr - {this}));
    }

    method DeleteChild(i: nat)
      requires Valid() && i < |children| && children[i].Valid()
      modifies children[i].Repr
      ensures Valid() && Repr == old(Repr) && children == old(children)
      ensures Value() == old(Value()).(kids := old(Value()).kids[i := DeleteTree(old(Value()).kids[i])])
      decreases Repr, 0
    {
      hide DeleteTree;
      ghost var R := Repr - {this};
      assert Forest(children, R);
      children[i].Delete();
      forall j | 0 <= j < |children| && j != i
        ensures children[j].Valid() && children[j].Repr == old(children[j].Repr) && children[j].Value() == old(children[j].Value())
      {
        assert old(children[j].Repr !! children[i].Repr);
      }
      assert Forest(children, R);
      assert Value().kids == old(Value()).kids[i := DeleteTree(old(Value()).kids[i])];
    }

    method DeleteNodeByName(childname: CString)
      requires Valid()
      modifies Repr
      ensures Valid() && Repr == old(Repr)
      ensures Value() == old(Value()).(kids := DeleteKidNamed(old(Value()).kids, childname))
    {
      ghost var kids := Value().kids;
      var i := FindChild(childname);
      if i < |children| {
        ChildValue(i);
        DeleteChild(i);
      }
    }

    // ----- Merging

    /** One child of a new node: it deletes, joins or becomes a child of this one. */
    method TakeChild(child: Node)
      requires Valid() && child.Valid() && Repr !! child.Repr
      modifies Repr, child.Repr
      ensures Valid() && old(Repr) <= Repr <= old(Repr + child.Repr)
      ensures Value() == old(Value()).(kids := MergeKid(old(Value()).kids, old(child.Value())))
      decreases child.Repr, 4
    {
      ghost var kids, k := Value().kids, child.Value();
      if child.deleted {
        DeleteNodeByName(child.name);
        return;
      }
      var i := FindChild(child.name);
      if i < |children| {
        MergeChild(i, child);
      } else {
        AddChild(child);
      }
    }

    method MergeChild(i: nat, child: Node)
      requires Valid() && i < |children| && child.Valid() && Repr !! child.Repr
      modifies this`Repr, children[i].Repr, child.Repr
      ensures Valid() && old(Repr) <= Repr <= old(Repr + child.Repr)
      ensures Value() == old(Value()).(kids := old(Value()).kids[i := Merge(old(Value()).kids[i], old(child.Value()))])
      decreases child.Repr, 3
    {
      hide Merge;
      children[i].MergeNodes(child);
      Repr := Repr + children[i].Repr;
      forall j | 0 <= j < |children| && j != i
        ensures children[j].Valid() && children[j].Repr == old(children[j].Repr) && children[j].Value() == old(children[j].Value())
        ensures children[i].Repr !! children[j].Repr
      {
        assert old(children[j].Repr !! children[i].Repr);
        assert old(children[j].Repr <= Repr - {this});
        assert old(children[j].Valid());
      }
      assert Forest(children, Repr - {this});
      assert Value().kids == old(Value()).kids[i := Merge(old(Value()).kids[i], old(child.Value()))];
    }

    /** Moves the properties of a new node into this one. */
    method TakeProperties(newNode: Node)
      requires Valid() && newNode !in Repr
      modifies this`props, newNode`props
      ensures Valid() && Value() == old(Value()).(props := MergeProps(old(Value()).props, old(newNode.props)))
    {
      hide MergeProp;
      while newNode.props != []
        invariant MergeProps(props, newNode.props) == MergeProps(old(props), old(newNode.props))
        decreases newNode.props
      {
        var p := newNode.props[0];
        newNode.props := newNode.props[1..];
        TakeProperty(p);
      }
      assert Values(children, Repr - {this}) == old(Values(children, Repr - {this}));
    }

    /** Moves the first child of a new node, whose children lie in R, into this one. */
    method TakeFirstChild(newNode: Node, ghost R: set<Node>) returns (ghost S: set<Node>)
      requires Valid() && newNode !in Repr && newNode !in R && Repr !! R
      requires Forest(newNode.children, R) && newNode.children != []
      modifies Repr, newNode`children, R
      ensures Valid() && old(Repr) <= Repr <= old(Repr) + R && S <= R && Repr !! S
      ensures Forest(newNode.children, S) && Values(newNode.children, S) == old(Values(newNode.children, R))[1..]
      ensures |newNode.children| == |old(newNode.children)| - 1
      ensures Value() == old(Value()).(kids := MergeKid(old(Value()).kids, old(Values(newNode.children, R))[0]))
      decreases R, 5
    {
      hide MergeKid;
      FirstTree(newNode.children, R);
      var child := newNode.children[0];
      S := R - child.Repr;
      newNode.children := newNode.children[1..];
      TakeChild(child);
    }

    /** Moves all children of a new node into this one. */
    method TakeChildren(newNode: Node, ghost R: set<Node>)
      requires Valid() && newNode !in Repr && newNode !in R && Repr !! R && Forest(newNode.children, R)
      modifies Repr, newNode`children, R
      ensures Valid() && old(Repr) <= Repr <= old(Repr) + R
      ensures Value() == old(Value()).(kids := MergeKids(old(Value()).kids, old(Values(newNode.children, R))))
      decreases R, 6
    {
      hide Valid, Value, Forest, Values, MergeKid;
      ghost var o, more, S := Value(), Values(newNode.children, R), R;
      while newNode.children != []
        invariant Valid() && old(Repr) <= Repr <= old(Repr) + R && newNode !in Repr
        invariant S <= R && Repr !! S && Forest(newNode.children, S)
        invariant Value() == o.(kids := Value().kids)
        invariant MergeKids(Value().kids, Values(newNode.children, S)) == MergeKids(o.kids, more)
        decreases |newNode.children|
      {
        S := TakeFirstChild(newNode, S);
      }
    }

    /** The live node that a path leads to. */
    method GetNodeByPath(path: CString) returns (node: Node?)
      requires Valid()
      ensures var found := NodeByPath(Value(), path);
              if found.None? then node == null else node != null && node.Valid() && node.Value() == found.value
      decreases |path|
    {
      hide Valid, Value, SkipSlashes, FirstSlash, Forest, Values;
      if path == [] {
        if deleted {
          return null;
        }
        return this;
      }
      var p := SkipSlashes(path);
      var i := FirstSlash(p);
      ghost var kids := Value().kids;
      assert kids[0..] == kids;
      for j := 0 to |children|
        invariant GetSubnode(kids, p[..i]) == GetSubnode(kids[j..], p[..i])
      {
        ChildValue(j);
        assert kids[j..][1..] == kids[j + 1..];
        if !children[j].deleted && children[j].name == p[..i] {
          if i < |p| {
            node := children[j].GetNodeByPath(p[i + 1..]);
          } else {
            node := children[j];
          }
          return;
        }
      }
      node := null;
    }

    /** Moves the contents of a new node into this one. */
    method MergeNodes(newNode: Node)
      requires Valid() && newNode.Valid() && Repr !! newNode.Repr
      modifies Repr, newNode.Repr
      ensures Valid() && old(Repr) <= Repr <= old(Repr + newNode.Repr)
      ensures Value() == Merge(old(Value()), old(newNode.Value()))
      ensures Merged(old(Value()), old(newNode.Value()), Value())
      decreases newNode.Repr, 2
    {
      hide Valid, Value, Merged, Merge;
      MergeIsMerged(Value(), newNode.Value());
      TakeContents(newNode);
    }

    method TakeContents(newNode: Node)
      requires Valid() && newNode.Valid() && Repr !! newNode.Repr
      modifies Repr, newNode.Repr
      ensures Valid() && old(Repr) <= Repr <= old(Repr + newNode.Repr)
      ensures Value() == Merge(old(Value()), old(newNode.Value()))
      decreases newNode.Repr, 1
    {
      ghost var R := newNode.Repr - {newNode};
      hide Valid, Value, Forest, Values, AddLabels, MergeProps, MergeKids;
      SetDeleted(false);
      var ls := MoreLabels(labels, newNode.labels);
      SetLabels(ls);
      TakeProperties(newNode);
      TakeChildren(newNode, R);
    }
  }

  /** Disjoint trees inside a set of nodes. */
  ghost predicate Forest(ns: seq<Node>, R: set<Node>)
    reads R
    decreases R, 1
  {
    && (forall i :: 0 <= i < |ns| ==> ns[i] in R && ns[i].Repr <= R && ns[i].Valid())
    && (forall i, j :: 0 <= i < j < |ns| ==> ns[i].Repr !! ns[j].Repr)
  }

  ghost function Values(ns: seq<Node>, R: set<Node>): (ts: seq<Tree>)
    requires Forest(ns, R)
    reads R
    ensures |ts| == |ns|
    ensures forall i :: 0 <= i < |ns| ==> ts[i] == ns[i].Value()
    decreases R, 1
  {
    seq(|ns|, i requires 0 <= i < |ns| && Forest(ns, R) reads R => ns[i].Value())
  }

  /** A label that is there already comes back to life; a new one goes to the front. */
  method AddLabel(ls: seq<Label>, added: CString) returns (r: seq<Label>)
    ensures r == LiveTree.AddLabel(ls, added)
  {
    var i := 0;
    while i < |ls|
      invariant 0 <= i <= |ls|
      invariant forall j :: 0 <= j < i ==> ls[j].name != added
    {
      if ls[i].name == added {
        return ls[i := Label(added, false)];
      }
      i := i + 1;
    }
    r := [Label(added, false)] + ls;
  }

  /** The first of several disjoint trees, and the forest of the others. */
  lemma FirstTree(ns: seq<Node>, R: set<Node>)
    requires Forest(ns, R) && ns != []
    ensures var S := R - ns[0].Repr;
            Forest(ns[1..], S) && Values(ns[1..], S) == Values(ns, R)[1..]
  {
  }

  /** Adds the second list of labels to the first. */
  method MoreLabels(ls: seq<Label>, more: seq<Label>) returns (r: seq<Label>)
    ensures r == AddLabels(ls, more)
  {
    r := ls;
    var rest := more;
    while rest != []
      invariant AddLabels(r, rest) == AddLabels(ls, more)
      decreases rest
    {
      r := AddLabel(r, rest[0].name);
      rest := rest[1..];
    }
  }

  /** Marks all live labels as deleted. */
  method MarkLabels(ls: seq<Label>) returns (r: seq<Label>)
    ensures r == DeleteLabels(ls)
  {
    r := ls;
    for i := 0 to |ls|
      invariant |r| == |ls|
      invariant forall j :: 0 <= j < i ==> r[j] == Label(ls[j].name, true)
      invariant forall j :: i <= j < |ls| ==> r[j] == ls[j]
    {
      if !r[i].deleted {
        r := r[i := Label(r[i].name, true)];
      }
    }
  }

  method DeleteProperty(p: Prop) returns (r: Prop)
    ensures r == DeleteProp(p)
  {
    var ls := MarkLabels(p.labels);
    r := p.(deleted := true, labels := ls);
  }
}
