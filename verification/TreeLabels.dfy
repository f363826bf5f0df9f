/** Which labels a merge leaves on which node and property, and in which order entries stand. */
module TreeLabels {
  import opened CText
  import opened LiveTree
  import opened TreeMerge

  // ----- Lists of labels

  predicate LiveLabel(ls: seq<Label>, name: CString) {
    exists i :: 0 <= i < |ls| && ls[i] == Label(name, false)
  }

  /** The label is listed, deleted or not. */
  predicate Listed(ls: seq<Label>, name: CString) {
    exists i :: 0 <= i < |ls| && ls[i].name == name
  }

  /** The merged list carries the live labels of the old one and all labels of the new one. */
  lemma {:induction false} AddedLabels(ls: seq<Label>, more: seq<Label>, name: CString)
    ensures LiveLabel(AddLabels(ls, more), name) <==>
              LiveLabel(ls, name) || Listed(more, name)
    decreases more
  {
    hide AddLabel, LiveLabel;
    if more != [] {
      var rest := more[1..];
      AddedLabel(ls, more[0].name, name);
      AddedLabels(AddLabel(ls, more[0].name), rest, name);
      assert forall i :: 0 <= i < |rest| ==> rest[i] == more[i + 1];
      if i :| 0 <= i < |more| && more[i].name == name && i > 0 {
        assert rest[i - 1].name == name;
      }
    }
  }

  lemma AddedLabel(ls: seq<Label>, added: CString, name: CString)
    ensures LiveLabel(AddLabel(ls, added), name) <==> LiveLabel(ls, name) || name == added
  {
    var r, k := AddLabel(ls, added), FindLabel(ls, added);
    if k < |ls| {
      assert r[k] == Label(added, false);
    } else {
      assert r[0] == Label(added, false);
    }
    if i :| 0 <= i < |ls| && ls[i] == Label(name, false) {
      assert r[if k < |ls| then i else i + 1] == Label(name, false);
    }
  }

  lemma DeletedLabels(ls: seq<Label>, name: CString)
    ensures !LiveLabel(DeleteLabels(ls), name)
  {
  }

  // ----- One node and one property

  /** A merged node has the live labels of the old node and all labels of the new one. */
  lemma NodeLabels(o: Tree, n: Tree, name: CString)
    ensures LiveLabel(Merge(o, n).labels, name) <==> LiveLabel(o.labels, name) || Listed(n.labels, name)
  {
    hide LiveLabel, Listed, AddLabels, MergeProps, MergeKids;
    AddedLabels(o.labels, n.labels, name);
  }

  /**
   A live property goes to the place of the entry of its name, whose live labels
   stay and which gets all labels of the new one; without such an entry it goes
   last, as it is. Every other entry keeps its place.
   */
  lemma PropertyPlace(props: seq<Prop>, p: Prop, name: CString)
    requires !p.deleted
    ensures var r, i := MergeProp(props, p), FindProp(props, p.name);
            && (i == |props| ==> r == props + [p])
            && (i < |props| ==>
                  && |r| == |props| && (forall j :: 0 <= j < |props| && j != i ==> r[j] == props[j])
                  && r[i].name == p.name && r[i].val == p.val && !r[i].deleted
                  && (LiveLabel(r[i].labels, name) <==> LiveLabel(props[i].labels, name) || Listed(p.labels, name)))
  {
    hide LiveLabel, Listed, AddLabels;
    var i := FindProp(props, p.name);
    if i < |props| {
      AddedLabels(props[i].labels, p.labels, name);
    }
  }

  // ----- Every node and property of a tree

  /** A label of the node at a path, or of a property of it. */
  datatype LabelQuery = OfNode(text: CString) | OfProperty(prop: CString, text: CString)

  function PropHas(props: seq<Prop>, name: CString, text: CString): bool {
    var p := GetProperty(props, name);
    p.Some? && LiveLabel(p.value.labels, text)
  }

  /** Whether the label is found from a node along a path. */
  predicate Has(t: Tree, path: seq<CString>, q: LabelQuery)
    decreases |path|, 1
  {
    if path == [] then (if q.OfNode? then LiveLabel(t.labels, q.text) else PropHas(t.props, q.prop, q.text))
    else KidsHave(t.kids, path, q)
  }

  predicate KidsHave(kids: seq<Tree>, path: seq<CString>, q: LabelQuery)
    requires path != []
    decreases |path|, 0
  {
    var kid := GetSubnode(kids, path[0]);
    kid.Some? && Has(kid.value, path[1..], q)
  }

  /** What a tree that is merged in does to a label. */
  datatype Claim = Puts | Removes | Leaves

  function After(v: Claim, w: Claim): Claim {
    if w.Leaves? then v else w
  }

  function Holds(v: Claim, before: bool): bool {
    match v
    case Puts => true
    case Removes => false
    case Leaves => before
  }

  function ListClaim(ls: seq<Label>, text: CString): Claim {
    if Listed(ls, text) then Puts else Leaves
  }

  function PropClaim(p: Prop, name: CString, text: CString): Claim {
    if p.name != name then Leaves else if p.deleted then Removes else ListClaim(p.labels, text)
  }

  function PropsClaim(props: seq<Prop>, name: CString, text: CString): Claim {
    if props == [] then Leaves else After(PropClaim(props[0], name, text), PropsClaim(props[1..], name, text))
  }

  function Claims(t: Tree, path: seq<CString>, q: LabelQuery): Claim
    decreases t, 0
  {
    if path == [] then
      (if q.OfNode? then ListClaim(t.labels, q.text) else PropsClaim(t.props, q.prop, q.text))
    else KidsClaim(t.kids, path, q)
  }

  function KidsClaim(kids: seq<Tree>, path: seq<CString>, q: LabelQuery): Claim
    requires path != []
    decreases kids
  {
    if kids == [] then Leaves else After(KidClaim(kids[0], path, q), KidsClaim(kids[1..], path, q))
  }

  function KidClaim(k: Tree, path: seq<CString>, q: LabelQuery): Claim
    requires path != []
    decreases k, 1
  {
    if k.name != path[0] then Leaves else if k.deleted then Removes else Claims(k, path[1..], q)
  }

  lemma HoldsAfter(v: Claim, w: Claim, before: bool)
    ensures Holds(After(v, w), before) == Holds(w, Holds(v, before))
  {
  }

  // ----- Conditions on labels

  predicate NoLiveLabel(ls: seq<Label>) {
    forall i :: 0 <= i < |ls| ==> ls[i].deleted
  }

  predicate OnlyLiveLabels(ls: seq<Label>) {
    forall i :: 0 <= i < |ls| ==> !ls[i].deleted
  }

  /** Deleted properties carry no live label. */
  predicate TidyProps(props: seq<Prop>) {
    forall i :: 0 <= i < |props| && props[i].deleted ==> NoLiveLabel(props[i].labels)
  }

  /** Deleted nodes and properties carry no live label: deletion takes the labels along. */
  predicate Tidy(t: Tree)
    decreases t, 1
  {
    (t.deleted ==> NoLiveLabel(t.labels)) && TidyProps(t.props) && TidyKids(t.kids)
  }

  predicate TidyKids(kids: seq<Tree>)
    decreases kids, 0
  {
    forall i :: 0 <= i < |kids| ==> Tidy(kids[i])
  }

  predicate FreshProps(props: seq<Prop>) {
    forall i :: 0 <= i < |props| && !props[i].deleted ==> OnlyLiveLabels(props[i].labels)
  }

  /** A tree as it comes from the parser: no label of a live entry is deleted. */
  predicate Fresh(t: Tree)
    decreases t, 1
  {
    (!t.deleted ==> OnlyLiveLabels(t.labels)) && FreshProps(t.props) && FreshKids(t.kids)
  }

  predicate FreshKids(kids: seq<Tree>)
    decreases kids, 0
  {
    forall i :: 0 <= i < |kids| ==> Fresh(kids[i])
  }

  // ----- Properties

  lemma PropMergeHas(props: seq<Prop>, p: Prop, name: CString, text: CString)
    requires UniqueProps(props) && TidyProps(props) && (p.deleted ==> NoLiveLabel(p.labels)) && (!p.deleted ==> OnlyLiveLabels(p.labels))
    ensures UniqueProps(MergeProp(props, p)) && TidyProps(MergeProp(props, p))
    ensures PropHas(MergeProp(props, p), name, text) == Holds(PropClaim(p, name, text), PropHas(props, name, text))
  {
    hide FindProp, AddLabels, GetProperty;
    var r := MergeProp(props, p);
    MergePropAnswer(props, p, name);
    UniquePropLookup(props, name);
    UniquePropLookup(r, name);
    SameNames(props, r, name);
    if !p.deleted {
      PropertyPlace(props, p, text);
    }
  }

  lemma {:induction false} PropsMergeHas(props: seq<Prop>, more: seq<Prop>, name: CString, text: CString)
    requires UniqueProps(props) && TidyProps(props) && TidyProps(more) && FreshProps(more)
    ensures TidyProps(MergeProps(props, more))
    ensures PropHas(MergeProps(props, more), name, text) == Holds(PropsClaim(more, name, text), PropHas(props, name, text))
    decreases more
  {
    hide MergeProp, PropHas, PropClaim, UniqueProps;
    if more != [] {
      var rest := more[1..];
      assert forall i :: 0 <= i < |rest| ==> rest[i] == more[i + 1];
      PropMergeHas(props, more[0], name, text);
      PropsMergeHas(MergeProp(props, more[0]), rest, name, text);
      HoldsAfter(PropClaim(more[0], name, text), PropsClaim(rest, name, text), PropHas(props, name, text));
    }
  }

  /** A list without repeated names claims what it has. */
  lemma {:induction false} PropsClaimThemselves(props: seq<Prop>, name: CString, text: CString)
    requires UniqueProps(props) && FreshProps(props)
    ensures PropHas(props, name, text) == Holds(PropsClaim(props, name, text), false)
    ensures (forall i :: 0 <= i < |props| ==> props[i].name != name) ==> PropsClaim(props, name, text) == Leaves
  {
    if props != [] {
      var rest := props[1..];
      assert forall i :: 0 <= i < |rest| ==> rest[i] == props[i + 1];
      PropsClaimThemselves(rest, name, text);
      LiveIsListed(props[0].labels, text);
    }
  }

  lemma LiveIsListed(ls: seq<Label>, text: CString)
    ensures LiveLabel(ls, text) ==> Listed(ls, text)
    ensures OnlyLiveLabels(ls) ==> (Listed(ls, text) ==> LiveLabel(ls, text))
    ensures NoLiveLabel(ls) ==> !LiveLabel(ls, text)
  {
    if OnlyLiveLabels(ls) && Listed(ls, text) {
      var i :| 0 <= i < |ls| && ls[i].name == text;
      assert ls[i] == Label(text, false);
    }
  }

  // ----- Whole trees

  lemma {:induction false} ClaimsItself(t: Tree, path: seq<CString>, q: LabelQuery)
    requires Unique(t) && Fresh(t) && !t.deleted
    ensures Has(t, path, q) == Holds(Claims(t, path, q), false)
    decreases t, 1
  {
    if path != [] {
      KidsClaimThemselves(t.kids, path, q);
    } else if q.OfProperty? {
      PropsClaimThemselves(t.props, q.prop, q.text);
    } else {
      LiveIsListed(t.labels, q.text);
    }
  }

  lemma {:induction false} KidsClaimThemselves(kids: seq<Tree>, path: seq<CString>, q: LabelQuery)
    requires path != [] && UniqueKids(kids) && (forall i :: 0 <= i < |kids| ==> Unique(kids[i])) && FreshKids(kids)
    ensures KidsHave(kids, path, q) == Holds(KidsClaim(kids, path, q), false)
    ensures (forall i :: 0 <= i < |kids| ==> kids[i].name != path[0]) ==> KidsClaim(kids, path, q) == Leaves
    decreases kids
  {
    if kids != [] {
      var rest := kids[1..];
      assert forall i :: 0 <= i < |rest| ==> rest[i] == kids[i + 1];
      KidsClaimThemselves(rest, path, q);
      if kids[0].name == path[0] {
        assert GetSubnode(rest, path[0]).None?;
        if !kids[0].deleted {
          ClaimsItself(kids[0], path[1..], q);
        }
      }
    }
  }

  lemma {:induction false} DeletedIsTidy(t: Tree)
    requires Tidy(t)
    ensures Tidy(DeleteTree(t))
    decreases t, 1
  {
    hide DeleteKids;
    DeletedKidsAreTidy(t.kids);
  }

  lemma {:induction false} DeletedKidsAreTidy(kids: seq<Tree>)
    requires TidyKids(kids)
    ensures TidyKids(DeleteKids(kids))
    decreases kids, 0
  {
    hide Tidy, DeleteTree;
    forall i | 0 <= i < |kids|
      ensures Tidy(DeleteKids(kids)[i])
    {
      if !kids[i].deleted {
        DeletedIsTidy(kids[i]);
      }
    }
  }

  /** Nothing is found in a deleted node. */
  lemma DeadHasNothing(t: Tree, path: seq<CString>, q: LabelQuery)
    requires t.deleted && Dead(t) && Tidy(t)
    ensures !Has(t, path, q)
  {
    if path != [] {
      assert GetSubnode(t.kids, path[0]).None?;
    } else if q.OfProperty? {
      assert GetProperty(t.props, q.prop).None?;
    }
  }

  lemma {:induction false} MergeKidHas(kids: seq<Tree>, k: Tree, path: seq<CString>, q: LabelQuery)
    requires path != [] && UniqueKids(kids) && GoodKids(kids) && WellFormed(k) && TidyKids(kids) && Tidy(k) && Fresh(k)
    ensures TidyKids(MergeKid(kids, k))
    ensures KidsHave(MergeKid(kids, k), path, q) == Holds(KidClaim(k, path, q), KidsHave(kids, path, q))
    decreases k, 2
  {
    hide Merge, DeleteTree, Unique, Dead, Claims, Has, FindKid, GetSubnode, Tidy, Fresh;
    var r, i := MergeKid(kids, k), FindKid(kids, k.name);
    MergeKidKeeps(kids, k);
    UniqueKidLookup(kids, path[0]);
    UniqueKidLookup(r, path[0]);
    SameKidNames(kids, r, path[0]);
    if k.deleted {
      if i < |kids| {
        DeletedIsWellFormed(kids[i]);
        DeletedIsTidy(kids[i]);
      }
    } else if i < |kids| {
      WellFormedParts(k);
      FreshParts(k);
      MergedRoot(kids[i], k);
      MergeHas(kids[i], k, path[1..], q);
      if kids[i].deleted {
        DeadHasNothing(kids[i], path[1..], q);
      }
    } else if k.name == path[0] {
      ClaimsItself(k, path[1..], q);
    }
  }

  lemma FreshParts(t: Tree)
    requires Fresh(t) && Tidy(t)
    ensures FreshProps(t.props) && FreshKids(t.kids) && TidyProps(t.props) && TidyKids(t.kids)
  {
  }

  lemma {:induction false} MergeKidsHave(kids: seq<Tree>, more: seq<Tree>, path: seq<CString>, q: LabelQuery)
    requires path != [] && UniqueKids(kids) && GoodKids(kids) && GoodKids(more) && TidyKids(kids) && TidyKids(more) && FreshKids(more)
    ensures TidyKids(MergeKids(kids, more))
    ensures KidsHave(MergeKids(kids, more), path, q) == Holds(KidsClaim(more, path, q), KidsHave(kids, path, q))
    decreases more
  {
    hide WellFormed, MergeKid, KidsHave, KidClaim, Tidy, Fresh;
    if more != [] {
      var rest := more[1..];
      assert forall i :: 0 <= i < |rest| ==> rest[i] == more[i + 1];
      MergeKidKeeps(kids, more[0]);
      MergeKidHas(kids, more[0], path, q);
      MergeKidsHave(MergeKid(kids, more[0]), rest, path, q);
      HoldsAfter(KidClaim(more[0], path, q), KidsClaim(rest, path, q), KidsHave(kids, path, q));
    }
  }

  /**
   Every label of every live node and property after a merge: there if the new
   tree lists it on the entry, gone where the new tree deletes the entry or a
   node above it, and otherwise as before.
   */
  lemma {:induction false} MergeHas(o: Tree, n: Tree, path: seq<CString>, q: LabelQuery)
    requires WellFormed(o) && Mergeable(n) && Tidy(o)
    requires FreshProps(n.props) && FreshKids(n.kids) && TidyProps(n.props) && TidyKids(n.kids)
    ensures Has(Merge(o, n), path, q) == Holds(Claims(n, path, q), Has(o, path, q))
    ensures Tidy(Merge(o, n))
    decreases n, 0
  {
    hide WellFormed, Mergeable, LiveLabel, Listed;
    WellFormedParts(o);
    MergeableKids(n);
    var some := if path == [] then [[]] else path;
    MergeKidsHave(o.kids, n.kids, some, q);
    var p, l := if q.OfProperty? then q.prop else [], q.text;
    PropsMergeHas(o.props, n.props, p, l);
    NodeLabels(o, n, l);
  }

  // ----- Order

  /** Position of the first live property of a name. */
  function FirstLiveProp(props: seq<Prop>, name: CString): (i: nat)
    ensures i <= |props| && (i < |props| ==> props[i].name == name && !props[i].deleted)
    ensures forall j :: 0 <= j < i ==> props[j].name != name || props[j].deleted
  {
    if props == [] || (props[0].name == name && !props[0].deleted) then 0 else 1 + FirstLiveProp(props[1..], name)
  }

  function FirstLiveKid(kids: seq<Tree>, name: CString): (i: nat)
    ensures i <= |kids| && (i < |kids| ==> kids[i].name == name && !kids[i].deleted)
    ensures forall j :: 0 <= j < i ==> kids[j].name != name || kids[j].deleted
  {
    if kids == [] || (kids[0].name == name && !kids[0].deleted) then 0 else 1 + FirstLiveKid(kids[1..], name)
  }

  /** The old properties in their places, then the added ones in the order in which the new list has them. */
  predicate PropsInOrder(old': seq<Prop>, more: seq<Prop>, r: seq<Prop>) {
    && |old'| <= |r| && (forall i :: 0 <= i < |old'| ==> r[i].name == old'[i].name)
    && (forall i :: |old'| <= i < |r| ==> FirstLiveProp(more, r[i].name) < |more|)
    && forall i, j :: |old'| <= i < j < |r| ==> FirstLiveProp(more, r[i].name) < FirstLiveProp(more, r[j].name)
  }

  predicate KidsInOrder(old': seq<Tree>, more: seq<Tree>, r: seq<Tree>) {
    && |old'| <= |r| && (forall i :: 0 <= i < |old'| ==> r[i].name == old'[i].name)
    && (forall i :: |old'| <= i < |r| ==> FirstLiveKid(more, r[i].name) < |more|)
    && forall i, j :: |old'| <= i < j < |r| ==> FirstLiveKid(more, r[i].name) < FirstLiveKid(more, r[j].name)
  }

  lemma {:induction false} MergedPropsOrder(props: seq<Prop>, more: seq<Prop>)
    requires UniqueProps(props)
    ensures UniqueProps(MergeProps(props, more)) && PropsInOrder(props, more, MergeProps(props, more))
    decreases more
  {
    hide MergeProps;
    MergePropsAnswer(props, more, []);
    if more == [] {
      NothingMerged(props, []);
    } else {
      var m, rest := more[0], more[1..];
      var next, r := MergeProp(props, m), MergeProps(props, more);
      MergePropAnswer(props, m, []);
      FirstMerged(props, more);
      MergedPropsOrder(next, rest);
      forall i | |props| <= i < |r|
        ensures FirstLiveProp(more, r[i].name) == if i < |next| then 0 else 1 + FirstLiveProp(rest, r[i].name)
      {
        if i >= |next| && !m.deleted {
          var k := FindProp(props, m.name);
          assert r[k].name == m.name;
        }
      }
    }
  }

  lemma NothingMerged(props: seq<Prop>, kids: seq<Tree>)
    ensures MergeProps(props, []) == props && MergeKids(kids, []) == kids
  {
  }

  lemma FirstMerged(props: seq<Prop>, more: seq<Prop>)
    requires more != []
    ensures MergeProps(props, more) == MergeProps(MergeProp(props, more[0]), more[1..])
  {
  }

  lemma {:induction false} MergedKidsOrder(kids: seq<Tree>, more: seq<Tree>)
    requires UniqueKids(kids) && GoodKids(kids) && GoodKids(more)
    ensures UniqueKids(MergeKids(kids, more)) && KidsInOrder(kids, more, MergeKids(kids, more))
    decreases more
  {
    hide MergeKids, WellFormed, MergeKid;
    MergeKidsKeep(kids, more);
    if more == [] {
      NothingMerged([], kids);
    } else {
      var m, rest := more[0], more[1..];
      var next, r := MergeKid(kids, m), MergeKids(kids, more);
      MergeKidKeeps(kids, m);
      FirstMergedKid(kids, more);
      assert forall i :: 0 <= i < |rest| ==> rest[i] == more[i + 1];
      MergedKidsOrder(next, rest);
      forall i | |kids| <= i < |r|
        ensures FirstLiveKid(more, r[i].name) == if i < |next| then 0 else 1 + FirstLiveKid(rest, r[i].name)
      {
        if i >= |next| && !m.deleted {
          KidHasPlace(kids, m);
          var k := FindKid(kids, m.name);
          assert r[k].name == m.name;
        }
      }
    }
  }

  lemma FirstMergedKid(kids: seq<Tree>, more: seq<Tree>)
    requires more != []
    ensures MergeKids(kids, more) == MergeKids(MergeKid(kids, more[0]), more[1..])
  {
  }

  lemma KidHasPlace(kids: seq<Tree>, k: Tree)
    requires !k.deleted
    ensures FindKid(kids, k.name) < |MergeKid(kids, k)|
  {
  }

  // ----- Lookups and deletion

  /** A lookup gives the first live entry of the name. */
  lemma {:induction false} LookupIsFirst(props: seq<Prop>, kids: seq<Tree>, name: CString)
    ensures var i := FirstLiveProp(props, name); GetProperty(props, name) == if i < |props| then Some(props[i]) else None
    ensures var i := FirstLiveKid(kids, name); GetSubnode(kids, name) == if i < |kids| then Some(kids[i]) else None
    decreases |props| + |kids|
  {
    if props != [] && kids != [] {
      LookupIsFirst(props[1..], kids[1..], name);
    } else if props != [] {
      LookupIsFirst(props[1..], kids, name);
    } else if kids != [] {
      LookupIsFirst(props, kids[1..], name);
    }
  }

  /** The same labels, all deleted. */
  predicate LabelsGone(ls: seq<Label>, r: seq<Label>) {
    |r| == |ls| && forall i :: 0 <= i < |ls| ==> r[i].name == ls[i].name && r[i].deleted
  }

  predicate PropGone(p: Prop, r: Prop) {
    if p.deleted then r == p else r.name == p.name && r.val == p.val && r.deleted && LabelsGone(p.labels, r.labels)
  }

  /** The same node with everything in its place, but marked as deleted wherever it was live. */
  predicate Gone(t: Tree, r: Tree)
    decreases t
  {
    && r.name == t.name && r.deleted && LabelsGone(t.labels, r.labels)
    && |r.props| == |t.props| && (forall i :: 0 <= i < |t.props| ==> PropGone(t.props[i], r.props[i]))
    && |r.kids| == |t.kids|
    && forall i :: 0 <= i < |t.kids| ==> if t.kids[i].deleted then r.kids[i] == t.kids[i] else Gone(t.kids[i], r.kids[i])
  }

  lemma {:induction false} DeletedIsGone(t: Tree)
    ensures Gone(t, DeleteTree(t))
    decreases t
  {
    var r := DeleteTree(t);
    forall i | 0 <= i < |t.kids|
      ensures if t.kids[i].deleted then r.kids[i] == t.kids[i] else Gone(t.kids[i], r.kids[i])
    {
      if !t.kids[i].deleted {
        DeletedIsGone(t.kids[i]);
      }
    }
  }

  // ----- All of it

  /** Conditions on labels of the tree merged in, its own node aside. */
  predicate FreshBelow(n: Tree) {
    FreshProps(n.props) && FreshKids(n.kids) && TidyProps(n.props) && TidyKids(n.kids)
  }

  /** What m must be to be o with n merged into it, said by what can be looked up in it. */
  ghost predicate Merged(o: Tree, n: Tree, m: Tree) {
    && m.name == o.name && !m.deleted
    && (forall name :: LiveLabel(m.labels, name) <==> LiveLabel(o.labels, name) || Listed(n.labels, name))
    && (WellFormed(o) && Mergeable(n) ==>
          && WellFormed(m)
          && (forall path, q :: Answer(m, path, q) == Apply(Says(n, path, q), Answer(o, path, q)))
          && PropsInOrder(o.props, n.props, m.props) && KidsInOrder(o.kids, n.kids, m.kids))
    && (WellFormed(o) && Mergeable(n) && Tidy(o) && FreshBelow(n) ==>
          && Tidy(m)
          && forall path, q :: Has(m, path, q) == Holds(Claims(n, path, q), Has(o, path, q)))
  }

  lemma MergeIsMerged(o: Tree, n: Tree)
    ensures Merged(o, n, Merge(o, n))
  {
    hide Merge, WellFormed, Mergeable, LiveLabel, Listed, Answer, Says, Has, Claims, Tidy, FreshBelow, PropsInOrder, KidsInOrder;
    var m := Merge(o, n);
    MergedRoot(o, n);
    forall name
      ensures LiveLabel(m.labels, name) <==> LiveLabel(o.labels, name) || Listed(n.labels, name)
    {
      NodeLabels(o, n, name);
    }
    if WellFormed(o) && Mergeable(n) {
      MergeKeepsWellFormed(o, n);
      forall path, q
        ensures Answer(m, path, q) == Apply(Says(n, path, q), Answer(o, path, q))
      {
        MergeAnswer(o, n, path, q);
      }
      MergedOrder(o, n);
      if Tidy(o) && FreshBelow(n) {
        FreshBelowParts(n);
        MergeHas(o, n, [], OfNode([]));
        forall path, q
          ensures Has(m, path, q) == Holds(Claims(n, path, q), Has(o, path, q))
        {
          MergeHas(o, n, path, q);
        }
      }
    }
  }

  lemma FreshBelowParts(n: Tree)
    requires FreshBelow(n)
    ensures FreshProps(n.props) && FreshKids(n.kids) && TidyProps(n.props) && TidyKids(n.kids)
  {
  }

  lemma MergedOrder(o: Tree, n: Tree)
    requires WellFormed(o) && Mergeable(n)
    ensures PropsInOrder(o.props, n.props, Merge(o, n).props) && KidsInOrder(o.kids, n.kids, Merge(o, n).kids)
  {
    hide WellFormed, Mergeable, PropsInOrder, KidsInOrder;
    WellFormedParts(o);
    MergeableKids(n);
    MergedPropsOrder(o.props, n.props);
    MergedKidsOrder(o.kids, n.kids);
  }

  // ----- Why the conditions on labels are needed

  /** A live label on a deleted property comes back with the property. */
  lemma LeftLabelResurfaces()
    ensures var o := Tree([], false, [], [Prop([97], [], true, [Label([120], false)])], []);
            var n := Tree([], false, [], [Prop([97], [], false, [])], []);
            var q := OfProperty([97], [120]);
            && WellFormed(o) && Mergeable(n) && FreshBelow(n) && !Tidy(o)
            && !Has(o, [], q) && Claims(n, [], q) == Leaves && Has(Merge(o, n), [], q)
  {
    var old', new' := Prop([97], [], true, [Label([120], false)]), Prop([97], [], false, []);
    var r := Prop([97], [], false, [Label([120], false)]);
    assert MergeProps([old'], [new']) == MergeProps(MergeProp([old'], new'), []);
    assert MergeProp([old'], new') == [r];
    assert r.labels[0] == Label([120], false);
    assert GetProperty([r], [97]) == Some(r);
    assert GetProperty([old'], [97]) == GetProperty([old'][1..], [97]) == None;
    assert PropsClaim([new'], [97], [120]) == After(PropClaim(new', [97], [120]), PropsClaim([new'][1..], [97], [120]));
    assert !NoLiveLabel(old'.labels);
  }

  /** A deleted label stays deleted on a property that is added as it is. */
  lemma DeletedLabelStays()
    ensures var o := Tree([], false, [], [], []);
            var n := Tree([], false, [], [Prop([97], [], false, [Label([120], true)])], []);
            var q := OfProperty([97], [120]);
            && WellFormed(o) && Mergeable(n) && Tidy(o) && !FreshBelow(n)
            && Claims(n, [], q) == Puts && !Has(Merge(o, n), [], q)
  {
    var p := Prop([97], [], false, [Label([120], true)]);
    assert MergeProps([], [p]) == MergeProps(MergeProp([], p), []);
    assert MergeProp([], p) == [p];
    assert GetProperty([p], [97]) == Some(p);
    assert p.labels[0].name == [120];
    assert PropsClaim([p], [97], [120]) == After(PropClaim(p, [97], [120]), PropsClaim([p][1..], [97], [120]));
    assert !OnlyLiveLabels(p.labels);
  }
}
