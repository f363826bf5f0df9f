/** What merging two live trees means for every lookup. */
module TreeMerge {
  import opened CText
  import opened LiveTree

  // ----- Conditions on trees

  ghost predicate UniqueProps(props: seq<Prop>) {
    forall i, j :: 0 <= i < j < |props| ==> props[i].name != props[j].name
  }

  ghost predicate UniqueKids(kids: seq<Tree>) {
    forall i, j :: 0 <= i < j < |kids| ==> kids[i].name != kids[j].name
  }

  /** Siblings have different names everywhere, deleted entries included. */
  ghost predicate Unique(t: Tree)
    decreases t, 1
  {
    UniqueProps(t.props) && UniqueKids(t.kids) && UniqueBelow(t)
  }

  /** The same for all proper subtrees only. */
  ghost predicate UniqueBelow(t: Tree)
    decreases t, 0
  {
    forall i :: 0 <= i < |t.kids| ==> Unique(t.kids[i])
  }

  /** Deleted nodes have nothing live in them. */
  ghost predicate Dead(t: Tree)
    decreases t, 1
  {
    && (t.deleted ==> AllDeleted(t.props, t.kids))
    && DeadBelow(t)
  }

  ghost predicate DeadBelow(t: Tree)
    decreases t, 0
  {
    forall i :: 0 <= i < |t.kids| ==> Dead(t.kids[i])
  }

  ghost predicate AllDeleted(props: seq<Prop>, kids: seq<Tree>) {
    && (forall i :: 0 <= i < |props| ==> props[i].deleted)
    && (forall i :: 0 <= i < |kids| ==> kids[i].deleted)
  }

  ghost predicate WellFormed(t: Tree) {
    Unique(t) && Dead(t)
  }

  /** What is asked of the tree merged in; its own root may repeat names. */
  ghost predicate Mergeable(t: Tree) {
    UniqueBelow(t) && DeadBelow(t)
  }

  // ----- Queries and their answers

  /** Whether there is a node at a path, or the value of a property of it. */
  datatype Query = IsNode | ValueOf(name: CString)

  function Components(path: CString): seq<CString>
    decreases |path|
  {
    if path == [] then []
    else
      var p := SkipSlashes(path);
      var i := FirstSlash(p);
      [p[..i]] + if i == |p| then [] else Components(p[i + 1..])
  }

  function PropAnswer(props: seq<Prop>, name: CString): Option<seq<Byte>> {
    var p := GetProperty(props, name);
    if p.Some? then Some(p.value.val) else None
  }

  /** The answer that the live entries below a node give. */
  function Answer(t: Tree, path: seq<CString>, q: Query): Option<seq<Byte>>
    decreases |path|, 1
  {
    if path == [] then (if q.IsNode? then Some([]) else PropAnswer(t.props, q.name))
    else KidsAnswer(t.kids, path, q)
  }

  function KidsAnswer(kids: seq<Tree>, path: seq<CString>, q: Query): Option<seq<Byte>>
    requires path != []
    decreases |path|, 0
  {
    var kid := GetSubnode(kids, path[0]);
    if kid.None? then None else Answer(kid.value, path[1..], q)
  }

  /** What a tree that is merged in says about a query. */
  datatype Verdict = Sets(value: seq<Byte>) | Deletes | Silent

  function Later(v: Verdict, w: Verdict): Verdict {
    if w.Silent? then v else w
  }

  function PropSays(p: Prop, name: CString): Verdict {
    if p.name != name then Silent else if p.deleted then Deletes else Sets(p.val)
  }

  /** All entries of the name, later ones taking precedence. */
  function PropsSay(props: seq<Prop>, name: CString): Verdict {
    if props == [] then Silent else Later(PropSays(props[0], name), PropsSay(props[1..], name))
  }

  function Says(t: Tree, path: seq<CString>, q: Query): Verdict
    decreases t, 0
  {
    if path == [] then (if q.IsNode? then Sets([]) else PropsSay(t.props, q.name))
    else KidsSay(t.kids, path, q)
  }

  /** All entries of the first name, later ones taking precedence. */
  function KidsSay(kids: seq<Tree>, path: seq<CString>, q: Query): Verdict
    requires path != []
    decreases kids
  {
    if kids == [] then Silent
    else Later(KidSays(kids[0], path, q), KidsSay(kids[1..], path, q))
  }

  function KidSays(k: Tree, path: seq<CString>, q: Query): Verdict
    requires path != []
    decreases k, 1
  {
    if k.name != path[0] then Silent
    else if k.deleted then Deletes
    else Says(k, path[1..], q)
  }

  function Apply(v: Verdict, a: Option<seq<Byte>>): Option<seq<Byte>> {
    match v
    case Sets(x) => Some(x)
    case Deletes => None
    case Silent => a
  }

  lemma ApplyLater(v: Verdict, w: Verdict, a: Option<seq<Byte>>)
    ensures Apply(Later(v, w), a) == Apply(w, Apply(v, a))
  {
  }

  // ----- Properties

  /** In a list without repeated names the live lookup finds the entry of the name or nothing. */
  lemma {:induction false} UniquePropLookup(props: seq<Prop>, name: CString)
    requires UniqueProps(props)
    ensures var i := FindProp(props, name);
            GetProperty(props, name) == if i < |props| && !props[i].deleted then Some(props[i]) else None
  {
    if props != [] {
      UniquePropLookup(props[1..], name);
    }
  }

  lemma MergePropAnswer(props: seq<Prop>, p: Prop, name: CString)
    requires UniqueProps(props)
    ensures UniqueProps(MergeProp(props, p))
    ensures PropAnswer(MergeProp(props, p), name) == Apply(PropSays(p, name), PropAnswer(props, name))
  {
    hide FindProp, AddLabels, GetProperty;
    var r := MergeProp(props, p);
    assert UniqueProps(r);
    UniquePropLookup(props, name);
    UniquePropLookup(r, name);
    SameNames(props, r, name);
  }

  /** Entries change, but at most one is added, so the search finds the same place. */
  lemma SameNames(props: seq<Prop>, r: seq<Prop>, name: CString)
    requires |props| <= |r| <= |props| + 1 && UniqueProps(r)
    requires forall i :: 0 <= i < |props| ==> r[i].name == props[i].name
    ensures FindProp(props, name) < |props| ==> FindProp(r, name) == FindProp(props, name)
    ensures FindProp(props, name) == |props| ==>
              FindProp(r, name) == (if |r| > |props| && r[|props|].name == name then |props| else |r|)
  {
    hide FindProp;
  }

  lemma {:induction false} MergePropsAnswer(props: seq<Prop>, more: seq<Prop>, name: CString)
    requires UniqueProps(props)
    ensures UniqueProps(MergeProps(props, more))
    ensures PropAnswer(MergeProps(props, more), name) == Apply(PropsSay(more, name), PropAnswer(props, name))
    decreases more
  {
    hide MergeProp, PropAnswer, PropSays;
    if more != [] {
      MergePropAnswer(props, more[0], name);
      MergePropsAnswer(MergeProp(props, more[0]), more[1..], name);
      ApplyLater(PropSays(more[0], name), PropsSay(more[1..], name), PropAnswer(props, name));
    }
  }

  /** A list without repeated names says about itself what it answers. */
  lemma {:induction false} UniquePropsSay(props: seq<Prop>, name: CString)
    requires UniqueProps(props)
    ensures PropAnswer(props, name) == Apply(PropsSay(props, name), None)
    ensures (forall i :: 0 <= i < |props| ==> props[i].name != name) ==> PropsSay(props, name) == Silent
  {
    if props != [] {
      UniquePropsSay(props[1..], name);
      assert forall i :: 0 <= i < |props| - 1 ==> props[1..][i] == props[i + 1];
    }
  }

  // ----- Children

  lemma {:induction false} UniqueKidLookup(kids: seq<Tree>, name: CString)
    requires UniqueKids(kids)
    ensures var i := FindKid(kids, name);
            GetSubnode(kids, name) == if i < |kids| && !kids[i].deleted then Some(kids[i]) else None
  {
    if kids != [] {
      UniqueKidLookup(kids[1..], name);
    }
  }

  lemma SameKidNames(kids: seq<Tree>, r: seq<Tree>, name: CString)
    requires |kids| <= |r| <= |kids| + 1 && UniqueKids(r)
    requires forall i :: 0 <= i < |kids| ==> r[i].name == kids[i].name
    ensures FindKid(kids, name) < |kids| ==> FindKid(r, name) == FindKid(kids, name)
    ensures FindKid(kids, name) == |kids| ==>
              FindKid(r, name) == (if |r| > |kids| && r[|kids|].name == name then |kids| else |r|)
  {
    hide FindKid;
  }

  /** A deleted node answers nothing but that it is there. */
  lemma DeadAnswer(t: Tree, path: seq<CString>, q: Query)
    requires t.deleted && Dead(t) && (path != [] || q.ValueOf?)
    ensures Answer(t, path, q) == None
  {
    if path == [] {
      assert GetProperty(t.props, q.name).None?;
    } else {
      assert GetSubnode(t.kids, path[0]).None?;
    }
  }

  /** The conditions on every child of a list. */
  ghost predicate GoodKids(kids: seq<Tree>) {
    forall i :: 0 <= i < |kids| ==> WellFormed(kids[i])
  }

  /** A well-formed tree says about itself what it answers. */
  lemma {:induction false} SaysItself(t: Tree, path: seq<CString>, q: Query)
    requires Unique(t)
    ensures Answer(t, path, q) == Apply(Says(t, path, q), None)
    decreases t, 1
  {
    if path == [] {
      if q.ValueOf? {
        UniquePropsSay(t.props, q.name);
      }
    } else {
      KidsSayThemselves(t.kids, path, q);
    }
  }

  lemma {:induction false} KidsSayThemselves(kids: seq<Tree>, path: seq<CString>, q: Query)
    requires path != [] && UniqueKids(kids) && forall i :: 0 <= i < |kids| ==> Unique(kids[i])
    ensures KidsAnswer(kids, path, q) == Apply(KidsSay(kids, path, q), None)
    ensures (forall i :: 0 <= i < |kids| ==> kids[i].name != path[0]) ==> KidsSay(kids, path, q) == Silent
    decreases kids
  {
    if kids != [] {
      var rest := kids[1..];
      assert forall i :: 0 <= i < |rest| ==> rest[i] == kids[i + 1];
      KidsSayThemselves(rest, path, q);
      if kids[0].name == path[0] {
        assert GetSubnode(rest, path[0]).None?;
        if !kids[0].deleted {
          SaysItself(kids[0], path[1..], q);
        }
      }
    }
  }

  lemma MergeableKids(t: Tree)
    ensures Mergeable(t) <==> GoodKids(t.kids)
  {
  }

  lemma WellFormedParts(t: Tree)
    ensures WellFormed(t) <==>
              && UniqueProps(t.props) && UniqueKids(t.kids) && GoodKids(t.kids)
              && (t.deleted ==> AllDeleted(t.props, t.kids))
    ensures WellFormed(t) ==> Mergeable(t)
  {
    MergeableKids(t);
  }

  // ----- Deletion

  lemma {:induction false} DeletedIsWellFormed(t: Tree)
    requires WellFormed(t)
    ensures WellFormed(DeleteTree(t)) && DeleteTree(t).name == t.name && DeleteTree(t).deleted
    decreases t, 1
  {
    hide DeleteKids, DeleteProps, WellFormed;
    WellFormedParts(t);
    DeletedKidsAreWellFormed(t.kids);
    WellFormedParts(DeleteTree(t));
  }

  lemma {:induction false} DeletedKidsAreWellFormed(kids: seq<Tree>)
    requires GoodKids(kids)
    ensures var r := DeleteKids(kids);
            && |r| == |kids| && GoodKids(r)
            && forall i :: 0 <= i < |kids| ==> r[i].name == kids[i].name && r[i].deleted
    decreases kids
  {
    if kids != [] {
      var rest := kids[1..];
      assert forall i :: 0 <= i < |rest| ==> rest[i] == kids[i + 1];
      if !kids[0].deleted {
        DeletedIsWellFormed(kids[0]);
      }
      DeletedKidsAreWellFormed(rest);
    }
  }

  // ----- Merging

  /** One child of the new tree: what it says overrides what the old children answer. */
  lemma {:induction false} MergeKidAnswer(kids: seq<Tree>, k: Tree, path: seq<CString>, q: Query)
    requires path != [] && UniqueKids(kids) && GoodKids(kids) && WellFormed(k)
    ensures KidsAnswer(MergeKid(kids, k), path, q) == Apply(KidSays(k, path, q), KidsAnswer(kids, path, q))
    decreases k, 2
  {
    hide Merge, DeleteTree, Unique, Dead, Says, Answer, FindKid, GetSubnode;
    var r, i := MergeKid(kids, k), FindKid(kids, k.name);
    MergeKidKeeps(kids, k);
    UniqueKidLookup(kids, path[0]);
    UniqueKidLookup(r, path[0]);
    SameKidNames(kids, r, path[0]);
    if k.deleted && i < |kids| {
      DeletedIsWellFormed(kids[i]);
    }
    if k.name == path[0] && !k.deleted {
      if i < |kids| {
        WellFormedParts(k);
        MergedRoot(kids[i], k);
        MergeAnswer(kids[i], k, path[1..], q);
        if kids[i].deleted {
          RevivedAnswer(kids[i], k, path[1..], q);
        }
      } else {
        SaysItself(k, path[1..], q);
      }
    }
  }

  lemma RevivedAnswer(o: Tree, k: Tree, path: seq<CString>, q: Query)
    requires o.deleted && Dead(o)
    ensures Apply(Says(k, path, q), Answer(o, path, q)) == Apply(Says(k, path, q), None)
  {
    if path != [] || q.ValueOf? {
      DeadAnswer(o, path, q);
    }
  }

  lemma {:induction false} MergeKidKeeps(kids: seq<Tree>, k: Tree)
    requires UniqueKids(kids) && GoodKids(kids) && WellFormed(k)
    ensures var r := MergeKid(kids, k);
            && UniqueKids(r) && GoodKids(r) && |kids| <= |r| <= |kids| + 1
            && (forall i :: 0 <= i < |kids| ==> r[i].name == kids[i].name)
            && (|r| > |kids| ==> r[|kids|] == k && !k.deleted && FindKid(kids, k.name) == |kids|)
    decreases k, 1
  {
    hide Merge, DeleteTree, FindKid, WellFormed;
    var i := FindKid(kids, k.name);
    if i < |kids| {
      if k.deleted {
        DeletedIsWellFormed(kids[i]);
      } else {
        WellFormedParts(k);
        MergeKeepsWellFormed(kids[i], k);
        MergedRoot(kids[i], k);
      }
    }
  }

  lemma MergedRoot(o: Tree, n: Tree)
    ensures Merge(o, n).name == o.name && !Merge(o, n).deleted
  {
  }

  /** Merging keeps names unique and deleted nodes empty. */
  lemma {:induction false} MergeKeepsWellFormed(o: Tree, n: Tree)
    requires WellFormed(o) && Mergeable(n)
    ensures WellFormed(Merge(o, n))
    decreases n, 0
  {
    hide WellFormed, Mergeable;
    WellFormedParts(o);
    MergeableKids(n);
    MergePropsAnswer(o.props, n.props, []);
    MergeKidsKeep(o.kids, n.kids);
    WellFormedParts(Merge(o, n));
  }

  lemma {:induction false} MergeKidsKeep(kids: seq<Tree>, more: seq<Tree>)
    requires UniqueKids(kids) && GoodKids(kids) && GoodKids(more)
    ensures UniqueKids(MergeKids(kids, more)) && GoodKids(MergeKids(kids, more))
    decreases more
  {
    hide WellFormed, MergeKid;
    if more != [] {
      assert forall i :: 0 <= i < |more[1..]| ==> more[1..][i] == more[i + 1];
      MergeKidKeeps(kids, more[0]);
      MergeKidsKeep(MergeKid(kids, more[0]), more[1..]);
    }
  }

  lemma {:induction false} MergeKidsAnswer(kids: seq<Tree>, more: seq<Tree>, path: seq<CString>, q: Query)
    requires path != [] && UniqueKids(kids) && GoodKids(kids) && GoodKids(more)
    ensures KidsAnswer(MergeKids(kids, more), path, q) == Apply(KidsSay(more, path, q), KidsAnswer(kids, path, q))
    decreases more
  {
    hide WellFormed, MergeKid, KidsAnswer, KidSays;
    if more != [] {
      var rest := more[1..];
      assert forall i :: 0 <= i < |rest| ==> rest[i] == more[i + 1];
      MergeKidKeeps(kids, more[0]);
      MergeKidAnswer(kids, more[0], path, q);
      MergeKidsAnswer(MergeKid(kids, more[0]), rest, path, q);
      ApplyLater(KidSays(more[0], path, q), KidsSay(rest, path, q), KidsAnswer(kids, path, q));
    }
  }

  /**
   Every query of the merged tree: the new tree decides if it says something,
   otherwise the old tree answers.
   */
  lemma {:induction false} MergeAnswer(o: Tree, n: Tree, path: seq<CString>, q: Query)
    requires WellFormed(o) && Mergeable(n)
    ensures Answer(Merge(o, n), path, q) == Apply(Says(n, path, q), Answer(o, path, q))
    decreases n, 0
  {
    hide WellFormed, Mergeable;
    WellFormedParts(o);
    MergeableKids(n);
    if path != [] {
      MergeKidsAnswer(o.kids, n.kids, path, q);
    } else if q.ValueOf? {
      MergePropsAnswer(o.props, n.props, q.name);
    }
  }

  // ----- Lookups by path

  /** The value of a property of the node that a path leads to. */
  function Lookup(t: Tree, path: CString, name: CString): Option<seq<Byte>> {
    var node := NodeByPath(t, path);
    if node.None? then None else PropAnswer(node.value.props, name)
  }

  /** A text that names the nodes on the way, each behind a slash. */
  function PathText(names: seq<CString>): CString {
    if names == [] then [] else ['/' as int] + names[0] + PathText(names[1..])
  }

  /** The components of such a text are the names, for names without a slash. */
  lemma {:induction false} ComponentsOfText(names: seq<CString>)
    requires forall i :: 0 <= i < |names| ==> names[i] != [] && forall j :: 0 <= j < |names[i]| ==> names[i][j] != '/' as int
    ensures Components(PathText(names)) == names
    decreases names
  {
    if names != [] {
      var n, rest := names[0], PathText(names[1..]);
      var path := PathText(names);
      assert path[0] == SLASH && path[1..] == n + rest;
      var p := n + rest;
      assert p[0] == n[0] && SkipSlashes(p) == p;
      assert SkipSlashes(path) == SkipSlashes(path[1..]) == p;
      NameBeforeSlash(n, rest);
      assert p[..|n|] == n;
      ComponentsOfText(names[1..]);
      if rest != [] {
        TextAfterSlash(names[1..], p[|n| + 1..]);
      }
    }
  }

  lemma {:induction false} NameBeforeSlash(n: CString, rest: CString)
    requires (forall j :: 0 <= j < |n| ==> n[j] != SLASH) && (rest != [] ==> rest[0] == SLASH)
    ensures FirstSlash(n + rest) == |n|
    decreases n
  {
    if n == [] {
      assert n + rest == rest;
    } else {
      assert (n + rest)[1..] == n[1..] + rest;
      NameBeforeSlash(n[1..], rest);
    }
  }

  /** Without its first slash a text has the same components. */
  lemma TextAfterSlash(names: seq<CString>, path: CString)
    requires names != [] && names[0] != [] && names[0][0] != SLASH && [SLASH] + path == PathText(names)
    ensures path != [] && Components(path) == Components(PathText(names))
  {
    var full := PathText(names);
    assert full[1..] == path && full[0] == SLASH;
    assert path[0] == names[0][0];
    assert SkipSlashes(full) == SkipSlashes(path) == path;
  }

  /** Following a path is following its components. */
  lemma {:induction false} PathAnswers(t: Tree, path: CString, name: CString)
    requires path != [] || !t.deleted
    ensures Lookup(t, path, name) == Answer(t, Components(path), ValueOf(name))
    ensures NodeByPath(t, path).Some? <==> Answer(t, Components(path), IsNode).Some?
    decreases |path|
  {
    if path != [] {
      var p := SkipSlashes(path);
      var i := FirstSlash(p);
      var kid := GetSubnode(t.kids, p[..i]);
      if i < |p| {
        assert Components(path) == [p[..i]] + Components(p[i + 1..]);
        assert Components(path)[1..] == Components(p[i + 1..]);
        if kid.Some? {
          PathAnswers(kid.value, p[i + 1..], name);
        }
      } else {
        assert Components(path) == [p[..i]] + [];
        assert Components(path)[1..] == [];
        if kid.Some? {
          assert Answer(t, Components(path), ValueOf(name)) == Answer(kid.value, [], ValueOf(name));
          assert Answer(t, Components(path), IsNode) == Answer(kid.value, [], IsNode);
        }
      }
    }
  }

  /**
   The meaning of a merge: a live lookup gives the new value where the new
   tree has one, nothing where the new tree deletes the entry or a node above
   it, and otherwise what it gave before.
   */
  lemma MergedLookup(o: Tree, n: Tree, path: CString, name: CString)
    requires WellFormed(o) && Mergeable(n)
    ensures Lookup(Merge(o, n), path, name) == Apply(Says(n, Components(path), ValueOf(name)), Lookup(o, path, name))
    ensures WellFormed(Merge(o, n))
  {
    hide Lookup, WellFormed, Mergeable, Says, Answer;
    var m, comps, q := Merge(o, n), Components(path), ValueOf(name);
    MergedRoot(o, n);
    MergeKeepsWellFormed(o, n);
    MergeAnswer(o, n, comps, q);
    PathAnswers(m, path, name);
    if path != [] || !o.deleted {
      PathAnswers(o, path, name);
    } else {
      DeadRoot(o, name);
    }
  }

  lemma DeadRoot(o: Tree, name: CString)
    requires WellFormed(o) && o.deleted
    ensures Answer(o, [], ValueOf(name)) == None && Lookup(o, [], name) == None
  {
    DeadAnswer(o, [], ValueOf(name));
  }

  /** The same for the nodes themselves; the root is there in any case. */
  lemma MergedNode(o: Tree, n: Tree, path: CString)
    requires WellFormed(o) && Mergeable(n)
    ensures NodeByPath(Merge(o, n), path).Some? <==>
              match Says(n, Components(path), IsNode)
              case Sets(_) => true
              case Deletes => false
              case Silent => NodeByPath(o, path).Some?
  {
    hide WellFormed, Mergeable, Lookup;
    var m, comps := Merge(o, n), Components(path);
    MergedRoot(o, n);
    MergeAnswer(o, n, comps, IsNode);
    PathAnswers(m, path, []);
    if path != [] {
      PathAnswers(o, path, []);
    }
  }

  /** Merging the same tree again changes no lookup. */
  lemma MergeTwice(o: Tree, n: Tree, path: CString, name: CString)
    requires WellFormed(o) && Mergeable(n)
    ensures var m := Merge(o, n);
            && Lookup(Merge(m, n), path, name) == Lookup(m, path, name)
            && (NodeByPath(Merge(m, n), path).Some? <==> NodeByPath(m, path).Some?)
  {
    hide WellFormed, Mergeable, Lookup, Merge, Says, NodeByPath, Components;
    MergedLookup(o, n, path, name);
    MergedLookup(Merge(o, n), n, path, name);
    MergedNode(o, n, path);
    MergedNode(Merge(o, n), n, path);
  }

  // ----- Why the conditions are needed

  function Leaf(name: CString, deleted: bool, props: seq<Prop>): Tree {
    Tree(name, deleted, [], props, [])
  }

  /** With a repeated name, deleting a property lets the second one show through. */
  lemma RepeatedNameResurfaces()
    ensures var o := Leaf([], false, [Prop([97], [1], false, []), Prop([97], [2], false, [])]);
            var n := Leaf([], false, [Prop([97], [], true, [])]);
            && Dead(o) && Mergeable(n)
            && Says(n, Components([]), ValueOf([97])) == Deletes
            && Lookup(Merge(o, n), [], [97]) == Some([2])
  {
    var p1, p2, d := Prop([97], [1], false, []), Prop([97], [2], false, []), Prop([97], [], true, []);
    assert MergeProps([p1, p2], [d]) == MergeProps(MergeProp([p1, p2], d), []);
    var r := MergeProp([p1, p2], d);
    assert r == [DeleteProp(p1), p2];
    assert GetProperty(r, [97]) == GetProperty(r[1..], [97]);
    assert r[1..] == [p2];
  }

  /** With live contents in a deleted node, defining the node anew brings the old contents back. */
  lemma DeletedContentsResurface()
    ensures var o := Tree([], false, [], [], [Leaf([120], true, [Prop([97], [1], false, [])])]);
            var n := Tree([], false, [], [], [Leaf([120], false, [])]);
            && Unique(o) && Mergeable(n)
            && Lookup(o, [120], [97]) == None && Says(n, Components([120]), ValueOf([97])) == Silent
            && Lookup(Merge(o, n), [120], [97]) == Some([1])
  {
    var k, l := Leaf([120], true, [Prop([97], [1], false, [])]), Leaf([120], false, []);
    assert SkipSlashes([120]) == [120] && FirstSlash([120]) == 1;
    assert Components([120]) == [[120][..1]] + [];
    assert [120][..1] == [120];
    assert [[120]][1..] == [];
    assert Merge(k, l) == Leaf([120], false, k.props);
    assert MergeKids([k], [l]) == MergeKids(MergeKid([k], l), []);
    assert MergeKid([k], l) == [Merge(k, l)];
    assert KidsSay([l], [[120]], ValueOf([97])) == Later(KidSays(l, [[120]], ValueOf([97])), KidsSay([l][1..], [[120]], ValueOf([97])));
    assert [l][1..] == [];
  }
}
