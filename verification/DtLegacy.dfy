/** The round trip of all versions, and what the checks make of the name properties that old versions add. */
module DtLegacy {
  import opened BigEndian
  import opened CText
  import opened LiveTree
  import opened DtFormat
  import opened DtRoundTrip
  import opened DtBlob
  import opened DtChecks

  // ----- Added names disappear again

  lemma {:induction false} LiveNames(props: seq<Prop>)
    ensures HasName(props) <==> FindProp(LiveProps(props), NAME) < |LiveProps(props)|
    decreases props
  {
    if props != [] {
      var rest := props[1..];
      LiveNames(rest);
      assert forall i :: 0 <= i < |rest| ==> rest[i] == props[i + 1];
      if i :| 0 <= i < |props| && !props[i].deleted && props[i].name == NAME && i > 0 {
        assert !rest[i - 1].deleted && rest[i - 1].name == NAME;
      }
    }
  }

  lemma {:induction false} FindAppended(props: seq<Prop>, p: Prop, name: CString)
    requires FindProp(props, name) == |props| && p.name == name
    ensures FindProp(props + [p], name) == |props|
  {
    assert (props + [p])[|props|] == p;
  }

  lemma AddedNameIsRemoved(t: Tree)
    requires !HasName(t.props)
    ensures CheckProps(t.name, LiveProps(t.props) + [NameProp(t.name)]) == CheckProps(t.name, LiveProps(t.props))
  {
    var props, p := LiveProps(t.props), NameProp(t.name);
    LiveNames(t.props);
    FindAppended(props, p, NAME);
    assert IsBaseName(t.name, p.val);
    var all := props + [p];
    assert all[..|props|] + all[|props| + 1..] == props;
  }

  /** Removing names from what an old format stores is removing them from the tree itself. */
  lemma {:induction false} NamesRemoved(t: Tree, legacy: bool)
    ensures CheckNames(Stored(t, legacy)) == CheckNames(Live(t))
    decreases t, 1
  {
    hide CheckProps, NameProp;
    NamesRemovedInKids(t.kids, legacy);
    if legacy && !HasName(t.props) {
      AddedNameIsRemoved(t);
    } else {
      assert LiveProps(t.props) + [] == LiveProps(t.props);
    }
  }

  lemma {:induction false} NamesRemovedInKids(kids: seq<Tree>, legacy: bool)
    ensures CheckKids(StoredKids(kids, legacy)) == CheckKids(LiveKids(kids))
    decreases kids, 0
  {
    hide CheckNames, Stored, Live;
    if kids != [] {
      var k, rest := kids[0], kids[1..];
      NamesRemovedInKids(rest, legacy);
      if !k.deleted {
        NamesRemoved(k, legacy);
        LiveIsLive(k, legacy);
        CheckKidsFirst(Stored(k, legacy), StoredKids(rest, legacy));
        CheckKidsFirst(Live(k), LiveKids(rest));
      }
    }
  }

  lemma LiveIsLive(t: Tree, legacy: bool)
    ensures !Stored(t, legacy).deleted && !Live(t).deleted
  {
  }

  lemma CheckKidsFirst(k: Tree, rest: seq<Tree>)
    requires !k.deleted
    ensures CheckKids([k] + rest) == [CheckNames(k)] + CheckKids(rest)
  {
    assert ([k] + rest)[1..] == rest;
  }

  /** No live property of a live node is called "name". */
  predicate Nameless(t: Tree) {
    !HasName(t.props) && forall i :: 0 <= i < |t.kids| && !t.kids[i].deleted ==> Nameless(t.kids[i])
  }

  lemma {:induction false} NamelessUnchanged(t: Tree)
    requires Nameless(t)
    ensures CheckNames(Live(t)) == Live(t)
    decreases t, 1
  {
    LiveNames(t.props);
    NamelessKidsUnchanged(t.kids);
  }

  lemma {:induction false} NamelessKidsUnchanged(kids: seq<Tree>)
    requires forall i :: 0 <= i < |kids| && !kids[i].deleted ==> Nameless(kids[i])
    ensures CheckKids(LiveKids(kids)) == LiveKids(kids)
    decreases kids, 0
  {
    hide CheckNames, Live, Nameless;
    if kids != [] {
      var k, rest := kids[0], kids[1..];
      assert forall i :: 0 <= i < |rest| ==> rest[i] == kids[i + 1];
      NamelessKidsUnchanged(rest);
      if !k.deleted {
        NamelessUnchanged(k);
        LiveIsLive(k, false);
        CheckKidsFirst(Live(k), LiveKids(rest));
      }
    }
  }

  lemma {:induction false} StoredIsLive(t: Tree)
    ensures Stored(t, false) == Live(t)
    decreases t, 1
  {
    StoredKidsAreLive(t.kids);
    assert LiveProps(t.props) + [] == LiveProps(t.props);
  }

  lemma {:induction false} StoredKidsAreLive(kids: seq<Tree>)
    ensures StoredKids(kids, false) == LiveKids(kids)
    decreases kids, 0
  {
    hide Stored, Live;
    if kids != [] {
      StoredKidsAreLive(kids[1..]);
      if !kids[0].deleted {
        StoredIsLive(kids[0]);
      }
    }
  }

  // ----- When the check runs on what was read

  /** Every live node has a name property or a base name that makes a string. */
  predicate Based(t: Tree)
    decreases t, 1
  {
    (HasName(t.props) || BaseLen(t.name) > 0 || t.name == []) && KidsBased(t.kids)
  }

  predicate KidsBased(kids: seq<Tree>)
    decreases kids, 0
  {
    forall i :: 0 <= i < |kids| && !kids[i].deleted ==> Based(kids[i])
  }

  /** Every live node has a name property of its own, so that none is added. */
  predicate EveryNamed(t: Tree)
    decreases t, 1
  {
    HasName(t.props) && KidsNamed(t.kids)
  }

  predicate KidsNamed(kids: seq<Tree>)
    decreases kids, 0
  {
    forall i :: 0 <= i < |kids| && !kids[i].deleted ==> EveryNamed(kids[i])
  }

  lemma {:induction false} BasedIsStorable(t: Tree)
    requires Based(t)
    ensures Storable(t)
    decreases t
  {
    forall i | 0 <= i < |t.kids| && !t.kids[i].deleted
      ensures Storable(t.kids[i])
    {
      BasedIsStorable(t.kids[i]);
    }
  }

  lemma AddedNameIsString(name: CString)
    requires NulFree(name)
    ensures IsOneString(NameValue(name)) <==> BaseLen(name) > 0 || name == []
  {
    if BaseLen(name) > 0 {
      assert NameValue(name)[..BaseLen(name)] == name[..BaseLen(name)];
    } else if name != [] {
      assert NameValue(name)[0] == name[0];
    }
  }

  lemma {:induction false} NameInLive(props: seq<Prop>, p: Prop)
    requires p.name == NAME && !p.deleted
    ensures LiveTree.GetProperty(LiveProps(props), NAME).Some? <==> HasName(props)
    ensures !HasName(props) ==> LiveTree.GetProperty(LiveProps(props) + [p], NAME) == Some(p)
    decreases props
  {
    if props != [] {
      var rest := props[1..];
      assert forall i :: 0 <= i < |rest| ==> rest[i] == props[i + 1];
      NameInLive(rest, p);
      assert HasName(props) <==> (!props[0].deleted && props[0].name == NAME) || HasName(rest);
      if !props[0].deleted {
        var live := LiveProps(props);
        assert live[1..] == LiveProps(rest);
        assert (live + [p])[1..] == LiveProps(rest) + [p];
      }
    }
  }

  lemma OwnNameIsString(t: Tree)
    requires NulFree(t.name)
    ensures NameIsString(Stored(t, true).props)
            <==> NameIsString(Live(t).props) && (HasName(t.props) || BaseLen(t.name) > 0 || t.name == [])
  {
    hide NameValue, IsOneString;
    var live, p := LiveProps(t.props), NameProp(t.name);
    NameInLive(t.props, p);
    AddedNameIsString(t.name);
    if HasName(t.props) {
      assert live + [] == live;
    }
  }

  lemma NoKids()
    ensures KidsNamesAreStrings([]) && KidsPass([])
  {
  }

  lemma KidsFirst(k: Tree, rest: seq<Tree>)
    requires !k.deleted
    ensures KidsNamesAreStrings([k] + rest) <==> NamesAreStrings(k) && KidsNamesAreStrings(rest)
    ensures KidsPass([k] + rest) <==> Passes(k, false) && KidsPass(rest)
  {
    hide NamesAreStrings, Passes;
    var kids := [k] + rest;
    assert kids[0] == k && forall i :: 0 <= i < |rest| ==> rest[i] == kids[i + 1];
    if KidsNamesAreStrings(rest) && NamesAreStrings(k) {
      assert forall i :: 0 < i < |kids| ==> kids[i] == rest[i - 1];
    }
    if KidsPass(rest) && Passes(k, false) {
      assert forall i :: 0 < i < |kids| ==> kids[i] == rest[i - 1];
    }
  }

  /** The names read from an old format are strings if the own ones are and the base names allow it. */
  lemma {:induction false} StringsOfStored(t: Tree)
    requires WellNamed(t, true)
    ensures NamesAreStrings(Stored(t, true)) <==> NamesAreStrings(Live(t)) && Based(t)
    decreases t, 1
  {
    hide NameIsString, KidsNamesAreStrings;
    OwnNameIsString(t);
    KidsStringsOfStored(t.kids);
  }

  lemma {:induction false} KidsStringsOfStored(kids: seq<Tree>)
    requires KidsWellNamed(kids, true)
    ensures KidsNamesAreStrings(StoredKids(kids, true)) <==> KidsNamesAreStrings(LiveKids(kids)) && KidsBased(kids)
    decreases kids, 0
  {
    hide NamesAreStrings, Stored, Live, Based, KidsNamesAreStrings, WellNamed;
    if kids == [] {
      NoKids();
    } else {
      var k, rest := kids[0], kids[1..];
      assert forall i :: 0 <= i < |rest| ==> rest[i] == kids[i + 1];
      KidsStringsOfStored(rest);
      assert KidsBased(kids) <==> (k.deleted || Based(k)) && KidsBased(rest);
      if !k.deleted {
        StringsOfStored(k);
        LiveIsLive(k, true);
        KidsFirst(Stored(k, true), StoredKids(rest, true));
        KidsFirst(Live(k), LiveKids(rest));
      }
    }
  }
  lemma {:induction false} LivePropAt(props: seq<Prop>, i: nat) returns (j: nat)
    requires i < |LiveProps(props)|
    ensures i <= j < |props| && !props[j].deleted
    ensures LiveProps(props)[i] == Prop(props[j].name, props[j].val, false, [])
    decreases props
  {
    if props[0].deleted {
      j := LivePropAt(props[1..], i);
      j := j + 1;
    } else if i == 0 {
      j := 0;
    } else {
      j := LivePropAt(props[1..], i - 1);
      j := j + 1;
    }
  }

  /** An added name property breaks no rule on the properties of a node. */
  lemma AddedNamePasses(t: Tree)
    requires !HasName(t.props)
    ensures var live := LiveProps(t.props); var all := live + [NameProp(t.name)];
            && (DistinctProps(all) <==> DistinctProps(live))
            && (PropChars(all) <==> PropChars(live))
  {
    hide NameValue;
    var live, p := LiveProps(t.props), NameProp(t.name);
    var all := live + [p];
    forall i | 0 <= i < |live|
      ensures all[i] == live[i] && !live[i].deleted && live[i].name != NAME
    {
      var j := LivePropAt(t.props, i);
    }
    assert all[|live|] == p && forall j :: 0 <= j < |NAME| ==> IsPropChar(NAME[j]);
    if DistinctProps(live) {
      assert forall i :: 0 <= i < |all| ==> i == |live| || all[i] == live[i];
    }
    if DistinctProps(all) {
      assert forall i :: 0 <= i < |live| ==> live[i] == all[i];
    }
    if PropChars(all) {
      assert forall i :: 0 <= i < |live| ==> live[i] == all[i];
    }
  }

  lemma {:induction false} KidNames(kids: seq<Tree>)
    ensures var s, l := StoredKids(kids, true), LiveKids(kids);
            |s| == |l| && forall i :: 0 <= i < |s| ==> s[i].name == l[i].name && !s[i].deleted && !l[i].deleted
    decreases kids
  {
    if kids != [] {
      KidNames(kids[1..]);
    }
  }

  lemma {:induction false} StoredPasses(t: Tree, root: bool)
    ensures Passes(Stored(t, true), root) <==> Passes(Live(t), root)
    decreases t, 1
  {
    hide KidsPass, NodeChars, OneUnit, DistinctProps, PropChars;
    KidNames(t.kids);
    KidsStoredPass(t.kids);
    if HasName(t.props) {
      assert LiveProps(t.props) + [] == LiveProps(t.props);
    } else {
      AddedNamePasses(t);
    }
  }

  lemma {:induction false} KidsStoredPass(kids: seq<Tree>)
    ensures KidsPass(StoredKids(kids, true)) <==> KidsPass(LiveKids(kids))
    decreases kids, 0
  {
    hide KidsPass, Passes, Stored, Live;
    if kids == [] {
      NoKids();
    } else {
      var k, rest := kids[0], kids[1..];
      KidsStoredPass(rest);
      if !k.deleted {
        StoredPasses(k, false);
        LiveIsLive(k, true);
        KidsFirst(Stored(k, true), StoredKids(rest, true));
        KidsFirst(Live(k), LiveKids(rest));
      }
    }
  }

  /** What is stored is the live tree, before or after a name check, only if no name was added. */
  lemma {:induction false} AddedNamesShow(t: Tree)
    ensures Stored(t, true) == Live(t) <==> EveryNamed(t)
    ensures Stored(t, true) == CheckNames(Live(t)) ==> EveryNamed(t)
    decreases t, 1
  {
    hide KidsNamed, NameProp;
    AddedKidsShow(t.kids);
    if HasName(t.props) {
      assert LiveProps(t.props) + [] == LiveProps(t.props);
    } else {
      assert |CheckProps(t.name, LiveProps(t.props))| <= |LiveProps(t.props)| < |Stored(t, true).props|;
    }
  }

  lemma {:induction false} AddedKidsShow(kids: seq<Tree>)
    ensures StoredKids(kids, true) == LiveKids(kids) <==> KidsNamed(kids)
    ensures StoredKids(kids, true) == CheckKids(LiveKids(kids)) ==> KidsNamed(kids)
    decreases kids, 0
  {
    hide Stored, Live, EveryNamed, CheckNames;
    if kids != [] {
      var k, rest := kids[0], kids[1..];
      assert forall i :: 0 <= i < |rest| ==> rest[i] == kids[i + 1];
      AddedKidsShow(rest);
      assert KidsNamed(kids) <==> (k.deleted || EveryNamed(k)) && KidsNamed(rest);
      if !k.deleted {
        AddedNamesShow(k);
        LiveIsLive(k, true);
        CheckKidsFirst(Live(k), LiveKids(rest));
        HeadAndTail(Stored(k, true), StoredKids(rest, true), Live(k), LiveKids(rest));
        HeadAndTail(Stored(k, true), StoredKids(rest, true), CheckNames(Live(k)), CheckKids(LiveKids(rest)));
      }
    }
  }

  lemma HeadAndTail<T>(a: T, as': seq<T>, b: T, bs: seq<T>)
    ensures [a] + as' == [b] + bs <==> a == b && as' == bs
  {
    if [a] + as' == [b] + bs {
      assert ([a] + as')[0] == ([b] + bs)[0];
      assert ([a] + as')[1..] == ([b] + bs)[1..];
    }
  }

  /**
   The checks make the same of what an old format stores as of the tree itself
   if and only if no name was added or the name check runs.
   */
  lemma CheckedStored(t: Tree)
    requires WellNamed(t, true)
    ensures RunNameCheck(Stored(t, true)) == RunNameCheck(Live(t))
            <==> EveryNamed(t) || (NamesAreStrings(Live(t)) && Based(t))
    ensures ProcessChecks(Stored(t, true)) == ProcessChecks(Live(t))
            <==> EveryNamed(t) || (Passes(Live(t), true) && NamesAreStrings(Live(t)) && Based(t))
  {
    hide Stored, Live, CheckNames, NamesAreStrings, Based, EveryNamed, Passes, WellNamed;
    NamesRemoved(t, true);
    StringsOfStored(t);
    StoredPasses(t, true);
    AddedNamesShow(t);
  }

  // ----- Trees without name properties

  lemma {:induction false} NamelessIsUnnamed(t: Tree)
    requires Nameless(t)
    ensures !EveryNamed(t) && NamesAreStrings(Live(t))
    decreases t, 1
  {
    NameInLive(t.props, NameProp([]));
    NamelessKidsStrings(t.kids);
  }

  lemma {:induction false} NamelessKidsStrings(kids: seq<Tree>)
    requires forall i :: 0 <= i < |kids| && !kids[i].deleted ==> Nameless(kids[i])
    ensures KidsNamesAreStrings(LiveKids(kids))
    decreases kids, 0
  {
    hide Nameless, Live, NamesAreStrings, KidsNamesAreStrings;
    if kids == [] {
      NoKids();
    } else {
      var k, rest := kids[0], kids[1..];
      assert forall i :: 0 <= i < |rest| ==> rest[i] == kids[i + 1];
      NamelessKidsStrings(rest);
      if !k.deleted {
        NamelessIsUnnamed(k);
        LiveIsLive(k, true);
        KidsFirst(Live(k), LiveKids(rest));
      }
    }
  }

  /** The checks let no node but the root have an empty base name. */
  lemma {:induction false} PassingIsBased(t: Tree, root: bool)
    requires Passes(Live(t), root) && (root ==> BaseLen(t.name) > 0 || t.name == [])
    ensures Based(t)
    decreases t, 1
  {
    hide KidsBased;
    PassingKidsBased(t.kids);
  }

  lemma {:induction false} PassingKidsBased(kids: seq<Tree>)
    requires KidsPass(LiveKids(kids))
    ensures KidsBased(kids)
    decreases kids, 0
  {
    hide Passes, Live, Based, KidsPass;
    if kids != [] {
      var k, rest := kids[0], kids[1..];
      if !k.deleted {
        LiveIsLive(k, true);
        KidsFirst(Live(k), LiveKids(rest));
        PassingIsBased(k, false);
      }
      PassingKidsBased(rest);
      assert forall i :: 0 < i < |kids| ==> kids[i] == rest[i - 1];
    }
  }

  lemma RootBase(t: Tree)
    requires Based(t) && !HasName(t.props)
    ensures BaseLen(t.name) > 0 || t.name == []
  {
  }

  /** Of a tree without name properties the checks leave exactly that tree if and only if all base names are proper. */
  lemma NamelessChecked(t: Tree)
    requires WellNamed(t, true) && Nameless(t)
    ensures RunNameCheck(Stored(t, true)) == Live(t) <==> Based(t)
    ensures ProcessChecks(Stored(t, true)) == Live(t)
            <==> Passes(Live(t), true) && (BaseLen(t.name) > 0 || t.name == [])
  {
    hide Stored, Live, CheckNames, NamesAreStrings, Based, EveryNamed, Passes, WellNamed, Nameless, BaseLen, HasName;
    NoOwnName(t);
    NamesRemoved(t, true);
    NamelessUnchanged(t);
    NamelessIsUnnamed(t);
    StringsOfStored(t);
    StoredPasses(t, true);
    AddedNamesShow(t);
    if Based(t) {
      RootBase(t);
    }
    if Passes(Live(t), true) && (BaseLen(t.name) > 0 || t.name == []) {
      PassingIsBased(t, true);
    }
  }

  lemma NoOwnName(t: Tree)
    requires Nameless(t)
    ensures !HasName(t.props)
  {
  }

  // ----- The round trip

  /** Versions 16 and 17 give back exactly the live tree. */
  lemma ModernRoundTrip(d: DtInfo, version: int, v: Version, slots: nat, pad: nat, f: seq<Byte>)
    requires VersionInfo(version) == Some(v) && !v.legacy && WellNamed(d.tree, false) && !d.tree.deleted && Fits(d.reserves)
    requires TotalSize(d, v, slots, pad) < WORD && d.bootCpuid < WORD && Blob(d, v, slots, pad) <= f
    ensures ReadBlob(f) == Some(DtInfo(Leading(d.reserves), Live(d.tree), d.bootCpuid))
  {
    hide WellNamed, ReadBlob, Blob, TotalSize, Fits, Leading, Stored, Live;
    BlobReads(d, version, v, slots, pad, f);
    StoredIsLive(d.tree);
  }

  /**
   Versions 1 to 3 can be read if and only if every base name can be stored.
   The checks then make the same of what was read as of the tree that was
   written, up to the exact conditions under which the name check runs. A tree
   without name properties comes back if and only if all base names are proper,
   and with all checks on if and only if it passes them itself.
   */
  lemma LegacyRoundTrip(d: DtInfo, version: int, v: Version, slots: nat, pad: nat, f: seq<Byte>)
    requires VersionInfo(version) == Some(v) && v.legacy && Writable(d.tree, v) && !d.tree.deleted && Fits(d.reserves)
    requires TotalSize(d, v, slots, pad) < WORD && d.bootCpuid < WORD && Blob(d, v, slots, pad) <= f
    ensures ReadBlob(f).Some? <==> Storable(d.tree)
    ensures Storable(d.tree) ==>
              var r := ReadBlob(f).value;
              && r.reserves == Leading(d.reserves)
              && r.bootCpuid == (if version == 1 then 0 else d.bootCpuid)
              && (RunNameCheck(r.tree) == RunNameCheck(Live(d.tree))
                  <==> EveryNamed(d.tree) || (NamesAreStrings(Live(d.tree)) && Based(d.tree)))
              && (ProcessChecks(r.tree) == ProcessChecks(Live(d.tree))
                  <==> EveryNamed(d.tree) || (Passes(Live(d.tree), true) && NamesAreStrings(Live(d.tree)) && Based(d.tree)))
    ensures Nameless(d.tree) ==>
              && (ReadBlob(f).Some? && RunNameCheck(ReadBlob(f).value.tree) == Live(d.tree) <==> Based(d.tree))
              && (ReadBlob(f).Some? && ProcessChecks(ReadBlob(f).value.tree) == Live(d.tree)
                  <==> Passes(Live(d.tree), true) && (BaseLen(d.tree.name) > 0 || d.tree.name == []))
  {
    hide *;
    LegacyReads(d, version, v, slots, pad, f);
    CheckedStored(d.tree);
    NamelessStored(d.tree);
  }

  lemma LegacyReads(d: DtInfo, version: int, v: Version, slots: nat, pad: nat, f: seq<Byte>)
    requires VersionInfo(version) == Some(v) && v.legacy && Writable(d.tree, v) && !d.tree.deleted && Fits(d.reserves)
    requires TotalSize(d, v, slots, pad) < WORD && d.bootCpuid < WORD && Blob(d, v, slots, pad) <= f
    ensures WellNamed(d.tree, true)
    ensures ReadBlob(f)
            == if Storable(d.tree) then
                 Some(DtInfo(Leading(d.reserves), Stored(d.tree, true), if version == 1 then 0 else d.bootCpuid))
               else None
  {
    hide VersionInfo, WellNamed, Writable, ReadBlob, Blob, TotalSize, Fits, Leading, Stored, Storable;
    WritableNames(d.tree, v);
    LegacyVersion(version, v);
    BlobReads(d, version, v, slots, pad, f);
  }

  lemma LegacyVersion(version: int, v: Version)
    requires VersionInfo(version) == Some(v) && v.legacy
    ensures v.bootCpuid <==> version != 1
  {
  }

  lemma NamelessStored(t: Tree)
    requires WellNamed(t, true)
    ensures Nameless(t) ==>
              && (Storable(t) && RunNameCheck(Stored(t, true)) == Live(t) <==> Based(t))
              && (Storable(t) && ProcessChecks(Stored(t, true)) == Live(t)
                  <==> Passes(Live(t), true) && (BaseLen(t.name) > 0 || t.name == []))
  {
    hide *;
    if Based(t) {
      BasedIsStorable(t);
    }
    if Passes(Live(t), true) && (BaseLen(t.name) > 0 || t.name == []) {
      PassingIsBased(t, true);
      BasedIsStorable(t);
    }
    if Nameless(t) {
      NamelessChecked(t);
    }
  }

  lemma WritableNames(t: Tree, v: Version)
    requires Writable(t, v) && v.legacy
    ensures WellNamed(t, true)
  {
  }

  // ----- Names that do not come back

  /** A root with one empty child. */
  function OneChild(name: CString): Tree {
    Tree([], false, [], [], [Tree(name, false, [], [], [])])
  }

  lemma NamePropLength(o: Out, name: CString)
    requires |name| <= 5
    ensures var r := EmitNameProp(o, name); |r.dt| <= |o.dt| + 40 && |r.strs| <= |o.strs| + 5
  {
    hide Cell, FindString;
  }

  lemma LeafLength(o: Out, name: CString, path: CString, v: Version)
    requires |name| <= 5 && |path| <= 6
    ensures var r := EmitNode(o, Tree(name, false, [], [], []), path, v);
            |r.dt| <= |o.dt| + 80 && |r.strs| <= |o.strs| + 5
  {
    hide EmitNameProp;
    var head := EmitAlign4(EmitString(EmitCell(o.dt, BEGIN_NODE), if v.legacy then path else name, 0));
    NamePropLength(Out(head, o.strs), name);
  }

  lemma OneChildBlocks(name: CString, v: Version)
    requires v.legacy && |name| <= 5
    ensures var o := Blocks(OneChild(name), v); |o.dt| <= 200 && |o.strs| <= 10
  {
    hide EmitNode, EmitNameProp, EmitKids, Cell;
    var path := JoinPath([], []);
    var head := EmitAlign4(EmitString(EmitCell([], BEGIN_NODE), path, 0));
    var o := EmitNameProp(Out(head, []), []);
    NamePropLength(Out(head, []), []);
    LeafLength(o, name, JoinPath(path, name), v);
    OneChildParts(name, v);
  }

  lemma OneChildSize(name: CString, version: int, v: Version)
    requires VersionInfo(version) == Some(v) && v.legacy && |name| <= 5
    ensures TotalSize(DtInfo([], OneChild(name), 0), v, 0, 0) < WORD
  {
    hide Blocks, Zeros;
    OneChildBlocks(name, v);
  }

  lemma OneChildNamed(name: CString)
    requires NulFree(name) && CleanName(name)
    ensures WellNamed(OneChild(name), true)
  {
    var t := OneChild(name);
    assert WellNamed(t.kids[0], true);
    assert KidsWellNamed(t.kids, true);
  }

  lemma SmallBlob(name: CString, version: int, v: Version)
    requires VersionInfo(version) == Some(v) && v.legacy && |name| <= 5 && NulFree(name) && CleanName(name)
    ensures TotalSize(DtInfo([], OneChild(name), 0), v, 0, 0) < WORD && Writable(OneChild(name), v)
  {
    hide TotalSize;
    OneChildSize(name, version, v);
    OneChildNamed(name);
  }

  lemma OneChildParts(name: CString, v: Version)
    requires v.legacy
    ensures var path := JoinPath([], []);
            var head := EmitAlign4(EmitString(EmitCell([], BEGIN_NODE), path, 0));
            var o3 := EmitNode(EmitNameProp(Out(head, []), []), Tree(name, false, [], [], []), JoinPath(path, name), v);
            EmitNode(Out([], []), OneChild(name), path, v) == Out(EmitCell(o3.dt, END_NODE), o3.strs)
  {
    hide EmitNameProp, EmitString, EmitCell, EmitAlign4;
    var path, leaf := JoinPath([], []), Tree(name, false, [], [], []);
    var head := EmitAlign4(EmitString(EmitCell([], BEGIN_NODE), path, 0));
    var o := EmitNameProp(Out(head, []), []);
    var o3 := EmitNode(o, leaf, JoinPath(path, name), v);
    assert EmitKids(o, [leaf], path, v) == EmitKids(o3, [leaf][1..], path, v) == o3;
  }

  lemma LeafStored(name: CString)
    requires BaseLen(name) == 0 && name != []
    ensures var k := Tree(name, false, [], [], []);
            && Live(k) == k && Stored(k, true) == Tree(name, false, [], [Prop(NAME, [name[0]], false, [])], [])
  {
    hide BaseLen, NAME;
    var k := Tree(name, false, [], [], []);
    assert k.kids == [] && LiveProps([]) + [NameProp(name)] == [NameProp(name)];
    assert (name + [0])[..1] == [name[0]];
  }

  lemma LeafUnbased(name: CString)
    requires BaseLen(name) == 0 && name != []
    ensures var k := Tree(name, false, [], [], []);
            Nameless(k) && !Based(k) && !Passes(k, false) && (Storable(k) <==> |name| <= 3)
  {
  }

  lemma OneChildStored(name: CString)
    requires BaseLen(name) == 0 && name != []
    ensures var t := OneChild(name);
            && Nameless(t) && !Based(t) && Live(t) == t
            && (Storable(t) <==> |name| <= 3)
            && Stored(t, true) == Tree([], false, [], [Prop(NAME, [0], false, [])],
                                       [Tree(name, false, [], [Prop(NAME, [name[0]], false, [])], [])])
  {
    hide BaseLen, NAME;
    var t := OneChild(name);
    var k := t.kids[0];
    LeafStored(name);
    LeafUnbased(name);
    assert t.kids == [k] && t.kids[1..] == [];
    assert StoredKids([], true) == [] && LiveKids([]) == [];
    RootNameProp();
    assert LiveProps([]) + [NameProp([])] == [NameProp([])];
  }

  lemma RootNameProp()
    ensures NameProp([]) == Prop(NAME, [0], false, [])
  {
  }

  /** Neither check lets the other one run on such a tree. */
  lemma OneChildUnchecked(name: CString)
    requires BaseLen(name) == 0 && name != [] && NulFree(name) && CleanName(name)
    ensures var s := Stored(OneChild(name), true);
            RunNameCheck(s) == ProcessChecks(s) == s
  {
    var t := OneChild(name);
    OneChildNamed(name);
    LeafUnbased(name);
    assert !Passes(t.kids[0], false);
    hide KidsPass, WellNamed, Based, Live, Stored, NamesAreStrings;
    OneChildStored(name);
    StringsOfStored(t);
    StoredPasses(t, true);
  }

  /** Nothing can be read when a node is called "@abcd". */
  lemma OverlongNameUnreadable(version: int, v: Version, f: seq<Byte>)
    requires VersionInfo(version) == Some(v) && v.legacy
    requires Blob(DtInfo([], OneChild([AT, 97, 98, 99, 100]), 0), v, 0, 0) <= f
    ensures ReadBlob(f) == None
  {
    var name: CString := [AT, 97, 98, 99, 100];
    assert CleanName(name) && NulFree(name) && BaseLen(name) == 0;
    hide *;
    SmallBlob(name, version, v);
    OneChildStored(name);
    OneChildReads(name, version, v, f);
  }

  /** A node called "@" can be read, but the added names stay, whether or not the earlier checks are on. */
  lemma BareUnitKeepsNames(version: int, v: Version, f: seq<Byte>)
    requires VersionInfo(version) == Some(v) && v.legacy
    requires Blob(DtInfo([], OneChild([AT]), 0), v, 0, 0) <= f
    ensures ReadBlob(f).Some?
    ensures var t := ReadBlob(f).value.tree;
            && t == Tree([], false, [], [Prop(NAME, [0], false, [])], [Tree([AT], false, [], [Prop(NAME, [AT], false, [])], [])])
            && RunNameCheck(t) == ProcessChecks(t) == t
  {
    var name: CString := [AT];
    assert CleanName(name) && NulFree(name) && BaseLen(name) == 0;
    hide *;
    SmallBlob(name, version, v);
    OneChildStored(name);
    OneChildUnchecked(name);
    OneChildReads(name, version, v, f);
  }

  lemma OneChildReads(name: CString, version: int, v: Version, f: seq<Byte>)
    requires VersionInfo(version) == Some(v) && v.legacy && Writable(OneChild(name), v)
    requires TotalSize(DtInfo([], OneChild(name), 0), v, 0, 0) < WORD
    requires Blob(DtInfo([], OneChild(name), 0), v, 0, 0) <= f
    ensures ReadBlob(f)
            == if Storable(OneChild(name)) then Some(DtInfo([], Stored(OneChild(name), true), 0)) else None
  {
    var d := DtInfo([], OneChild(name), 0);
    assert Fits(d.reserves) && Leading(d.reserves) == [];
    hide VersionInfo, Writable, ReadBlob, Blob, TotalSize, Fits, Leading, Stored, Storable, WellNamed;
    LegacyReads(d, version, v, 0, 0, f);
  }
}
