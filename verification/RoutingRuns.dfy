// Any sequence of registrations and matching unregistrations, and how paths are cut into segments.
module RoutingRuns {
  import opened Common
  import opened Routes
  import opened RoutingTree

  datatype Change = Add(path: seq<string>, ri: nat) | Remove(path: seq<string>, ri: nat)

  type Table = set<(seq<string>, nat)>

  // Who is registered where.
  function TableAfter(s: Table, changes: seq<Change>): Table
    decreases |changes|
  {
    if changes == [] then s
    else match changes[0]
      case Add(path, ri) => TableAfter(s + {(path, ri)}, changes[1..])
      case Remove(path, ri) => TableAfter(s - {(path, ri)}, changes[1..])
  }

  // A runner is unregistered only where it is registered: unregistering acts on runners gathered at the very path.
  predicate Matching(s: Table, changes: seq<Change>)
    decreases |changes|
  {
    changes != [] ==> match changes[0]
      case Add(path, ri) => Matching(s + {(path, ri)}, changes[1..])
      case Remove(path, ri) => (path, ri) in s && Matching(s - {(path, ri)}, changes[1..])
  }

  ghost predicate Shows(t: Tree, s: Table) {
    WellFormed(t) && forall path, ri :: ri in At(t, path) <==> (path, ri) in s
  }

  lemma {:induction false} AtHasNode(t: Tree, path: seq<string>)
    requires At(t, path) != []
    ensures HasNode(t, path)
    decreases |path|
  {
    if path != [] {
      AtHasNode(t.kids[path[0]], path[1..]);
    }
  }

  lemma AddShows(t: Tree, s: Table, path: seq<string>, ri: nat)
    requires Shows(t, s)
    ensures Shows(Registered(t, path, ri), s + {(path, ri)})
  {
    RegisteredKeeps(t, path, ri);
    forall q, x ensures x in At(Registered(t, path, ri), q) <==> (q, x) in s + {(path, ri)} {
      RegisteredAt(t, path, ri, q);
      AtAscending(t, q);
      InsertedKeeps(At(t, q), ri);
    }
  }

  lemma RemoveShows(t: Tree, s: Table, path: seq<string>, ri: nat)
    requires Shows(t, s) && (path, ri) in s
    ensures HasNode(t, path) && Shows(Unregistered(t, path, ri), s - {(path, ri)})
  {
    assert ri in At(t, path);
    AtHasNode(t, path);
    UnregisteredKeeps(t, path, ri);
    forall q, x ensures x in At(Unregistered(t, path, ri), q) <==> (q, x) in s - {(path, ri)} {
      UnregisteredAt(t, path, ri, q);
      AtAscending(t, q);
      ErasedKeeps(At(t, q), ri);
    }
  }

  // The tree after the changes; a change that does not match leaves it alone.
  function TreeAfter(t: Tree, changes: seq<Change>): Tree
    decreases |changes|
  {
    if changes == [] then t
    else match changes[0]
      case Add(path, ri) => TreeAfter(Registered(t, path, ri), changes[1..])
      case Remove(path, ri) => TreeAfter(if HasNode(t, path) then Unregistered(t, path, ri) else t, changes[1..])
  }

  lemma {:induction false} ChangesShow(t: Tree, s: Table, changes: seq<Change>)
    requires Shows(t, s) && Matching(s, changes)
    ensures Shows(TreeAfter(t, changes), TableAfter(s, changes))
    decreases |changes|
  {
    if changes != [] {
      match changes[0]
      case Add(path, ri) =>
        AddShows(t, s, path, ri);
        ChangesShow(Registered(t, path, ri), s + {(path, ri)}, changes[1..]);
      case Remove(path, ri) =>
        RemoveShows(t, s, path, ri);
        ChangesShow(Unregistered(t, path, ri), s - {(path, ri)}, changes[1..]);
    }
  }

  lemma {:induction false} AlongPathHas(t: Tree, path: seq<string>, n: nat, x: nat)
    requires n <= |path|
    ensures x in AlongPath(t, path, n) <==> exists k :: 0 <= k <= n && x in At(t, path[..k])
    decreases n
  {
    if n > 0 {
      AlongPathHas(t, path, n - 1, x);
    }
  }

  // After any matching changes, a path gathers exactly the runners registered at a segment prefix of it; with tip
  // exactly those registered at the path itself.
  lemma RunGathers(changes: seq<Change>, path: seq<string>, x: nat)
    requires Matching({}, changes)
    ensures x in Gathered(TreeAfter(EMPTY, changes), path, false)
            <==> exists k :: 0 <= k <= |path| && (path[..k], x) in TableAfter({}, changes)
    ensures x in Gathered(TreeAfter(EMPTY, changes), path, true) <==> (path, x) in TableAfter({}, changes)
  {
    var t, s := TreeAfter(EMPTY, changes), TableAfter({}, changes);
    assert Shows(EMPTY, {});
    ChangesShow(EMPTY, {}, changes);
    GatheredIs(t, path);
    AlongPathHas(t, path, |path|, x);
    assert forall k :: 0 <= k <= |path| ==> (x in At(t, path[..k]) <==> (path[..k], x) in s);
  }

  // Two runs that register the same runners at the same paths leave the same tree.
  lemma RunsAgree(a: seq<Change>, b: seq<Change>)
    requires Matching({}, a) && Matching({}, b) && TableAfter({}, a) == TableAfter({}, b)
    ensures TreeAfter(EMPTY, a) == TreeAfter(EMPTY, b)
  {
    var t, u := TreeAfter(EMPTY, a), TreeAfter(EMPTY, b);
    assert Shows(EMPTY, {});
    ChangesShow(EMPTY, {}, a);
    ChangesShow(EMPTY, {}, b);
    forall q ensures At(t, q) == At(u, q) {
      AtAscending(t, q);
      AtAscending(u, q);
      SameElements(At(t, q), At(u, q));
    }
    Determined(t, u);
  }

  // A node is there exactly if somebody is registered at its path or below it; the root always is.
  lemma {:induction false} NodeSeen(t: Tree, path: seq<string>)
    requires WellFormed(t)
    ensures HasNode(t, path) && path != [] ==> exists q :: At(t, path + q) != []
    decreases |path|
  {
    if path != [] && HasNode(t, path) {
      var kid := t.kids[path[0]];
      var q;
      if |path| == 1 {
        q := SomeRunner(kid);
      } else {
        NodeSeen(kid, path[1..]);
        q :| At(kid, path[1..] + q) != [];
      }
      assert (path + q)[1..] == path[1..] + q;
      assert At(t, path + q) != [];
    }
  }

  lemma {:induction false} NodeAbove(t: Tree, path: seq<string>, q: seq<string>)
    requires HasNode(t, path + q)
    ensures HasNode(t, path)
    decreases |path|
  {
    if path != [] {
      assert (path + q)[1..] == path[1..] + q;
      NodeAbove(t.kids[path[0]], path[1..], q);
    }
  }

  // When a call that unregisters faults, after any matching changes: exactly if nobody is registered at its path or
  // below it, and the path is not the root.
  lemma FaultsIff(changes: seq<Change>, path: seq<string>, ri: nat)
    requires Matching({}, changes)
    ensures Node.Faults(TreeAfter(EMPTY, changes), Unregister(ri), path)
            <==> path != [] && forall q, x :: (path + q, x) !in TableAfter({}, changes)
  {
    var t, s := TreeAfter(EMPTY, changes), TableAfter({}, changes);
    assert Shows(EMPTY, {});
    ChangesShow(EMPTY, {}, changes);
    NodeSeen(t, path);
    if path != [] && HasNode(t, path) {
      var q :| At(t, path + q) != [];
      assert At(t, path + q)[0] in At(t, path + q);
    }
    forall q, x | (path + q, x) in s ensures HasNode(t, path) {
      assert x in At(t, path + q);
      AtHasNode(t, path + q);
      NodeAbove(t, path, q);
    }
  }

  function MeaningOf(c: (bool, string, nat)): Change {
    if c.0 then Add(Segments(c.1), c.2) else Remove(Segments(c.1), c.2)
  }

  // One change on the tree itself; s is who is registered where.
  method ApplyOne(root: Node, change: (bool, string, nat), ghost s: Table) returns (ghost s': Table)
    requires root.Valid() && Shows(root.tree, s) && Matching(s, [MeaningOf(change)])
    modifies root.repr
    ensures root.Valid() && fresh(root.repr - old(root.repr))
    ensures s' == TableAfter(s, [MeaningOf(change)]) && Shows(root.tree, s')
    ensures root.tree == TreeAfter(old(root.tree), [MeaningOf(change)])
  {
    var (adds, path, ri) := change;
    if adds {
      AddShows(root.tree, s, Segments(path), ri);
      var _, _ := root.Query(Register(ri), path, []);
      s' := s + {(Segments(path), ri)};
    } else {
      RemoveShows(root.tree, s, Segments(path), ri);
      var _, nullPointer := root.Query(Unregister(ri), path, []);
      assert !nullPointer;
      s' := s - {(Segments(path), ri)};
    }
  }

  lemma NextChange(t: Tree, s: Table, changes: seq<Change>, i: nat)
    requires i < |changes| && Matching(s, changes[i..])
    ensures Matching(s, [changes[i]]) && Matching(TableAfter(s, [changes[i]]), changes[i + 1..])
    ensures TreeAfter(t, changes[i..]) == TreeAfter(TreeAfter(t, [changes[i]]), changes[i + 1..])
  {
    assert changes[i..][0] == changes[i] && changes[i..][1..] == changes[i + 1..];
    assert [changes[i]][1..] == [];
  }

  // The same run on the tree itself.
  method Apply(root: Node, changes: seq<(bool, string, nat)>)
    requires root.Valid() && root.tree == EMPTY && Matching({}, Meaning(changes))
    modifies root.repr
    ensures root.Valid() && fresh(root.repr - old(root.repr)) && root.tree == TreeAfter(EMPTY, Meaning(changes))
  {
    ghost var s: Table := {};
    ghost var all := Meaning(changes);
    assert all[0..] == all;
    for i := 0 to |changes|
      invariant root.Valid() && fresh(root.repr - old(root.repr))
      invariant Shows(root.tree, s) && Matching(s, all[i..])
      invariant TreeAfter(root.tree, all[i..]) == TreeAfter(EMPTY, all)
    {
      NextChange(root.tree, s, all, i);
      s := ApplyOne(root, changes[i], s);
    }
  }

  function Meaning(changes: seq<(bool, string, nat)>): (r: seq<Change>)
    ensures |r| == |changes|
    ensures forall i :: 0 <= i < |r| ==> r[i] == MeaningOf(changes[i])
  {
    if changes == [] then [] else [MeaningOf(changes[0])] + Meaning(changes[1..])
  }

  // ----- segments -----

  lemma {:induction false} LenBefore(a: string, b: string)
    requires SegmentLen(a) < |a| || b == "" || b[0] == '/'
    ensures SegmentLen(a + b) == SegmentLen(a)
    decreases |a|
  {
    if a == "" {
      assert a + b == b;
    } else if a[0] != '/' {
      assert (a + b)[1..] == a[1..] + b;
      LenBefore(a[1..], b);
    }
  }

  lemma SlashFirst(b: string)
    ensures Segments("/" + b) == Segments(b)
  {
    assert ("/" + b)[1..] == b;
  }

  // A slash separates: the segments before it, then those after it. So repeated, leading and trailing slashes add none.
  lemma {:induction false} SegmentsSplit(a: string, b: string)
    ensures Segments(a + "/" + b) == Segments(a) + Segments(b)
    decreases |a|
  {
    var s := a + "/" + b;
    if a == "" {
      assert s == "/" + b;
      SlashFirst(b);
    } else if a[0] == '/' {
      assert a == "/" + a[1..] && s == "/" + (a[1..] + "/" + b);
      SlashFirst(a[1..]);
      SlashFirst(a[1..] + "/" + b);
      SegmentsSplit(a[1..], b);
    } else {
      var n := SegmentLen(a);
      assert s == a + ("/" + b);
      LenBefore(a, "/" + b);
      assert s[n..] == a[n..] + "/" + b && s[..n] == a[..n];
      SegmentsSplit(a[n..], b);
    }
  }

  lemma SlashesDoNotMatter(a: string, b: string)
    ensures Segments(a + "//" + b) == Segments(a + "/" + b)
    ensures Segments(a + "/") == Segments(a) == Segments("/" + a)
  {
    SegmentsSplit(a, b);
    SegmentsSplit(a, "/" + b);
    assert a + "/" + ("/" + b) == a + "//" + b;
    SlashFirst(b);
    SegmentsSplit(a, "");
    assert a + "/" + "" == a + "/";
    SlashFirst(a);
  }

  // ----- paths as strings -----

  predicate IsName(s: string) {
    s != "" && '/' !in s
  }

  predicate AllNames(names: seq<string>) {
    forall i :: 0 <= i < |names| ==> IsName(names[i])
  }

  // The names with a slash between two of them.
  function Joined(names: seq<string>): string {
    if names == [] then ""
    else if |names| == 1 then names[0]
    else names[0] + "/" + Joined(names[1..])
  }

  // A name is one segment, all of it.
  lemma NameIsSegment(s: string)
    requires IsName(s)
    ensures Segments(s) == [s]
  {
    assert SkipSlashes(s) == s && SegmentLen(s) == |s|;
    assert s[|s|..] == "" && s[..|s|] == s;
  }

  // Cutting a path gives back the names it was joined from.
  lemma {:induction false} SegmentsOfJoined(names: seq<string>)
    requires AllNames(names)
    ensures Segments(Joined(names)) == names
    decreases |names|
  {
    if names != [] {
      NameIsSegment(names[0]);
      if |names| > 1 {
        SegmentsSplit(names[0], Joined(names[1..]));
        SegmentsOfJoined(names[1..]);
      }
    }
  }

  // Changes by names, and the same with the paths as strings.
  datatype Named = Named(adds: bool, path: seq<string>, ri: nat)

  function ByNames(changes: seq<Named>): (r: seq<Change>)
    ensures |r| == |changes|
  {
    if changes == [] then []
    else
      var c := changes[0];
      [if c.adds then Add(c.path, c.ri) else Remove(c.path, c.ri)] + ByNames(changes[1..])
  }

  function AsStrings(changes: seq<Named>): (r: seq<(bool, string, nat)>)
    ensures |r| == |changes|
  {
    if changes == [] then []
    else [(changes[0].adds, Joined(changes[0].path), changes[0].ri)] + AsStrings(changes[1..])
  }

  ghost predicate WellNamed(changes: seq<Named>) {
    forall i :: 0 <= i < |changes| ==> AllNames(changes[i].path)
  }

  lemma {:induction false} StringsMean(changes: seq<Named>)
    requires WellNamed(changes)
    ensures Meaning(AsStrings(changes)) == ByNames(changes)
    decreases |changes|
  {
    if changes != [] {
      SegmentsOfJoined(changes[0].path);
      assert AllNames(changes[0].path);
      StringsMean(changes[1..]);
      assert AsStrings(changes)[1..] == AsStrings(changes[1..]);
    }
  }

  // The run on the tree itself with paths as strings: what a path then gathers are exactly the runners registered under
  // its first names, in full, or with tip under all of them.
  method GatherAfter(root: Node, changes: seq<Named>, path: seq<string>, tip: bool) returns (gather: seq<nat>)
    requires root.Valid() && root.tree == EMPTY
    requires WellNamed(changes) && AllNames(path) && Matching({}, ByNames(changes))
    modifies root.repr
    ensures root.Valid()
    ensures tip ==> forall x :: x in gather <==> (path, x) in TableAfter({}, ByNames(changes))
    ensures !tip ==> forall x :: x in gather <==>
              exists k :: 0 <= k <= |path| && (path[..k], x) in TableAfter({}, ByNames(changes))
  {
    StringsMean(changes);
    Apply(root, AsStrings(changes));
    SegmentsOfJoined(path);
    var nullPointer;
    gather, nullPointer := root.Query(Gather(tip), Joined(path), []);
    forall x
      ensures tip ==> (x in gather <==> (path, x) in TableAfter({}, ByNames(changes)))
      ensures !tip ==> (x in gather <==>
                exists k :: 0 <= k <= |path| && (path[..k], x) in TableAfter({}, ByNames(changes)))
    {
      RunGathers(ByNames(changes), path, x);
    }
  }
}
