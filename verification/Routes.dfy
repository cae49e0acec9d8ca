// What the routing tree of src/handler.c means: runners registered at paths of segments, and the lists of runners that
// a path gathers. Runners are pointers, numbers above 0.
module Routes {
  import opened Common

  datatype Tree = Tree(items: seq<nat>, kids: map<string, Tree>)

  const EMPTY := Tree([], map[])

  // ----- a node's array of runners -----

  // Where x is or would be in an ascending array.
  function Place(s: seq<nat>, x: nat): (k: nat)
    ensures k <= |s| && (forall i :: 0 <= i < k ==> s[i] < x) && (k < |s| ==> s[k] >= x)
  {
    if s == [] || s[0] >= x then 0
    else 1 + Place(s[1..], x)
  }

  // utarray_find, utarray_push_back and utarray_sort: x is added once, in its place.
  function Inserted(s: seq<nat>, x: nat): seq<nat> {
    if x in s then s else s[..Place(s, x)] + [x] + s[Place(s, x)..]
  }

  // utarray_find and utarray_erase
  function Erased(s: seq<nat>, x: nat): seq<nat> {
    var k := Place(s, x);
    if k < |s| && s[k] == x then s[..k] + s[k + 1..] else s
  }

  lemma PlaceOf(s: seq<nat>, x: nat)
    requires Ascending(s) && x in s
    ensures Place(s, x) < |s| && s[Place(s, x)] == x
  {
    var i :| 0 <= i < |s| && s[i] == x;
    var k := Place(s, x);
    assert i >= k;
  }

  lemma InsertedMembers(s: seq<nat>, x: nat, k: nat)
    requires Ascending(s) && k <= |s|
    requires forall i :: 0 <= i < |s| ==> if i < k then s[i] < x else x < s[i]
    ensures Ascending(s[..k] + [x] + s[k..])
    ensures forall y :: y in s[..k] + [x] + s[k..] <==> y in s || y == x
  {
    var t := s[..k] + [x] + s[k..];
    assert forall i :: 0 <= i < |t| ==> t[i] == if i < k then s[i] else if i == k then x else s[i - 1];
    forall y | y in s ensures y in t {
      var i :| 0 <= i < |s| && s[i] == y;
      assert t[if i < k then i else i + 1] == y;
    }
    assert t[k] == x;
  }

  lemma InsertedKeeps(s: seq<nat>, x: nat)
    requires Ascending(s)
    ensures Ascending(Inserted(s, x)) && (forall y :: y in Inserted(s, x) <==> y in s || y == x)
  {
    if x !in s {
      var k := Place(s, x);
      assert forall i :: k < i < |s| ==> s[k] < s[i];
      InsertedMembers(s, x, k);
    }
  }

  lemma ErasedMembers(s: seq<nat>, k: nat)
    requires Ascending(s) && k < |s|
    ensures Ascending(s[..k] + s[k + 1..])
    ensures forall y :: y in s[..k] + s[k + 1..] <==> y in s && y != s[k]
  {
    var t := s[..k] + s[k + 1..];
    forall y | y in s && y != s[k] ensures y in t {
      var i :| 0 <= i < |s| && s[i] == y;
      assert t[if i < k then i else i - 1] == y;
    }
  }

  lemma ErasedKeeps(s: seq<nat>, x: nat)
    requires Ascending(s)
    ensures Ascending(Erased(s, x)) && (forall y :: y in Erased(s, x) <==> y in s && y != x)
  {
    if x in s {
      PlaceOf(s, x);
      ErasedMembers(s, Place(s, x));
    }
  }

  // An ascending array is determined by its elements.
  lemma {:induction false} SameElements(a: seq<nat>, b: seq<nat>)
    requires Ascending(a) && Ascending(b) && forall x :: x in a <==> x in b
    ensures a == b
    decreases |a|
  {
    if a == [] {
      assert forall i :: 0 <= i < |b| ==> b[i] in b;
    } else {
      assert a[0] in b && (b != [] ==> b[0] in a);
      assert a[0] == b[0];
      var a', b' := a[1..], b[1..];
      assert a == [a[0]] + a' && b == [b[0]] + b';
      assert a[0] !in a' && b[0] !in b';
      forall x ensures x in a' <==> x in b' {
        assert x in a <==> x in b;
      }
      SameElements(a', b');
    }
  }

  // ----- the tree -----

  predicate IsEmpty(t: Tree) {
    t.items == [] && t.kids == map[]
  }

  // Every array is ascending and no leaf but the root is empty.
  ghost predicate WellFormed(t: Tree) {
    Ascending(t.items) && forall k :: k in t.kids ==> WellFormed(t.kids[k]) && !IsEmpty(t.kids[k])
  }

  // The runners at exactly this path.
  function At(t: Tree, path: seq<string>): seq<nat>
    decreases |path|
  {
    if path == [] then t.items
    else if path[0] in t.kids then At(t.kids[path[0]], path[1..])
    else []
  }

  predicate HasNode(t: Tree, path: seq<string>)
    decreases |path|
  {
    path == [] || (path[0] in t.kids && HasNode(t.kids[path[0]], path[1..]))
  }

  function Kid(t: Tree, k: string): Tree {
    if k in t.kids then t.kids[k] else EMPTY
  }

  function Registered(t: Tree, path: seq<string>, ri: nat): Tree
    decreases |path|
  {
    if path == [] then t.(items := Inserted(t.items, ri))
    else t.(kids := t.kids[path[0] := Registered(Kid(t, path[0]), path[1..], ri)])
  }

  // An empty node is removed on the way back.
  function Unregistered(t: Tree, path: seq<string>, ri: nat): Tree
    requires HasNode(t, path)
    decreases |path|
  {
    if path == [] then t.(items := Erased(t.items, ri))
    else
      var kid := Unregistered(t.kids[path[0]], path[1..], ri);
      if IsEmpty(kid) then t.(kids := t.kids - {path[0]}) else t.(kids := t.kids[path[0] := kid])
  }

  // With tip the runners at the path only; otherwise those at every node on the way, as far as there are nodes.
  function Gathered(t: Tree, path: seq<string>, tip: bool): seq<nat>
    decreases |path|
  {
    (if !tip || path == [] then t.items else []) +
    (if path != [] && path[0] in t.kids then Gathered(t.kids[path[0]], path[1..], tip) else [])
  }

  // ----- what each operation does to the registrations -----

  lemma {:induction false} RegisteredAt(t: Tree, path: seq<string>, ri: nat, q: seq<string>)
    ensures At(Registered(t, path, ri), q) == if q == path then Inserted(At(t, q), ri) else At(t, q)
    decreases |path|
  {
    if path != [] && q != [] {
      assert q == [q[0]] + q[1..] && path == [path[0]] + path[1..];
      if q[0] == path[0] {
        RegisteredAt(Kid(t, path[0]), path[1..], ri, q[1..]);
      }
    }
  }

  lemma {:induction false} RegisteredKeeps(t: Tree, path: seq<string>, ri: nat)
    requires WellFormed(t)
    ensures WellFormed(Registered(t, path, ri)) && !IsEmpty(Registered(t, path, ri))
    decreases |path|
  {
    if path == [] {
      InsertedKeeps(t.items, ri);
      assert ri in Inserted(t.items, ri);
    } else {
      RegisteredKeeps(Kid(t, path[0]), path[1..], ri);
      assert path[0] in Registered(t, path, ri).kids;
    }
  }

  lemma {:induction false} UnregisteredAt(t: Tree, path: seq<string>, ri: nat, q: seq<string>)
    requires HasNode(t, path)
    ensures At(Unregistered(t, path, ri), q) == if q == path then Erased(At(t, q), ri) else At(t, q)
    decreases |path|
  {
    if path != [] && q != [] {
      assert q == [q[0]] + q[1..] && path == [path[0]] + path[1..];
      if q[0] == path[0] {
        UnregisteredAt(t.kids[path[0]], path[1..], ri, q[1..]);
        var kid := Unregistered(t.kids[path[0]], path[1..], ri);
        if IsEmpty(kid) {
          assert At(kid, q[1..]) == [];
        }
      }
    }
  }

  lemma {:induction false} UnregisteredKeeps(t: Tree, path: seq<string>, ri: nat)
    requires WellFormed(t) && HasNode(t, path)
    ensures WellFormed(Unregistered(t, path, ri))
    decreases |path|
  {
    if path == [] {
      ErasedKeeps(t.items, ri);
    } else {
      UnregisteredKeeps(t.kids[path[0]], path[1..], ri);
    }
  }

  // The arrays at the first n + 1 prefixes of the path, root first.
  function AlongPath(t: Tree, path: seq<string>, n: nat): seq<nat>
    requires n <= |path|
  {
    (if n == 0 then [] else AlongPath(t, path, n - 1)) + At(t, path[..n])
  }

  lemma AtKid(t: Tree, path: seq<string>, n: nat)
    requires 1 <= n <= |path|
    ensures At(t, path[..n]) == if path[0] in t.kids then At(t.kids[path[0]], path[1..][..n - 1]) else []
  {
    assert path[..n][1..] == path[1..][..n - 1];
  }

  lemma AlongStart(t: Tree, path: seq<string>)
    ensures AlongPath(t, path, 0) == t.items
  {
    assert path[..0] == [];
  }

  lemma Associative(a: seq<nat>, b: seq<nat>, c: seq<nat>)
    ensures (a + b) + c == a + (b + c) && a + [] == a
  {
  }

  lemma {:induction false} AlongKid(t: Tree, path: seq<string>, n: nat)
    requires 1 <= n <= |path|
    ensures path[0] in t.kids ==> AlongPath(t, path, n) == t.items + AlongPath(t.kids[path[0]], path[1..], n - 1)
    ensures path[0] !in t.kids ==> AlongPath(t, path, n) == t.items
    decreases n
  {
    AtKid(t, path, n);
    var before := AlongPath(t, path, n - 1);
    assert AlongPath(t, path, n) == before + At(t, path[..n]);
    if n == 1 {
      AlongStart(t, path);
    } else {
      AlongKid(t, path, n - 1);
    }
    if path[0] in t.kids {
      var kid, rest := t.kids[path[0]], path[1..];
      if n == 1 {
        AlongStart(kid, rest);
        assert rest[..0] == [];
      } else {
        Associative(t.items, AlongPath(kid, rest, n - 2), At(kid, rest[..n - 1]));
      }
    } else {
      Associative(before, [], []);
    }
  }

  // Gathering without tip yields the runners at every segment prefix of the path, root to leaf; with tip those at the
  // exact path.
  lemma {:induction false} GatheredIs(t: Tree, path: seq<string>)
    ensures Gathered(t, path, false) == AlongPath(t, path, |path|)
    ensures Gathered(t, path, true) == At(t, path)
    decreases |path|
  {
    if path == [] {
      assert path[..0] == [];
    } else {
      AlongKid(t, path, |path|);
      if path[0] in t.kids {
        GatheredIs(t.kids[path[0]], path[1..]);
      }
    }
  }

  // ----- the tree is determined by its registrations -----

  lemma {:induction false} SomeRunner(t: Tree) returns (path: seq<string>)
    requires WellFormed(t) && !IsEmpty(t)
    ensures At(t, path) != []
    decreases t
  {
    if t.items != [] {
      path := [];
    } else {
      var k :| k in t.kids;
      var rest := SomeRunner(t.kids[k]);
      path := [k] + rest;
      assert path[1..] == rest;
    }
  }

  lemma KidSeen(t: Tree, u: Tree, k: string)
    requires WellFormed(t) && k in t.kids && forall q :: At(t, q) == At(u, q)
    ensures k in u.kids && forall q :: At(t.kids[k], q) == At(u.kids[k], q)
  {
    var q := SomeRunner(t.kids[k]);
    assert ([k] + q)[1..] == q;
    assert At(t, [k] + q) == At(u, [k] + q);
    forall q ensures k in u.kids ==> At(t.kids[k], q) == At(u.kids[k], q) {
      assert ([k] + q)[1..] == q;
      assert At(t, [k] + q) == At(u, [k] + q);
    }
  }

  lemma {:induction false} Determined(t: Tree, u: Tree)
    requires WellFormed(t) && WellFormed(u) && forall q :: At(t, q) == At(u, q)
    ensures t == u
    decreases t
  {
    assert At(t, []) == At(u, []);
    forall k | k in t.kids ensures k in u.kids && t.kids[k] == u.kids[k] {
      KidSeen(t, u, k);
      Determined(t.kids[k], u.kids[k]);
    }
    forall k | k in u.kids ensures k in t.kids {
      KidSeen(u, t, k);
    }
    assert t.kids == u.kids;
  }

  lemma {:induction false} RegisteredHasNode(t: Tree, path: seq<string>, ri: nat)
    ensures HasNode(Registered(t, path, ri), path)
    decreases |path|
  {
    if path != [] {
      RegisteredHasNode(Kid(t, path[0]), path[1..], ri);
    }
  }

  lemma {:induction false} AtAscending(t: Tree, path: seq<string>)
    requires WellFormed(t)
    ensures Ascending(At(t, path))
    decreases |path|
  {
    if path != [] && path[0] in t.kids {
      AtAscending(t.kids[path[0]], path[1..]);
    }
  }

  // Registering a new runner and unregistering it again restores the tree.
  lemma RestoresTree(t: Tree, path: seq<string>, ri: nat)
    requires WellFormed(t) && ri !in At(t, path)
    ensures HasNode(Registered(t, path, ri), path)
    ensures Unregistered(Registered(t, path, ri), path, ri) == t
  {
    var u := Registered(t, path, ri);
    RegisteredHasNode(t, path, ri);
    AtAscending(t, path);
    RegisteredKeeps(t, path, ri);
    UnregisteredKeeps(u, path, ri);
    var v := Unregistered(u, path, ri);
    forall q ensures At(v, q) == At(t, q) {
      UnregisteredAt(u, path, ri, q);
      RegisteredAt(t, path, ri, q);
      if q == path {
        var s := At(t, q);
        InsertedKeeps(s, ri);
        ErasedKeeps(Inserted(s, ri), ri);
        SameElements(Erased(Inserted(s, ri), ri), s);
      }
    }
    Determined(v, t);
  }
}
