// Doubly linked lists over pointers, as the handles of src/uthash.h form them. A pointer is a number, NULL is 0,
// and a field of all handles is a map from pointers; every lemma is about one or two field updates.
module Links {
  import opened Common

  type Ptr = nat

  const NULL: Ptr := 0

  datatype Link = Link(prev: Ptr, next: Ptr)

  // The element at position i, NULL outside the list.
  function At(s: seq<Ptr>, i: int): Ptr {
    if 0 <= i < |s| then s[i] else NULL
  }

  // The element at position i points to its neighbours, and to NULL where it has none.
  ghost predicate Linked(m: map<Ptr, Link>, s: seq<Ptr>, i: nat)
    requires i < |s|
  {
    s[i] != NULL && s[i] in m && m[s[i]] == Link(At(s, i - 1), At(s, i + 1))
  }

  // s is a doubly linked list without cycles.
  ghost predicate Dll(m: map<Ptr, Link>, s: seq<Ptr>) {
    && Distinct(s)
    && forall i :: 0 <= i < |s| ==> Linked(m, s, i)
  }

  ghost predicate SameOn(m: map<Ptr, Link>, m': map<Ptr, Link>, s: seq<Ptr>) {
    forall x :: x in s && x in m ==> x in m' && m'[x] == m[x]
  }

  lemma DllFrame(m: map<Ptr, Link>, m': map<Ptr, Link>, s: seq<Ptr>)
    requires Dll(m, s) && SameOn(m, m', s)
    ensures Dll(m', s)
  {
    forall i | 0 <= i < |s| ensures Linked(m', s, i) {
      assert Linked(m, s, i);
    }
  }

  // What the element at position k holds; another position holds another element.
  lemma DllAt(m: map<Ptr, Link>, s: seq<Ptr>, k: nat)
    requires Dll(m, s) && k < |s|
    ensures s[k] in m && m[s[k]] == Link(At(s, k - 1), At(s, k + 1))
    ensures s[k] != NULL
    ensures k > 0 ==> At(s, k - 1) != NULL && At(s, k - 1) in m
    ensures k + 1 < |s| ==> At(s, k + 1) != NULL && At(s, k + 1) in m
    ensures 0 < k < |s| - 1 ==> At(s, k - 1) != At(s, k + 1)
  {
    assert Linked(m, s, k);
    assert k > 0 ==> Linked(m, s, k - 1);
    assert k + 1 < |s| ==> Linked(m, s, k + 1);
  }

  // NULL is seen exactly outside the list.
  lemma AtNull(m: map<Ptr, Link>, s: seq<Ptr>, k: int)
    requires Dll(m, s)
    ensures At(s, k) == NULL <==> k < 0 || k >= |s|
  {
    if 0 <= k < |s| { DllAt(m, s, k); }
  }

  lemma Positions(m: map<Ptr, Link>, s: seq<Ptr>, i: nat, j: int)
    requires Dll(m, s) && i < |s|
    ensures At(s, j) == s[i] <==> i == j
  {
    assert Linked(m, s, i);
  }

  // The links after x is put before the list whose first element is given.
  function PushFront(m: map<Ptr, Link>, x: Ptr, first: Ptr): map<Ptr, Link> {
    var m1 := m[x := Link(NULL, first)];
    if first != NULL && first in m then m1[first := m1[first].(prev := x)] else m1
  }

  lemma PushFrontDll(m: map<Ptr, Link>, s: seq<Ptr>, x: Ptr)
    requires Dll(m, s) && x !in s && x != NULL
    ensures Dll(PushFront(m, x, At(s, 0)), [x] + s)
    ensures forall y :: y in m && y != x && y !in s ==> PushFront(m, x, At(s, 0))[y] == m[y]
  {
    var t, m' := [x] + s, PushFront(m, x, At(s, 0));
    forall i | 0 <= i < |t| ensures Linked(m', t, i) {
      assert i > 0 ==> t[i] == s[i - 1] && Linked(m, s, i - 1);
      assert At(t, i + 1) == At(s, i) && (i > 1 ==> At(t, i - 1) == At(s, i - 2));
      assert s != [] ==> Linked(m, s, 0);
    }
  }

  // The links after x is put behind the element last.
  function PushBack(m: map<Ptr, Link>, x: Ptr, last: Ptr): map<Ptr, Link> {
    var m1 := m[x := Link(last, NULL)];
    if last != NULL && last in m then m1[last := m1[last].(next := x)] else m1
  }

  lemma PushBackDll(m: map<Ptr, Link>, s: seq<Ptr>, x: Ptr)
    requires Dll(m, s) && x !in s && x != NULL
    ensures Dll(PushBack(m, x, At(s, |s| - 1)), s + [x])
  {
    var t, m' := s + [x], PushBack(m, x, At(s, |s| - 1));
    forall i | 0 <= i < |t| ensures Linked(m', t, i) {
      assert i < |s| ==> t[i] == s[i] && Linked(m, s, i);
      assert At(t, i - 1) == At(s, i - 1) && (i < |s| - 1 ==> At(t, i + 1) == At(s, i + 1));
      assert s != [] ==> Linked(m, s, |s| - 1);
    }
  }

  // The links after the neighbours of x have been joined.
  function Unlink(m: map<Ptr, Link>, x: Ptr): map<Ptr, Link>
    requires x in m
  {
    var l := m[x];
    var m1 := if l.prev != NULL && l.prev in m then m[l.prev := m[l.prev].(next := l.next)] else m;
    if l.next != NULL && l.next in m then m1[l.next := m1[l.next].(prev := l.prev)] else m1
  }

  lemma AtWithout(s: seq<Ptr>, k: nat, i: int)
    requires k < |s|
    ensures At(Without(s, k), i) == At(s, if i < k then i else i + 1)
  {
  }

  // The fields of y after the neighbours p and n of x have been joined.
  lemma UnlinkFields(m: map<Ptr, Link>, x: Ptr, p: Ptr, n: Ptr, y: Ptr)
    requires x in m && m[x] == Link(p, n) && y in m && x != p && x != n
    requires (p != NULL ==> p in m) && (n != NULL ==> n in m) && (p == n ==> p == NULL)
    requires y != NULL && y != x
    ensures y in Unlink(m, x)
    ensures Unlink(m, x)[y] == Link(if y == n then p else m[y].prev, if y == p then n else m[y].next)
  {
  }

  lemma UnlinkAt(m: map<Ptr, Link>, s: seq<Ptr>, k: nat, j: nat)
    requires Dll(m, s) && k < |s| && j < |s| && j != k && s[k] in m
    ensures s[j] in Unlink(m, s[k])
    ensures Unlink(m, s[k])[s[j]].prev == At(s, if j == k + 1 then k - 1 else j - 1)
    ensures Unlink(m, s[k])[s[j]].next == At(s, if j == k - 1 then k + 1 else j + 1)
  {
    var x, p, n, y := s[k], At(s, k - 1), At(s, k + 1), s[j];
    DllAt(m, s, k);
    DllAt(m, s, j);
    Positions(m, s, k, k - 1);
    Positions(m, s, k, k + 1);
    Positions(m, s, k, j);
    Positions(m, s, j, k - 1);
    Positions(m, s, j, k + 1);
    UnlinkFields(m, x, p, n, y);
  }

  lemma WithoutMembers(s: seq<Ptr>, k: nat)
    requires k < |s| && Distinct(s)
    ensures forall x :: x in Without(s, k) <==> x in s && x != s[k]
    ensures Distinct(Without(s, k))
  {
    var t := Without(s, k);
    assert forall i :: 0 <= i < |t| ==> t[i] == s[if i < k then i else i + 1];
    forall y | y in s && y != s[k] ensures y in t {
      var i :| 0 <= i < |s| && s[i] == y;
      assert t[if i < k then i else i - 1] == y;
    }
  }

  lemma UnlinkDll(m: map<Ptr, Link>, s: seq<Ptr>, k: nat)
    requires Dll(m, s) && k < |s| && s[k] in m
    ensures Dll(Unlink(m, s[k]), Without(s, k))
  {
    var t, m' := Without(s, k), Unlink(m, s[k]);
    WithoutMembers(s, k);
    forall i | 0 <= i < |t| ensures Linked(m', t, i) {
      var j := if i < k then i else i + 1;
      AtWithout(s, k, i);
      AtWithout(s, k, i - 1);
      AtWithout(s, k, i + 1);
      UnlinkAt(m, s, k, j);
      DllAt(m, s, j);
      assert t[i] == s[j];
    }
  }

  lemma UnlinkFrame(m: map<Ptr, Link>, s: seq<Ptr>, k: nat)
    requires Dll(m, s) && k < |s| && s[k] in m
    ensures forall y :: y in m && y !in s ==> y in Unlink(m, s[k]) && Unlink(m, s[k])[y] == m[y]
  {
    DllAt(m, s, k);
  }
}
