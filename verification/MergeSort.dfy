// The pure side of the bottom-up mergesort of src/utlist.h: what merging two runs and one pass over
// the list do to the sequence of elements, and why repeated passes sort it stably.
module MergeSort {
  import opened Common

  // The order of merging: the left run wins ties.
  function Merge<E, T>(p: seq<E>, q: seq<E>, cmp: (T, T) -> int, key: E -> T): seq<E>
    decreases |p| + |q|
  {
    if p == [] then q
    else if q == [] then p
    else if cmp(key(p[0]), key(q[0])) <= 0 then [p[0]] + Merge(p[1..], q, cmp, key)
    else [q[0]] + Merge(p, q[1..], cmp, key)
  }

  // The first k elements, or all of them.
  function Take<E>(s: seq<E>, k: nat): (t: seq<E>)
    ensures |t| <= k
  {
    if |s| <= k then s else s[..k]
  }

  function Drop<E>(s: seq<E>, k: nat): (t: seq<E>)
    ensures |t| == if |s| <= k then 0 else |s| - k
  {
    if |s| <= k then [] else s[k..]
  }

  lemma Split<E>(s: seq<E>, k: nat)
    ensures s == Take(s, k) + Drop(s, k)
  {
  }

  // One pass: neighbouring blocks of k elements are merged in pairs.
  function Pass<E, T>(s: seq<E>, k: nat, cmp: (T, T) -> int, key: E -> T): seq<E>
    requires k > 0
    decreases |s|
  {
    if s == [] then []
    else
      var r := Drop(s, k);
      Merge(Take(s, k), Take(r, k), cmp, key) + Pass(Drop(r, k), k, cmp, key)
  }

  // The sign of a comparison function orders every pair consistently.
  ghost predicate TotalPreorder<T(!new)>(cmp: (T, T) -> int) {
    && (forall a, b :: cmp(a, b) <= 0 || cmp(b, a) <= 0)
    && (forall a, b, c :: cmp(a, b) <= 0 && cmp(b, c) <= 0 ==> cmp(a, c) <= 0)
  }

  // The position of x in s, or |s|.
  function Rank<E(==)>(s: seq<E>, x: E): nat {
    if s == [] || s[0] == x then 0 else 1 + Rank(s[1..], x)
  }

  // x may stand before y in a stable sort of origin.
  ghost predicate Before<E, T>(cmp: (T, T) -> int, key: E -> T, origin: seq<E>, x: E, y: E) {
    cmp(key(x), key(y)) <= 0 && (cmp(key(y), key(x)) <= 0 ==> Rank(origin, x) < Rank(origin, y))
  }

  ghost predicate StablySorted<E, T>(cmp: (T, T) -> int, key: E -> T, origin: seq<E>, s: seq<E>) {
    forall i, j :: 0 <= i < j < |s| ==> Before(cmp, key, origin, s[i], s[j])
  }

  ghost predicate RanksBelow<E>(origin: seq<E>, p: seq<E>, q: seq<E>) {
    forall i, j :: 0 <= i < |p| && 0 <= j < |q| ==> Rank(origin, p[i]) < Rank(origin, q[j])
  }

  // s consists of stably sorted blocks of k elements, and the blocks still stand in the order of origin.
  ghost predicate Blocks<E, T>(cmp: (T, T) -> int, key: E -> T, origin: seq<E>, s: seq<E>, k: nat)
    requires k > 0
    decreases |s|
  {
    s == [] || (
      && StablySorted(cmp, key, origin, Take(s, k))
      && RanksBelow(origin, Take(s, k), Drop(s, k))
      && Blocks(cmp, key, origin, Drop(s, k), k))
  }

  lemma {:induction false} RankAt<E>(s: seq<E>, i: nat)
    requires i < |s| && Distinct(s)
    ensures Rank(s, s[i]) == i
    decreases i
  {
    if i > 0 {
      RankAt(s[1..], i - 1);
    }
  }

  // ----- merging -----

  lemma {:induction false} MergeElements<E, T>(p: seq<E>, q: seq<E>, cmp: (T, T) -> int, key: E -> T)
    ensures multiset(Merge(p, q, cmp, key)) == multiset(p) + multiset(q)
    decreases |p| + |q|
  {
    if p != [] && q != [] {
      assert p == [p[0]] + p[1..] && q == [q[0]] + q[1..];
      if cmp(key(p[0]), key(q[0])) <= 0 {
        MergeElements(p[1..], q, cmp, key);
      } else {
        MergeElements(p, q[1..], cmp, key);
      }
    }
  }

  lemma SortedCons<E, T>(cmp: (T, T) -> int, key: E -> T, origin: seq<E>, x: E, s: seq<E>)
    requires forall y :: y in multiset(s) ==> Before(cmp, key, origin, x, y)
    requires StablySorted(cmp, key, origin, s)
    ensures StablySorted(cmp, key, origin, [x] + s)
  {
    forall i, j | 0 <= i < j < |s| + 1 ensures Before(cmp, key, origin, ([x] + s)[i], ([x] + s)[j]) {
      if i == 0 {
        assert s[j - 1] in multiset(s);
      }
    }
  }

  lemma LeftFirst<E, T(!new)>(cmp: (T, T) -> int, key: E -> T, origin: seq<E>, p: seq<E>, q: seq<E>)
    requires TotalPreorder(cmp) && p != [] && q != [] && cmp(key(p[0]), key(q[0])) <= 0
    requires StablySorted(cmp, key, origin, p) && StablySorted(cmp, key, origin, q) && RanksBelow(origin, p, q)
    ensures forall z :: z in multiset(p[1..]) + multiset(q) ==> Before(cmp, key, origin, p[0], z)
  {
    forall z | z in multiset(p[1..]) + multiset(q) ensures Before(cmp, key, origin, p[0], z) {
      if z in p[1..] {
        var i :| 0 <= i < |p[1..]| && p[1..][i] == z;
        assert Before(cmp, key, origin, p[0], p[i + 1]);
      } else {
        var j :| 0 <= j < |q| && q[j] == z;
        assert j > 0 ==> Before(cmp, key, origin, q[0], q[j]);
      }
    }
  }

  lemma RightFirst<E, T(!new)>(cmp: (T, T) -> int, key: E -> T, origin: seq<E>, p: seq<E>, q: seq<E>)
    requires TotalPreorder(cmp) && p != [] && q != [] && cmp(key(p[0]), key(q[0])) > 0
    requires StablySorted(cmp, key, origin, p) && StablySorted(cmp, key, origin, q)
    ensures forall z :: z in multiset(p) + multiset(q[1..]) ==> Before(cmp, key, origin, q[0], z)
  {
    forall z | z in multiset(p) + multiset(q[1..]) ensures Before(cmp, key, origin, q[0], z) {
      if z in p {
        var i :| 0 <= i < |p| && p[i] == z;
        assert i > 0 ==> Before(cmp, key, origin, p[0], p[i]);
      } else {
        var j :| 0 <= j < |q[1..]| && q[1..][j] == z;
        assert Before(cmp, key, origin, q[0], q[j + 1]);
      }
    }
  }

  lemma {:induction false} MergeSorts<E, T(!new)>(cmp: (T, T) -> int, key: E -> T, origin: seq<E>, p: seq<E>, q: seq<E>)
    requires TotalPreorder(cmp)
    requires StablySorted(cmp, key, origin, p) && StablySorted(cmp, key, origin, q) && RanksBelow(origin, p, q)
    ensures StablySorted(cmp, key, origin, Merge(p, q, cmp, key))
    decreases |p| + |q|
  {
    if p != [] && q != [] {
      if cmp(key(p[0]), key(q[0])) <= 0 {
        MergeSorts(cmp, key, origin, p[1..], q);
        MergeElements(p[1..], q, cmp, key);
        LeftFirst(cmp, key, origin, p, q);
        SortedCons(cmp, key, origin, p[0], Merge(p[1..], q, cmp, key));
      } else {
        MergeSorts(cmp, key, origin, p, q[1..]);
        MergeElements(p, q[1..], cmp, key);
        RightFirst(cmp, key, origin, p, q);
        SortedCons(cmp, key, origin, q[0], Merge(p, q[1..], cmp, key));
      }
    }
  }

  // ----- one pass -----

  lemma {:induction false} PassElements<E, T>(s: seq<E>, k: nat, cmp: (T, T) -> int, key: E -> T)
    requires k > 0
    ensures multiset(Pass(s, k, cmp, key)) == multiset(s) && |Pass(s, k, cmp, key)| == |s|
    decreases |s|
  {
    if s != [] {
      var d := Drop(s, k);
      var p, q, r := Take(s, k), Take(d, k), Drop(d, k);
      Split(s, k);
      Split(d, k);
      assert multiset(p + d) == multiset(p) + multiset(d);
      assert multiset(q + r) == multiset(q) + multiset(r);
      MergeElements(p, q, cmp, key);
      PassElements(r, k, cmp, key);
    }
    Sizes(Pass(s, k, cmp, key), s);
  }

  lemma Sizes<E>(s: seq<E>, t: seq<E>)
    requires multiset(s) == multiset(t)
    ensures |s| == |t|
  {
    assert |s| == |multiset(s)| && |t| == |multiset(t)|;
  }

  lemma RanksBelowElements<E>(origin: seq<E>, p: seq<E>, q: seq<E>, p': seq<E>, q': seq<E>)
    requires RanksBelow(origin, p, q)
    requires multiset(p) == multiset(p') && multiset(q) == multiset(q')
    ensures RanksBelow(origin, p', q')
  {
    forall i, j | 0 <= i < |p'| && 0 <= j < |q'| ensures Rank(origin, p'[i]) < Rank(origin, q'[j]) {
      assert p'[i] in multiset(p) && q'[j] in multiset(q);
    }
  }

  lemma BlocksCons<E, T>(cmp: (T, T) -> int, key: E -> T, origin: seq<E>, a: seq<E>, rest: seq<E>, k: nat)
    requires 0 < |a| <= k && (rest != [] ==> |a| == k)
    requires StablySorted(cmp, key, origin, a) && RanksBelow(origin, a, rest) && Blocks(cmp, key, origin, rest, k)
    ensures Blocks(cmp, key, origin, a + rest, k)
  {
    TakeDrop(a, rest, k);
  }

  lemma TakeDrop<E>(a: seq<E>, rest: seq<E>, k: nat)
    requires |a| <= k && (rest != [] ==> |a| == k)
    ensures Take(a + rest, k) == a && Drop(a + rest, k) == rest
  {
  }

  lemma RanksBelowJoin<E>(origin: seq<E>, p: seq<E>, q: seq<E>, r: seq<E>)
    requires RanksBelow(origin, p, q + r) && RanksBelow(origin, q, r)
    ensures RanksBelow(origin, p, q) && RanksBelow(origin, p + q, r)
  {
    forall i, j | 0 <= i < |p| && 0 <= j < |q| ensures Rank(origin, p[i]) < Rank(origin, q[j]) {
      assert (q + r)[j] == q[j];
    }
    forall i, j | 0 <= i < |p + q| && 0 <= j < |r| ensures Rank(origin, (p + q)[i]) < Rank(origin, r[j]) {
      assert (q + r)[|q| + j] == r[j];
    }
  }

  // A pass turns sorted blocks of k elements into sorted blocks of 2k.
  lemma {:induction false} PassDoubles<E, T(!new)>(cmp: (T, T) -> int, key: E -> T, origin: seq<E>, s: seq<E>, k: nat)
    requires k > 0 && TotalPreorder(cmp) && Blocks(cmp, key, origin, s, k)
    ensures Blocks(cmp, key, origin, Pass(s, k, cmp, key), 2 * k)
    decreases |s|
  {
    if s != [] {
      var d := Drop(s, k);
      var p, q, r := Take(s, k), Take(d, k), Drop(d, k);
      Split(s, k);
      Split(d, k);
      var pq, t := Merge(p, q, cmp, key), Pass(r, k, cmp, key);
      SecondBlock(cmp, key, origin, q, r, k);
      RanksBelowJoin(origin, p, q, r);
      MergeSorts(cmp, key, origin, p, q);
      MergeElements(p, q, cmp, key);
      Sizes(pq, p + q);
      PassDoubles(cmp, key, origin, r, k);
      PassElements(r, k, cmp, key);
      RanksBelowElements(origin, p + q, r, pq, t);
      BlocksCons(cmp, key, origin, pq, t, 2 * k);
    }
  }

  lemma SecondBlock<E, T>(cmp: (T, T) -> int, key: E -> T, origin: seq<E>, q: seq<E>, r: seq<E>, k: nat)
    requires k > 0 && |q| <= k && (r != [] ==> |q| == k) && Blocks(cmp, key, origin, q + r, k)
    ensures StablySorted(cmp, key, origin, q) && RanksBelow(origin, q, r) && Blocks(cmp, key, origin, r, k)
  {
    TakeDrop(q, r, k);
  }

  lemma {:induction false} SingleBlocks<E, T>(cmp: (T, T) -> int, key: E -> T, origin: seq<E>, i: nat)
    requires i <= |origin| && Distinct(origin)
    ensures Blocks(cmp, key, origin, origin[i..], 1)
    decreases |origin| - i
  {
    if i < |origin| {
      var s := origin[i..];
      SingleBlocks(cmp, key, origin, i + 1);
      var t := origin[i + 1..];
      assert s == [origin[i]] + t;
      TakeDrop([origin[i]], t, 1);
      forall j | 0 <= j < |t| ensures Rank(origin, origin[i]) < Rank(origin, t[j]) {
        RankAt(origin, i);
        RankAt(origin, i + 1 + j);
      }
    }
  }

  lemma OneBlock<E, T>(cmp: (T, T) -> int, key: E -> T, origin: seq<E>, s: seq<E>, k: nat)
    requires k > 0 && |s| <= k && Blocks(cmp, key, origin, s, k)
    ensures StablySorted(cmp, key, origin, s)
  {
    assert s != [] ==> Take(s, k) == s;
  }

  // No element occurs twice.
  ghost predicate Unique<E>(all: multiset<E>) {
    forall x :: x in all ==> all[x] == 1
  }

  lemma UniqueDistinct<E>(s: seq<E>)
    requires Unique(multiset(s))
    ensures Distinct(s)
  {
    forall i, j | 0 <= i < j < |s| ensures s[i] != s[j] {
      Occurrences(s, i, j);
    }
  }

  lemma Occurrences<E>(s: seq<E>, i: nat, j: nat)
    requires i < j < |s| && Unique(multiset(s))
    ensures s[i] != s[j]
  {
    var a, b := s[..j], s[j..];
    assert s == a + b;
    assert multiset(s) == multiset(a) + multiset(b);
    assert s[i] == a[i] && s[j] == b[0];
    assert s[i] in multiset(a) && s[j] in multiset(b);
    assert s[i] in multiset(s) && multiset(s)[s[i]] == 1;
  }

  // A stable sort of distinct elements is unique, so the result is the stable sort.
  lemma {:induction false} StableSortUnique<E, T>(cmp: (T, T) -> int, key: E -> T, origin: seq<E>, s: seq<E>, t: seq<E>)
    requires StablySorted(cmp, key, origin, s) && StablySorted(cmp, key, origin, t)
    requires multiset(s) == multiset(t)
    ensures s == t
    decreases |s|
  {
    Sizes(s, t);
    if s != [] {
      assert s[0] in multiset(t) && t[0] in multiset(s);
      assert s[0] == t[0];
      assert s == [s[0]] + s[1..] && t == [t[0]] + t[1..];
      assert multiset(s[1..]) == multiset(s) - multiset{s[0]};
      assert multiset(t[1..]) == multiset(t) - multiset{s[0]};
      StableSortUnique(cmp, key, origin, s[1..], t[1..]);
    }
  }

  // ----- mapping over permutations -----

  function Map<E, F>(f: E -> F, s: seq<E>): (r: seq<F>)
    ensures |r| == |s|
  {
    if s == [] then [] else [f(s[0])] + Map(f, s[1..])
  }

  lemma {:induction false} MapAt<E, F>(f: E -> F, s: seq<E>, i: nat)
    requires i < |s|
    ensures Map(f, s)[i] == f(s[i])
    decreases i
  {
    if i > 0 {
      MapAt(f, s[1..], i - 1);
    }
  }

  lemma {:induction false} MapConcat<E, F>(f: E -> F, s: seq<E>, t: seq<E>)
    ensures Map(f, s + t) == Map(f, s) + Map(f, t)
    decreases |s|
  {
    if s == [] {
      assert s + t == t;
    } else {
      assert (s + t)[1..] == s[1..] + t;
      MapConcat(f, s[1..], t);
    }
  }

  lemma MapAppend<E, F>(f: E -> F, s: seq<E>, x: E)
    ensures Map(f, s + [x]) == Map(f, s) + [f(x)]
  {
    MapConcat(f, s, [x]);
    assert [x][1..] == [];
  }

  // s without its element at position k.
  lemma WithoutElements<E>(s: seq<E>, k: nat)
    requires k < |s|
    ensures multiset(s) == multiset(Without(s, k)) + multiset{s[k]}
  {
    assert s == s[..k] + [s[k]] + s[k + 1..];
  }

  lemma WithoutFirst<E>(s: seq<E>)
    requires s != []
    ensures Without(s, 0) == s[1..]
  {
  }

  lemma {:induction false} MapWithout<E, F>(f: E -> F, s: seq<E>, k: nat)
    requires k < |s|
    ensures multiset(Map(f, s)) == multiset(Map(f, Without(s, k))) + multiset{f(s[k])}
    decreases k
  {
    var y, r := s[0], s[1..];
    if k == 0 {
      WithoutFirst(s);
    } else {
      var t := Without(s, k);
      assert t[0] == y && t[1..] == Without(r, k - 1);
      MapWithout(f, r, k - 1);
      assert multiset(Map(f, t)) == multiset{f(y)} + multiset(Map(f, t[1..]));
    }
    assert multiset(Map(f, s)) == multiset{f(y)} + multiset(Map(f, r));
  }

  lemma Cancel<E>(m: multiset<E>, n: multiset<E>, x: E)
    requires m + multiset{x} == n + multiset{x}
    ensures m == n
  {
    assert m == (m + multiset{x}) - multiset{x};
  }

  lemma {:induction false} MapElements<E, F>(f: E -> F, s: seq<E>, t: seq<E>)
    requires multiset(s) == multiset(t)
    ensures multiset(Map(f, s)) == multiset(Map(f, t))
    decreases |s|
  {
    Sizes(s, t);
    if s != [] {
      var x := s[0];
      assert x in multiset(s);
      var k :| 0 <= k < |t| && t[k] == x;
      var s', t' := Without(s, 0), Without(t, k);
      WithoutElements(s, 0);
      WithoutElements(t, k);
      Cancel(multiset(s'), multiset(t'), x);
      MapElements(f, s', t');
      MapWithout(f, s, 0);
      MapWithout(f, t, k);
    }
  }

  ghost predicate InjectiveOn<E, F>(f: E -> F, all: set<E>) {
    forall x, y :: x in all && y in all && f(x) == f(y) ==> x == y
  }

  // Where f is injective, equal images come from equal elements.
  lemma {:induction false} MapElementsBack<E, F>(f: E -> F, s: seq<E>, t: seq<E>, all: set<E>)
    requires multiset(Map(f, s)) == multiset(Map(f, t)) && InjectiveOn(f, all)
    requires (forall x :: x in multiset(s) ==> x in all) && (forall x :: x in multiset(t) ==> x in all)
    ensures multiset(s) == multiset(t)
    decreases |s|
  {
    Sizes(Map(f, s), Map(f, t));
    if s != [] {
      var x := s[0];
      assert Map(f, s)[0] in multiset(Map(f, t));
      var k :| 0 <= k < |t| && Map(f, t)[k] == f(x);
      MapAt(f, t, k);
      assert t[k] in multiset(t) && x in multiset(s) && t[k] == x;
      var s', t' := Without(s, 0), Without(t, k);
      MapWithout(f, s, 0);
      MapWithout(f, t, k);
      Cancel(multiset(Map(f, s')), multiset(Map(f, t')), f(x));
      WithoutElements(s, 0);
      WithoutElements(t, k);
      MapElementsBack(f, s', t', all);
    }
  }
}
