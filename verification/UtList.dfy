// The singly linked list macros of src/utlist.h that the agent uses: append, delete and the in-place mergesort.
module UtList {
  import opened Common
  import opened MergeSort

  class Node<T> {
    var next: Node?<T>
    const val: T

    constructor (val: T)
      ensures this.val == val && next == null
    {
      this.val := val;
      this.next := null;
    }
  }

  function Key<T>(n: Node<T>): T { n.val }

  // Consecutive elements are linked.
  ghost predicate Chain<T>(s: seq<Node<T>>)
    reads s
  {
    forall i :: 0 <= i < |s| - 1 ==> s[i].next == s[i + 1]
  }

  // From head on the nodes are s, and the last one points to NULL.
  ghost predicate Ends<T>(head: Node?<T>, s: seq<Node<T>>)
    reads s
  {
    && Chain(s)
    && (s == [] ==> head == null)
    && (s != [] ==> head == s[0] && s[|s| - 1].next == null)
  }

  // head is a NULL-terminated list of the nodes s.
  ghost predicate List<T>(head: Node?<T>, s: seq<Node<T>>)
    reads s
  {
    Unique(multiset(s)) && Ends(head, s)
  }

  // head and tail delimit s; what follows the last node does not matter yet.
  ghost predicate Prefix<T>(head: Node?<T>, tail: Node?<T>, s: seq<Node<T>>)
    reads s
  {
    && Chain(s)
    && (s == [] ==> head == null && tail == null)
    && (s != [] ==> head == s[0] && tail == s[|s| - 1])
  }

  // ----- LL_SORT2 -----

  // The for loop: q moves up to insize nodes ahead of p.
  method Advance<T>(p: Node<T>, insize: nat, ghost s: seq<Node<T>>) returns (q: Node?<T>, psize: nat)
    requires insize > 0 && Ends(p, s)
    ensures psize == |Take(s, insize)|
    ensures q == if psize < |s| then s[psize] else null
  {
    q := p;
    psize := 0;
    var i := 0;
    while i < insize
      invariant psize == i <= |s| && i <= insize
      invariant q == if i < |s| then s[i] else null
      invariant i < insize ==> q != null
    {
      psize := psize + 1;
      q := q.next;
      assert psize < |s| ==> q == s[psize];
      if q == null { break; }
      i := i + 1;
    }
  }

  // The nodes put out (o), the left run (p) and the rest of the list (r) are all the nodes.
  ghost predicate Parts<T>(o: seq<Node<T>>, p: seq<Node<T>>, r: seq<Node<T>>, all: multiset<Node<T>>) {
    multiset(o) + multiset(p) + multiset(r) == all
  }

  // The right run is at most the first m nodes of r; target is the final order.
  ghost predicate Merging<T>(o: seq<Node<T>>, p: seq<Node<T>>, r: seq<Node<T>>, m: nat,
                             cmp: (T, T) -> int, target: seq<Node<T>>)
  {
    o + Merge(p, Take(r, m), cmp, Key<T>) == target
  }

  lemma TakeLeft<T>(o: seq<Node<T>>, p: seq<Node<T>>, r: seq<Node<T>>, m: nat, cmp: (T, T) -> int,
                    target: seq<Node<T>>)
    requires Merging(o, p, r, m, cmp, target)
    requires p != [] && (m == 0 || r == [] || cmp(p[0].val, r[0].val) <= 0)
    ensures Merging(o + [p[0]], p[1..], r, m, cmp, target)
  {
    Assoc(o, [p[0]], Merge(p[1..], Take(r, m), cmp, Key<T>));
  }

  lemma TakeRight<T>(o: seq<Node<T>>, p: seq<Node<T>>, r: seq<Node<T>>, m: nat, cmp: (T, T) -> int,
                     target: seq<Node<T>>)
    requires Merging(o, p, r, m, cmp, target)
    requires m > 0 && r != [] && (p == [] || cmp(p[0].val, r[0].val) > 0)
    ensures Merging(o + [r[0]], p, r[1..], m - 1, cmp, target)
    ensures Drop(r[1..], m - 1) == Drop(r, m)
  {
    var t := Take(r, m);
    assert t[0] == r[0] && t[1..] == Take(r[1..], m - 1);
    assert Merge(p, t, cmp, Key<T>) == [r[0]] + Merge(p, t[1..], cmp, Key<T>) by {
      if p == [] { assert t == [t[0]] + t[1..]; }
    }
    Assoc(o, [r[0]], Merge(p, t[1..], cmp, Key<T>));
  }

  lemma PartsTake<T>(o: seq<Node<T>>, p: seq<Node<T>>, r: seq<Node<T>>, all: multiset<Node<T>>)
    requires Parts(o, p, r, all)
    ensures p != [] ==> Parts(o + [p[0]], p[1..], r, all)
    ensures r != [] ==> Parts(o + [r[0]], p, r[1..], all)
  {
    assert p != [] ==> p == [p[0]] + p[1..];
    assert r != [] ==> r == [r[0]] + r[1..];
  }

  lemma Assoc<E>(a: seq<E>, b: seq<E>, c: seq<E>)
    ensures a + b + c == a + (b + c)
  {
  }

  // The last node put out occurs nowhere else.
  lemma TailApart<T>(o: seq<Node<T>>, p: seq<Node<T>>, r: seq<Node<T>>, all: multiset<Node<T>>)
    requires o != [] && Parts(o, p, r, all) && Unique(all)
    ensures forall i :: 0 <= i < |o| - 1 ==> o[i] != o[|o| - 1]
    ensures forall i :: 0 <= i < |p| ==> p[i] != o[|o| - 1]
    ensures forall i :: 0 <= i < |r| ==> r[i] != o[|o| - 1]
  {
    var t := o[|o| - 1];
    assert o == o[..|o| - 1] + [t];
    assert multiset(o) == multiset(o[..|o| - 1]) + multiset{t};
    assert t in all && all[t] == 1;
    forall i | 0 <= i < |o| - 1 ensures o[i] != t {
      assert o[i] == o[..|o| - 1][i];
      assert o[i] in multiset(o[..|o| - 1]);
    }
    forall i | 0 <= i < |p| ensures p[i] != t {
      assert p[i] in multiset(p);
    }
    forall i | 0 <= i < |r| ensures r[i] != t {
      assert r[i] in multiset(r);
    }
  }

  // Hangs e behind tail, or starts the list with it.
  method Hang<T>(list0: Node?<T>, tail0: Node?<T>, e: Node<T>, ghost o: seq<Node<T>>, ghost p: seq<Node<T>>,
                 ghost q: Node?<T>, ghost r: seq<Node<T>>, ghost all: multiset<Node<T>>)
    returns (list: Node?<T>, tail: Node?<T>)
    requires Prefix(list0, tail0, o) && Chain(p) && Ends(q, r)
    requires Parts(o + [e], p, r, all) && Unique(all)
    modifies if tail0 != null then {tail0} else {}
    ensures Prefix(list, tail, o + [e]) && Chain(p) && Ends(q, r)
  {
    list := list0;
    if tail0 != null {
      TailApart(o, p + [e], r, all);
      assert forall i :: 0 <= i < |p| ==> (p + [e])[i] == p[i];
      tail0.next := e;
    } else {
      list := e;
    }
    tail := e;
  }

  // The choice of the next node e: the left run first on a tie.
  method Pick<T>(p0: Node?<T>, psize0: nat, q0: Node?<T>, qsize0: nat, cmp: (T, T) -> int,
                 ghost o: seq<Node<T>>, ghost pp0: seq<Node<T>>, ghost r0: seq<Node<T>>,
                 ghost target: seq<Node<T>>, ghost all: multiset<Node<T>>)
    returns (e: Node<T>, p: Node?<T>, psize: nat, q: Node?<T>, qsize: nat, ghost pp: seq<Node<T>>,
             ghost r: seq<Node<T>>)
    requires psize0 > 0 || (qsize0 > 0 && q0 != null)
    requires |pp0| == psize0 && (pp0 != [] ==> p0 == pp0[0]) && Chain(pp0) && Ends(q0, r0)
    requires Merging(o, pp0, r0, qsize0, cmp, target) && Parts(o, pp0, r0, all)
    ensures |pp| == psize && (pp != [] ==> p == pp[0]) && Chain(pp) && Ends(q, r)
    ensures Drop(r, qsize) == Drop(r0, qsize0)
    ensures Merging(o + [e], pp, r, qsize, cmp, target) && Parts(o + [e], pp, r, all)
    ensures psize + |r| < psize0 + |r0|
  {
    p, psize, q, qsize := p0, psize0, q0, qsize0;
    pp, r := pp0, r0;
    ghost var left := false;
    if psize == 0 {
      e := q; q := q.next; qsize := qsize - 1;
    } else if qsize == 0 || q == null {
      e := p; p := p.next; psize := psize - 1;
      left := true;
    } else if cmp(p.val, q.val) <= 0 {
      e := p; p := p.next; psize := psize - 1;
      left := true;
    } else {
      e := q; q := q.next; qsize := qsize - 1;
    }
    PartsTake(o, pp, r, all);
    if left {
      TakeLeft(o, pp, r, qsize0, cmp, target);
      pp := pp[1..];
    } else {
      TakeRight(o, pp, r, qsize0, cmp, target);
      r := r[1..];
    }
  }

  // The inner while loop: merges the run of psize nodes at p with the run of at most qsize nodes at q
  // and hangs the result behind tail.
  method MergeRuns<T>(p0: Node?<T>, psize0: nat, q0: Node?<T>, qsize0: nat, list0: Node?<T>, tail0: Node?<T>,
                      cmp: (T, T) -> int, ghost o0: seq<Node<T>>, ghost p1: seq<Node<T>>, ghost r0: seq<Node<T>>,
                      ghost all: multiset<Node<T>>, ghost frame: set<Node<T>>)
    returns (list: Node?<T>, tail: Node?<T>, q: Node?<T>, ghost o: seq<Node<T>>, ghost r: seq<Node<T>>)
    requires |p1| == psize0 > 0 && p0 == p1[0] && Chain(p1)
    requires Ends(q0, r0) && Prefix(list0, tail0, o0)
    requires Parts(o0, p1, r0, all) && Unique(all) && (forall x :: x in all ==> x in frame)
    modifies frame
    ensures o == o0 + Merge(p1, Take(r0, qsize0), cmp, Key<T>) && r == Drop(r0, qsize0)
    ensures Prefix(list, tail, o) && Ends(q, r) && Parts(o, [], r, all)
  {
    list, tail, q := list0, tail0, q0;
    var p, psize, qsize := p0, psize0, qsize0;
    o, r := o0, r0;
    ghost var pp := p1;
    ghost var target := o0 + Merge(p1, Take(r0, qsize0), cmp, Key<T>);
    while psize > 0 || (qsize > 0 && q != null)
      invariant |pp| == psize && (pp != [] ==> p == pp[0]) && Chain(pp)
      invariant Ends(q, r) && Prefix(list, tail, o)
      invariant Drop(r, qsize) == Drop(r0, qsize0)
      invariant Merging(o, pp, r, qsize, cmp, target) && Parts(o, pp, r, all)
      decreases psize + |r|
    {
      var e;
      e, p, psize, q, qsize, pp, r := Pick(p, psize, q, qsize, cmp, o, pp, r, target, all);
      assert tail != null ==> tail in multiset(o);
      list, tail := Hang(list, tail, e, o, pp, q, r, all);
      o := o + [e];
    }
  }

  // What is left of n after k.
  function Beyond(n: nat, k: nat): nat { if n <= k then 0 else n - k }

  lemma PartsSplit<T>(o: seq<Node<T>>, r: seq<Node<T>>, p: seq<Node<T>>, q: seq<Node<T>>, all: multiset<Node<T>>)
    requires Parts(o, [], r, all) && r == p + q
    ensures Parts(o, p, q, all)
  {
  }

  // One round of the middle loop: the next two runs of the rest r are merged behind the nodes put out.
  method MergePair<T>(p: Node<T>, insize: nat, list0: Node?<T>, tail0: Node?<T>, cmp: (T, T) -> int,
                      ghost o0: seq<Node<T>>, ghost r0: seq<Node<T>>, ghost all: multiset<Node<T>>,
                      ghost frame: set<Node<T>>)
    returns (list: Node?<T>, tail: Node?<T>, q: Node?<T>, ghost o: seq<Node<T>>, ghost r: seq<Node<T>>)
    requires insize > 0 && r0 != []
    requires Prefix(list0, tail0, o0) && Ends(p, r0)
    requires Parts(o0, [], r0, all) && Unique(all) && (forall x :: x in all ==> x in frame)
    modifies frame
    ensures Prefix(list, tail, o) && Ends(q, r) && Parts(o, [], r, all)
    ensures |r| == Beyond(|r0|, 2 * insize)
    ensures o + Pass(r, insize, cmp, Key<T>) == o0 + Pass(r0, insize, cmp, Key<T>)
  {
    var psize;
    q, psize := Advance(p, insize, r0);
    ghost var pp, rr := Take(r0, insize), Drop(r0, insize);
    Split(r0, insize);
    PartsSplit(o0, r0, pp, rr, all);
    Assoc(o0, Merge(pp, Take(rr, insize), cmp, Key<T>), Pass(Drop(rr, insize), insize, cmp, Key<T>));
    list, tail, q, o, r := MergeRuns(p, psize, q, insize, list0, tail0, cmp, o0, pp, rr, all, frame);
  }

  // The end of the last run, where NULL goes.
  method Terminate<T>(ghost list: Node?<T>, tail: Node?<T>, ghost o: seq<Node<T>>, ghost all: multiset<Node<T>>,
                      ghost frame: set<Node<T>>)
    requires Prefix(list, tail, o) && Parts(o, [], [], all) && Unique(all) && (forall x :: x in all ==> x in frame)
    modifies frame
    ensures Ends(list, o)
  {
    if tail != null {
      TailApart(o, [], [], all);
      assert tail in multiset(o);
      tail.next := null;
    }
  }

  // The middle loop: the whole list is cut into pairs of runs, which are merged in place.
  method MergeAll<T>(p0: Node<T>, insize: nat, cmp: (T, T) -> int, ghost s: seq<Node<T>>, ghost frame: set<Node<T>>)
    returns (list: Node?<T>, tail: Node?<T>, nmerges: nat, ghost o: seq<Node<T>>)
    requires insize > 0 && s != [] && List(p0, s)
    requires forall x :: x in multiset(s) ==> x in frame
    modifies frame
    ensures Prefix(list, tail, o) && Parts(o, [], [], multiset(s))
    ensures o == Pass(s, insize, cmp, Key<T>)
    ensures nmerges <= 1 <==> |s| <= 2 * insize
  {
    var p: Node?<T> := p0;
    list, tail, nmerges := null, null, 0;
    ghost var r, all, target := s, multiset(s), Pass(s, insize, cmp, Key<T>);
    o := [];
    while p != null
      invariant Prefix(list, tail, o) && Ends(p, r) && Parts(o, [], r, all)
      invariant o + Pass(r, insize, cmp, Key<T>) == target
      invariant nmerges == 0 ==> |r| == |s|
      invariant nmerges == 1 ==> |r| == Beyond(|s|, 2 * insize)
      invariant nmerges > 1 ==> |s| > 2 * insize
      decreases |r|
    {
      nmerges := nmerges + 1;
      list, tail, p, o, r := MergePair(p, insize, list, tail, cmp, o, r, all, frame);
    }
    assert r == [];
  }

  // One run of the outer loop.
  method SortPass<T>(p0: Node<T>, insize: nat, cmp: (T, T) -> int, ghost s: seq<Node<T>>, ghost frame: set<Node<T>>)
    returns (list: Node?<T>, nmerges: nat)
    requires insize > 0 && s != [] && List(p0, s)
    requires forall x :: x in multiset(s) ==> x in frame
    modifies frame
    ensures Ends(list, Pass(s, insize, cmp, Key<T>))
    ensures nmerges <= 1 <==> |s| <= 2 * insize
  {
    var tail;
    ghost var o;
    list, tail, nmerges, o := MergeAll(p0, insize, cmp, s, frame);
    Terminate(list, tail, o, multiset(s), frame);
  }

  // LL_SORT2: the list is relinked in place into its stable sort.
  method LlSort<T(!new)>(head: Node?<T>, cmp: (T, T) -> int, ghost s: seq<Node<T>>)
    returns (list: Node?<T>, ghost sorted: seq<Node<T>>)
    requires List(head, s) && TotalPreorder(cmp)
    modifies set x | x in s
    ensures List(list, sorted) && multiset(sorted) == multiset(s)
    ensures StablySorted(cmp, Key<T>, s, sorted)
  {
    list, sorted := head, s;
    ghost var frame := set x | x in s;
    if list != null {
      var insize, looping := 1, true;
      UniqueDistinct(s);
      SingleBlocks(cmp, Key<T>, s, 0);
      assert s[0..] == s;
      while looping
        invariant insize > 0
        invariant Ends(list, sorted) && multiset(sorted) == multiset(s) && |sorted| == |s|
        invariant Blocks(cmp, Key<T>, s, sorted, insize)
        invariant if looping then insize <= |s| else |s| <= insize
        decreases looping, |s| - insize
      {
        var nmerges;
        ghost var next := Pass(sorted, insize, cmp, Key<T>);
        assert Blocks(cmp, Key<T>, s, next, 2 * insize) by {
          PassDoubles(cmp, Key<T>, s, sorted, insize);
        }
        assert multiset(next) == multiset(s) && |next| == |s| by {
          PassElements(sorted, insize, cmp, Key<T>);
        }
        list, nmerges := SortPass(list, insize, cmp, sorted, frame);
        sorted := next;
        if nmerges <= 1 {
          looping := false;
        }
        insize := 2 * insize;
      }
      OneBlock(cmp, Key<T>, s, sorted, insize);
    }
  }

  // ----- LL_APPEND and LL_DELETE -----

  method LlAppend<T>(head0: Node?<T>, add: Node<T>, ghost s: seq<Node<T>>) returns (head: Node?<T>)
    requires List(head0, s) && add !in s
    modifies {add} + set x | x in s
    ensures List(head, s + [add])
  {
    head := head0;
    add.next := null;
    if head != null {
      var tmp := head;
      ghost var i := 0;
      while tmp.next != null
        invariant 0 <= i < |s| && tmp == s[i]
        invariant tmp.next == if i < |s| - 1 then s[i + 1] else null
        decreases |s| - i
      {
        tmp := tmp.next;
        i := i + 1;
      }
      UniqueDistinct(s);
      tmp.next := add;
    } else {
      head := add;
    }
  }

  lemma UniqueWithout<E>(s: seq<E>, k: nat)
    requires k < |s| && Unique(multiset(s))
    ensures Unique(multiset(Without(s, k)))
  {
    var t := Without(s, k);
    assert s == s[..k] + [s[k]] + s[k + 1..];
    assert multiset(s) == multiset(t) + multiset{s[k]};
    forall x | x in multiset(t) ensures multiset(t)[x] == 1 {
      assert x in multiset(s) && multiset(s)[x] == 1;
    }
  }

  method LlDelete<T>(head0: Node<T>, del: Node<T>, ghost s: seq<Node<T>>, ghost k: nat) returns (head: Node?<T>)
    requires List(head0, s) && k < |s| && s[k] == del
    modifies set x | x in s
    ensures List(head, Without(s, k))
    ensures k > 0 ==> head == head0
  {
    head := head0;
    UniqueDistinct(s);
    UniqueWithout(s, k);
    if head == del {
      head := head.next;
    } else {
      var tmp := head;
      ghost var i := 0;
      while tmp.next != null && tmp.next != del
        invariant 0 <= i < k && tmp == s[i]
        decreases |s| - i
      {
        tmp := tmp.next;
        i := i + 1;
      }
      assert s[i].next == s[i + 1];
      if tmp.next != null {
        tmp.next := del.next;
      }
    }
  }
}
