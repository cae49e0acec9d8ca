// The bucket array of src/uthash.h: which element hangs in which chain, adding to and removing from a bucket,
// and the counts that HASH_FSCK checks.
module HashBuckets {
  import opened Common
  import opened Links

  const HASH_BKT_CAPACITY_THRESH := 10

  datatype Bucket = Bucket(hhHead: Ptr, count: nat, expandMult: nat)

  const EMPTY := Bucket(NULL, 0, 0)

  // The bucket a hash value belongs to.
  function Bkt(hashv: nat, n: nat): (b: nat)
    requires n > 0
    ensures b < n
  {
    hashv % n
  }

  // The bucket's chain holds exactly the items that hash to b; its head and count are right.
  ghost predicate BucketOk(links: map<Ptr, Link>, hashv: map<Ptr, nat>, bucket: Bucket, chain: seq<Ptr>,
                           items: set<Ptr>, b: nat, n: nat)
    requires n > 0
  {
    && Dll(links, chain)
    && bucket.hhHead == At(chain, 0) && bucket.count == |chain|
    && forall x :: x in chain <==> x in items && x in hashv && Bkt(hashv[x], n) == b
  }

  ghost predicate Table(links: map<Ptr, Link>, hashv: map<Ptr, nat>, buckets: seq<Bucket>, chains: seq<seq<Ptr>>,
                        items: set<Ptr>)
  {
    && |buckets| == |chains| > 0
    && items <= hashv.Keys
    && forall b {:trigger BucketOk(links, hashv, buckets[b], chains[b], items, b, |chains|)} :: 0 <= b < |chains| ==>
         BucketOk(links, hashv, buckets[b], chains[b], items, b, |chains|)
  }

  lemma EmptyTable(links: map<Ptr, Link>, hashv: map<Ptr, nat>, n: nat)
    requires n > 0
    ensures Table(links, hashv, seq(n, i => EMPTY), seq(n, i => []), {})
  {
  }

  lemma ItemLinked(links: map<Ptr, Link>, hashv: map<Ptr, nat>, buckets: seq<Bucket>, chains: seq<seq<Ptr>>,
                   items: set<Ptr>)
    requires Table(links, hashv, buckets, chains, items)
    ensures forall x :: x in items ==> x in links && x != NULL
  {
    forall x | x in items ensures x in links && x != NULL {
      var b := Bkt(hashv[x], |chains|);
      assert BucketOk(links, hashv, buckets[b], chains[b], items, b, |chains|);
      assert x in chains[b];
      var i :| 0 <= i < |chains[b]| && chains[b][i] == x;
      DllAt(links, chains[b], i);
    }
  }

  // Only the hash values of the items matter.
  lemma TableFrame(links: map<Ptr, Link>, hashv: map<Ptr, nat>, hashv': map<Ptr, nat>, buckets: seq<Bucket>,
                   chains: seq<seq<Ptr>>, items: set<Ptr>)
    requires Table(links, hashv, buckets, chains, items)
    requires forall x :: x in items ==> x in hashv' && hashv'[x] == hashv[x]
    ensures Table(links, hashv', buckets, chains, items)
  {
    forall b | 0 <= b < |chains| ensures BucketOk(links, hashv', buckets[b], chains[b], items, b, |chains|) {
      assert BucketOk(links, hashv, buckets[b], chains[b], items, b, |chains|);
    }
  }

  // A bucket that the change does not concern.
  lemma OtherBucket(links: map<Ptr, Link>, links': map<Ptr, Link>, hashv: map<Ptr, nat>, bucket: Bucket,
                    chain: seq<Ptr>,
                    items: set<Ptr>, items': set<Ptr>, b: nat, n: nat)
    requires n > 0 && BucketOk(links, hashv, bucket, chain, items, b, n)
    requires SameOn(links, links', chain)
    requires forall x :: x in hashv && Bkt(hashv[x], n) == b ==> (x in items <==> x in items')
    ensures BucketOk(links', hashv, bucket, chain, items', b, n)
  {
    DllFrame(links, links', chain);
  }

  // HASH_ADD_TO_BKT up to its expansion test: x goes to the front of its chain.
  lemma AddToBucket(links: map<Ptr, Link>, hashv: map<Ptr, nat>, buckets: seq<Bucket>, chains: seq<seq<Ptr>>,
                    items: set<Ptr>, x: Ptr, b: nat, bucket: Bucket)
    requires Table(links, hashv, buckets, chains, items)
    requires x !in items && x != NULL && x in hashv && b == Bkt(hashv[x], |chains|)
    requires bucket.hhHead == x && bucket.count == buckets[b].count + 1
    ensures buckets[b].hhHead == At(chains[b], 0) && (At(chains[b], 0) != NULL ==> At(chains[b], 0) in links)
    ensures Table(PushFront(links, x, At(chains[b], 0)), hashv, buckets[b := bucket],
                  chains[b := [x] + chains[b]], items + {x})
    ensures forall y :: y in links && y !in items && y != x ==>
              y in PushFront(links, x, At(chains[b], 0)) && PushFront(links, x, At(chains[b], 0))[y] == links[y]
  {
    var n, c := |chains|, chains[b];
    assert BucketOk(links, hashv, buckets[b], c, items, b, n);
    var links' := PushFront(links, x, At(c, 0));
    PushFrontDll(links, c, x);
    assert c != [] ==> Linked(links, c, 0);
    assert BucketOk(links', hashv, bucket, [x] + c, items + {x}, b, n);
    forall a | 0 <= a < n && a != b ensures BucketOk(links', hashv, buckets[a], chains[a], items + {x}, a, n) {
      assert BucketOk(links, hashv, buckets[a], chains[a], items, a, n);
      OtherBucket(links, links', hashv, buckets[a], chains[a], items, items + {x}, a, n);
    }
  }

  // HASH_DEL_IN_BKT: the element at position k leaves its chain.
  lemma RemoveFromBucket(links: map<Ptr, Link>, hashv: map<Ptr, nat>, buckets: seq<Bucket>, chains: seq<seq<Ptr>>,
                         items: set<Ptr>, b: nat, k: nat, bucket: Bucket)
    requires Table(links, hashv, buckets, chains, items)
    requires b < |chains| && k < |chains[b]| && chains[b][k] in links
    requires bucket.hhHead == At(Without(chains[b], k), 0) && bucket.count == buckets[b].count - 1
    ensures Dll(links, chains[b])
    ensures Table(Unlink(links, chains[b][k]), hashv, buckets[b := bucket],
                  chains[b := Without(chains[b], k)], items - {chains[b][k]})
  {
    var n, c, x := |chains|, chains[b], chains[b][k];
    assert BucketOk(links, hashv, buckets[b], c, items, b, n);
    var links', items' := Unlink(links, x), items - {x};
    UnlinkDll(links, c, k);
    UnlinkFrame(links, c, k);
    WithoutMembers(c, k);
    assert BucketOk(links', hashv, bucket, Without(c, k), items', b, n);
    forall a | 0 <= a < n && a != b ensures BucketOk(links', hashv, buckets[a], chains[a], items', a, n) {
      assert BucketOk(links, hashv, buckets[a], chains[a], items, a, n);
      OtherBucket(links, links', hashv, buckets[a], chains[a], items, items', a, n);
    }
  }

  // ----- counts -----

  function SumCounts(buckets: seq<Bucket>): nat {
    if buckets == [] then 0 else SumCounts(buckets[..|buckets| - 1]) + buckets[|buckets| - 1].count
  }

  lemma {:induction false} ElementsOf(s: seq<Ptr>) returns (e: set<Ptr>)
    requires Distinct(s)
    ensures (forall x :: x in e <==> x in s) && |e| == |s|
    decreases |s|
  {
    if s == [] {
      e := {};
    } else {
      var f := ElementsOf(s[1..]);
      e := f + {s[0]};
      assert s == [s[0]] + s[1..];
      assert s[0] !in s[1..];
    }
  }

  ghost function Below(hashv: map<Ptr, nat>, items: set<Ptr>, n: nat, b: nat): set<Ptr>
    requires n > 0
  {
    set x | x in items && x in hashv && Bkt(hashv[x], n) < b
  }

  lemma {:induction false} CountsUpTo(links: map<Ptr, Link>, hashv: map<Ptr, nat>, buckets: seq<Bucket>,
                                      chains: seq<seq<Ptr>>, items: set<Ptr>, b: nat)
    requires Table(links, hashv, buckets, chains, items) && b <= |chains|
    ensures SumCounts(buckets[..b]) == |Below(hashv, items, |chains|, b)|
    decreases b
  {
    if b > 0 {
      var n, a := |chains|, b - 1;
      CountsUpTo(links, hashv, buckets, chains, items, a);
      assert BucketOk(links, hashv, buckets[a], chains[a], items, a, n);
      var e := ElementsOf(chains[a]);
      var rest := Below(hashv, items, n, a);
      assert Below(hashv, items, n, b) == rest + e && rest !! e;
      assert buckets[..b][..a] == buckets[..a];
    }
  }

  // The bucket counts sum to the number of items.
  lemma CountsSum(links: map<Ptr, Link>, hashv: map<Ptr, nat>, buckets: seq<Bucket>, chains: seq<seq<Ptr>>,
                  items: set<Ptr>)
    requires Table(links, hashv, buckets, chains, items)
    ensures SumCounts(buckets) == |items|
  {
    CountsUpTo(links, hashv, buckets, chains, items, |chains|);
    assert buckets[..|chains|] == buckets;
    assert Below(hashv, items, |chains|, |chains|) == items;
  }

  // ----- the statistics of an expansion -----

  function Excess(count: nat, ideal: nat): nat {
    if count > ideal then count - ideal else 0
  }

  // The number of items whose position in their chain is beyond the ideal length.
  function SumExcess(buckets: seq<Bucket>, ideal: nat): nat {
    if buckets == [] then 0
    else SumExcess(buckets[..|buckets| - 1], ideal) + Excess(buckets[|buckets| - 1].count, ideal)
  }

  function MultFor(count: nat, ideal: nat): nat
    requires ideal > 0
  {
    if count > ideal then count / ideal else 0
  }

  lemma {:induction false} SumExcessUpdate(buckets: seq<Bucket>, ideal: nat, b: nat, bucket: Bucket)
    requires b < |buckets| && bucket.count == buckets[b].count + 1
    ensures SumExcess(buckets[b := bucket], ideal)
         == SumExcess(buckets, ideal) + if bucket.count > ideal then 1 else 0
    decreases |buckets|
  {
    var n := |buckets| - 1;
    if b == n {
      assert buckets[b := bucket][..n] == buckets[..n];
    } else {
      assert buckets[b := bucket][..n] == buckets[..n][b := bucket];
      SumExcessUpdate(buckets[..n], ideal, b, bucket);
    }
  }

  lemma {:induction false} SumExcessEmpty(n: nat, ideal: nat)
    ensures SumExcess(seq(n, i => EMPTY), ideal) == 0
    decreases n
  {
    if n > 0 {
      assert seq(n, i => EMPTY)[..n - 1] == seq(n - 1, i => EMPTY);
      SumExcessEmpty(n - 1, ideal);
    }
  }

  // A bucket array under construction: it holds the items moved so far, and its statistics are right.
  ghost predicate Rebuilt(links: map<Ptr, Link>, hashv: map<Ptr, nat>, buckets: seq<Bucket>, chains: seq<seq<Ptr>>,
                          items: set<Ptr>, ideal: nat, nonideal: nat)
  {
    && Table(links, hashv, buckets, chains, items)
    && ideal > 0 && nonideal == SumExcess(buckets, ideal)
    && forall b :: 0 <= b < |buckets| ==> buckets[b].expandMult == MultFor(buckets[b].count, ideal)
  }

  lemma RebuiltEmpty(links: map<Ptr, Link>, hashv: map<Ptr, nat>, n: nat, ideal: nat)
    requires n > 0 && ideal > 0
    ensures Rebuilt(links, hashv, seq(n, i => EMPTY), seq(n, i => []), {}, ideal, 0)
  {
    EmptyTable(links, hashv, n);
    SumExcessEmpty(n, ideal);
  }

  // The bucket after one more element x has been put into it during an expansion.
  function Filled(bucket: Bucket, x: Ptr, ideal: nat): Bucket
    requires ideal > 0
  {
    var count := bucket.count + 1;
    Bucket(x, count, if count > ideal then count / ideal else bucket.expandMult)
  }

  lemma RebuiltStep(links: map<Ptr, Link>, hashv: map<Ptr, nat>, buckets: seq<Bucket>, chains: seq<seq<Ptr>>,
                    items: set<Ptr>, ideal: nat, nonideal: nat, x: Ptr, b: nat)
    requires Rebuilt(links, hashv, buckets, chains, items, ideal, nonideal)
    requires x !in items && x != NULL && x in hashv && b == Bkt(hashv[x], |chains|)
    ensures buckets[b].hhHead == At(chains[b], 0) && (At(chains[b], 0) != NULL ==> At(chains[b], 0) in links)
    ensures Rebuilt(PushFront(links, x, At(chains[b], 0)), hashv, buckets[b := Filled(buckets[b], x, ideal)],
                    chains[b := [x] + chains[b]], items + {x}, ideal,
                    nonideal + if buckets[b].count + 1 > ideal then 1 else 0)
    ensures forall y :: y in links && y !in items && y != x ==>
              y in PushFront(links, x, At(chains[b], 0)) && PushFront(links, x, At(chains[b], 0))[y] == links[y]
  {
    var bucket := Filled(buckets[b], x, ideal);
    assert BucketOk(links, hashv, buckets[b], chains[b], items, b, |chains|);
    AddToBucket(links, hashv, buckets, chains, items, x, b, bucket);
    SumExcessUpdate(buckets, ideal, b, bucket);
  }
}
