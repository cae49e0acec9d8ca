// The hash table macros of src/uthash.h. Every element hangs in two doubly linked lists at once, its bucket chain and
// the list in insertion order; the table refines a finite map with insertion order.
module UtHash {
  import opened Common
  import opened BitMask
  import opened Links
  import opened HashBuckets

  const HASH_INITIAL_NUM_BUCKETS := 32
  const HASH_INITIAL_NUM_BUCKETS_LOG2 := 5

  // q is a / b rounded up.
  ghost predicate IsCeiling(q: int, a: int, b: int) {
    b * (q - 1) < a <= b * q
  }

  // HASH_TO_BKT: the mask form of the source is the remainder, for a power of two.
  method ToBkt(hashv: nat, numBkts: nat, ghost log2: nat) returns (bkt: nat)
    requires numBkts == Pow2(log2)
    ensures bkt == Bkt(hashv, numBkts)
  {
    MaskIsMod(hashv, log2);
    bkt := And(hashv, numBkts - 1);
  }

  lemma Rounded(a: nat, b: nat)
    requires b > 0
    ensures IsCeiling(a / b + if a % b != 0 then 1 else 0, a, b)
  {
    assert a == b * (a / b) + a % b;
    assert b * (a / b + 1) == b * (a / b) + b;
    assert b * (a / b - 1) == b * (a / b) - b;
  }

  // The ideal chain length of a table of twice the size, by shift and mask as in the source.
  method IdealChain(items: nat, numBuckets: nat, log2NumBuckets: nat) returns (ideal: nat)
    requires items > 0 && numBuckets == Pow2(log2NumBuckets)
    ensures IsCeiling(ideal, items, 2 * numBuckets) && ideal > 0
  {
    ShiftIsDiv(items, log2NumBuckets + 1);
    MaskIsMod(items, log2NumBuckets + 1);
    Rounded(items, 2 * numBuckets);
    ideal := ShiftRight(items, log2NumBuckets + 1) + if And(items, numBuckets * 2 - 1) != 0 then 1 else 0;
  }

  ghost function SetOf(s: seq<Ptr>): set<Ptr> { set x | x in s }

  ghost predicate HasKey<K>(key: map<Ptr, K>, hashv: map<Ptr, nat>, hashFcn: K -> nat, x: Ptr) {
    x in key && x in hashv && hashv[x] == hashFcn(key[x])
  }

  // Every element carries a key and its hash value, and no two elements the same key.
  ghost predicate Keyed<K>(key: map<Ptr, K>, hashv: map<Ptr, nat>, hashFcn: K -> nat, order: seq<Ptr>) {
    && (forall x {:trigger HasKey(key, hashv, hashFcn, x)} :: x in order ==> HasKey(key, hashv, hashFcn, x))
    && (forall i, j {:trigger key[order[i]], key[order[j]]} ::
          0 <= i < j < |order| && order[i] in key && order[j] in key ==>
          key[order[i]] != key[order[j]])
  }

  // No element has the key k.
  ghost predicate Fresh<K>(key: map<Ptr, K>, order: seq<Ptr>, k: K) {
    forall x :: x in order && x in key ==> key[x] != k
  }

  lemma KeyedAppend<K>(key: map<Ptr, K>, hashv: map<Ptr, nat>, hashFcn: K -> nat, order: seq<Ptr>, add: Ptr, k: K)
    requires Keyed(key, hashv, hashFcn, order) && add !in order
    requires Fresh(key, order, k)
    ensures Keyed(key[add := k], hashv[add := hashFcn(k)], hashFcn, order + [add])
    ensures SetOf(order + [add]) == SetOf(order) + {add}
  {
    var order', key', hashv' := order + [add], key[add := k], hashv[add := hashFcn(k)];
    forall x | x in order' ensures HasKey(key', hashv', hashFcn, x) {
      assert x in order ==> HasKey(key, hashv, hashFcn, x);
    }
    forall i, j | 0 <= i < j < |order'| && order'[i] in key' && order'[j] in key'
      ensures key'[order'[i]] != key'[order'[j]]
    {
      assert order'[i] == order[i] && order[i] in order && HasKey(key, hashv, hashFcn, order[i]);
      if j < |order| {
        assert order'[j] == order[j] && order[j] in order && HasKey(key, hashv, hashFcn, order[j]);
      }
    }
  }

  lemma KeyedWithout<K>(key: map<Ptr, K>, hashv: map<Ptr, nat>, hashFcn: K -> nat, order: seq<Ptr>, i: nat)
    requires Keyed(key, hashv, hashFcn, order) && Distinct(order) && i < |order|
    ensures Keyed(key, hashv, hashFcn, Without(order, i))
    ensures SetOf(Without(order, i)) == SetOf(order) - {order[i]}
  {
    WithoutMembers(order, i);
    var order' := Without(order, i);
    forall a, b | 0 <= a < b < |order'| && order'[a] in key && order'[b] in key
      ensures key[order'[a]] != key[order'[b]]
    {
      assert order'[a] == order[if a < i then a else a + 1] && order'[b] == order[if b < i then b else b + 1];
    }
  }

  class HashTable<K(==)> {
    const hashFcn: K -> nat

    // the handle fields of all elements
    var app: map<Ptr, Link>        // prev, next
    var bkt: map<Ptr, Link>        // hh_prev, hh_next
    var key: map<Ptr, K>
    var hashv: map<Ptr, nat>

    // the user's head variable and the table structure behind it
    var head: Ptr
    var tail: Ptr
    var buckets: seq<Bucket>
    var numBuckets: nat
    var log2NumBuckets: nat
    var numItems: nat
    var idealChainMaxlen: nat
    var nonidealItems: nat
    var ineffExpands: nat
    var noexpand: bool

    ghost var order: seq<Ptr>
    ghost var chains: seq<seq<Ptr>>

    // What HASH_FSCK checks, and that the keys are distinct.
    ghost predicate Valid()
      reads this
    {
      && Dll(app, order) && head == At(order, 0)
      && Keyed(key, hashv, hashFcn, order)
      && (order != [] ==> TableValid())
    }

    ghost predicate TableValid()
      reads this
    {
      && tail == At(order, |order| - 1)
      && numItems == |order|
      && numBuckets == |chains| == Pow2(log2NumBuckets)
      && Table(bkt, hashv, buckets, chains, SetOf(order))
    }

    constructor (hashFcn: K -> nat)
      ensures Valid() && order == [] && this.hashFcn == hashFcn
    {
      this.hashFcn := hashFcn;
      app, bkt, key, hashv := map[], map[], map[], map[];
      head, tail := NULL, NULL;
      buckets := [];
      order, chains := [], [];
    }

    // HASH_FIND
    method Find(k: K) returns (out: Ptr)
      requires Valid()
      ensures out == NULL <==> Fresh(key, order, k)
      ensures out != NULL ==> out in order && out in key && key[out] == k
    {
      out := NULL;
      AtNull(app, order, 0);
      if head != NULL {
        var h := hashFcn(k);
        var b := ToBkt(h, numBuckets, log2NumBuckets);
        ghost var c := chains[b];
        assert BucketOk(bkt, hashv, buckets[b], c, SetOf(order), b, |chains|);
        out := buckets[b].hhHead;
        ghost var i := 0;
        while out != NULL
          invariant 0 <= i <= |c| && out == At(c, i)
          invariant forall j :: 0 <= j < i ==> c[j] in key && key[c[j]] != k
          decreases |c| - i
        {
          assert c[i] in c;
          DllAt(bkt, c, i);
          assert HasKey(key, hashv, hashFcn, out);
          if hashv[out] == h && key[out] == k {
            break;
          }
          out := bkt[out].next;
          i := i + 1;
        }
        AtNull(bkt, c, i);
        if out == NULL {
          forall x | x in order && x in key ensures key[x] != k {
            assert x in SetOf(order) && HasKey(key, hashv, hashFcn, x);
            assert Bkt(hashv[x], |chains|) == b ==> x in c;
          }
        }
      }
    }

    // HASH_ITER: the elements in insertion order.
    method Elements() returns (elements: seq<Ptr>)
      requires Valid()
      ensures elements == order
    {
      elements := [];
      var p := head;
      while p != NULL
        invariant |elements| <= |order| && elements == order[..|elements|] && p == At(order, |elements|)
        decreases |order| - |elements|
      {
        DllAt(app, order, |elements|);
        elements := elements + [p];
        p := app[p].next;
      }
      AtNull(app, order, |elements|);
    }

    // The bucket array being filled, of twice the size.
    ghost predicate Doubling(newBuckets: seq<Bucket>, newChains: seq<seq<Ptr>>, done: set<Ptr>)
      reads this
    {
      |newBuckets| == 2 * numBuckets
          && Rebuilt(bkt, hashv, newBuckets, newChains, done, idealChainMaxlen, nonidealItems)
    }

    // One element of an old chain moves to its bucket in the doubled array.
    method MoveElement(thh: Ptr, newBuckets0: seq<Bucket>, ghost newChains0: seq<seq<Ptr>>, ghost done: set<Ptr>)
      returns (newBuckets: seq<Bucket>, ghost newChains: seq<seq<Ptr>>)
      requires Doubling(newBuckets0, newChains0, done)
      requires thh != NULL && thh !in done && thh in hashv && numBuckets == Pow2(log2NumBuckets)
      modifies this`bkt, this`nonidealItems
      ensures Doubling(newBuckets, newChains, done + {thh})
      ensures forall y :: y in old(bkt) && y !in done && y != thh ==> y in bkt && bkt[y] == old(bkt)[y]
    {
      var b := ToBkt(hashv[thh], numBuckets * 2, log2NumBuckets + 1);
      RebuiltStep(bkt, hashv, newBuckets0, newChains0, done, idealChainMaxlen, nonidealItems, thh, b);
      var bucket := newBuckets0[b];
      bucket := bucket.(count := bucket.count + 1);
      if bucket.count > idealChainMaxlen {
        nonidealItems := nonidealItems + 1;
        bucket := bucket.(expandMult := bucket.count / idealChainMaxlen);
      }
      bkt := bkt[thh := Link(NULL, bucket.hhHead)];
      if bucket.hhHead != NULL {
        bkt := bkt[bucket.hhHead := bkt[bucket.hhHead].(prev := thh)];
      }
      assert bkt == PushFront(old(bkt), thh, At(newChains0[b], 0));
      bucket := bucket.(hhHead := thh);
      assert bucket == Filled(newBuckets0[b], thh, idealChainMaxlen);
      newBuckets, newChains := newBuckets0[b := bucket], newChains0[b := [thh] + newChains0[b]];
    }

    // The elements of one old chain c move; the links of the elements still to come stay as they were.
    method MoveChain(first: Ptr, newBuckets0: seq<Bucket>, ghost newChains0: seq<seq<Ptr>>, ghost done0: set<Ptr>,
                     ghost c: seq<Ptr>, ghost oldBkt: map<Ptr, Link>, ghost items: set<Ptr>)
      returns (newBuckets: seq<Bucket>, ghost newChains: seq<seq<Ptr>>, ghost done: set<Ptr>)
      requires Doubling(newBuckets0, newChains0, done0) && numBuckets == Pow2(log2NumBuckets)
      requires Dll(oldBkt, c) && first == At(c, 0)
      requires forall x :: x in c ==> x in items && x !in done0 && x in hashv
      requires forall x :: x in items && x !in done0 ==> x in bkt && x in oldBkt && bkt[x] == oldBkt[x]
      modifies this`bkt, this`nonidealItems
      ensures Doubling(newBuckets, newChains, done)
      ensures forall x :: x in done <==> x in done0 || x in c
      ensures forall x :: x in items && x !in done ==> x in bkt && x in oldBkt && bkt[x] == oldBkt[x]
    {
      newBuckets, newChains, done := newBuckets0, newChains0, done0;
      var thh := first;
      ghost var k := 0;
      while thh != NULL
        invariant k <= |c| && thh == At(c, k)
        invariant Doubling(newBuckets, newChains, done)
        invariant forall x :: x in done <==> x in done0 || x in c[..k]
        invariant forall x :: x in items && x !in done ==> x in bkt && x in oldBkt && bkt[x] == oldBkt[x]
        decreases |c| - k
      {
        assert c[k] in c && c[k] !in c[..k];
        assert c[..k + 1] == c[..k] + [c[k]];
        DllAt(oldBkt, c, k);
        var hhNxt := bkt[thh].next;
        newBuckets, newChains := MoveElement(thh, newBuckets, newChains, done);
        done := done + {thh};
        thh := hhNxt;
        k := k + 1;
      }
      AtNull(oldBkt, c, k);
      assert c[..k] == c;
    }

    // The elements of all old buckets move.
    method MoveAll(newBuckets0: seq<Bucket>, ghost newChains0: seq<seq<Ptr>>, ghost items: set<Ptr>)
      returns (newBuckets: seq<Bucket>, ghost newChains: seq<seq<Ptr>>)
      requires Table(bkt, hashv, buckets, chains, items) && numBuckets == |chains| == Pow2(log2NumBuckets)
      requires Doubling(newBuckets0, newChains0, {})
      modifies this`bkt, this`nonidealItems
      ensures Doubling(newBuckets, newChains, items)
    {
      ghost var oldBkt, done: set<Ptr> := bkt, {};
      ItemLinked(bkt, hashv, buckets, chains, items);
      newBuckets, newChains := newBuckets0, newChains0;
      for i := 0 to numBuckets
        invariant Doubling(newBuckets, newChains, done)
        invariant forall x :: x in done <==> x in items && x in hashv && Bkt(hashv[x], numBuckets) < i
        invariant forall x :: x in items && x !in done ==> x in bkt && x in oldBkt && bkt[x] == oldBkt[x]
      {
        assert BucketOk(oldBkt, hashv, buckets[i], chains[i], items, i, numBuckets);
        newBuckets, newChains, done :=
          MoveChain(buckets[i].hhHead, newBuckets, newChains, done, chains[i], oldBkt, items);
      }
      assert done == items;
    }

    // The part of HASH_EXPAND_BUCKETS that fills the doubled array.
    method FillDoubled() returns (newBuckets: seq<Bucket>, ghost newChains: seq<seq<Ptr>>)
      requires TableValid() && order != []
      modifies this`bkt, this`idealChainMaxlen, this`nonidealItems
      ensures Doubling(newBuckets, newChains, SetOf(order))
      ensures IsCeiling(idealChainMaxlen, numItems, 2 * numBuckets)
    {
      var n := 2 * numBuckets;
      newBuckets := seq(n, i => EMPTY);
      newChains := seq(n, i => []);
      idealChainMaxlen := IdealChain(numItems, numBuckets, log2NumBuckets);
      nonidealItems := 0;
      RebuiltEmpty(bkt, hashv, n, idealChainMaxlen);
      newBuckets, newChains := MoveAll(newBuckets, newChains, SetOf(order));
    }

    // HASH_EXPAND_BUCKETS: the number of buckets doubles and every element moves to its new chain.
    method ExpandBuckets()
      requires TableValid() && order != []
      modifies this`bkt, this`buckets, this`numBuckets, this`log2NumBuckets, this`idealChainMaxlen,
               this`nonidealItems, this`ineffExpands, this`noexpand, this`chains
      ensures TableValid() && numBuckets == 2 * old(numBuckets)
      ensures IsCeiling(idealChainMaxlen, numItems, numBuckets)
      ensures nonidealItems == SumExcess(buckets, idealChainMaxlen)
      ensures forall b :: 0 <= b < |buckets| ==> buckets[b].expandMult == MultFor(buckets[b].count, idealChainMaxlen)
      ensures ineffExpands == if nonidealItems > numItems / 2 then old(ineffExpands) + 1 else 0
      ensures noexpand <==> old(noexpand) || ineffExpands > 1
    {
      var newBuckets;
      ghost var newChains;
      newBuckets, newChains := FillDoubled();
      numBuckets := numBuckets * 2;
      log2NumBuckets := log2NumBuckets + 1;
      buckets := newBuckets;
      chains := newChains;
      ineffExpands := if nonidealItems > numItems / 2 then ineffExpands + 1 else 0;
      if ineffExpands > 1 {
        noexpand := true;
      }
    }

    // HASH_ADD_TO_BKT: x joins its bucket; a bucket that is too long makes the table expand.
    method AddToBkt(x: Ptr, ghost items: set<Ptr>)
      requires Table(bkt, hashv, buckets, chains, items) && numBuckets == |chains| == Pow2(log2NumBuckets)
      requires x != NULL && x !in items && x in hashv
      requires items + {x} == SetOf(order) && order != []
      requires tail == At(order, |order| - 1) && numItems == |order|
      modifies this`bkt, this`buckets, this`numBuckets, this`log2NumBuckets, this`idealChainMaxlen,
               this`nonidealItems, this`ineffExpands, this`noexpand, this`chains
      ensures TableValid()
      // it expands when the bucket is ten elements or more beyond its share, unless expansion has been given up
      ensures var bucket := old(buckets)[Bkt(hashv[x], old(numBuckets))];
              numBuckets == if bucket.count + 1 >= (bucket.expandMult + 1) * 10 && !old(noexpand)
                            then 2 * old(numBuckets) else old(numBuckets)
    {
      var b := ToBkt(hashv[x], numBuckets, log2NumBuckets);
      var bucket := buckets[b];
      bucket := bucket.(count := bucket.count + 1);
      AddToBucket(bkt, hashv, buckets, chains, items, x, b, bucket.(hhHead := x));
      bkt := bkt[x := Link(NULL, bucket.hhHead)];
      if bucket.hhHead != NULL {
        bkt := bkt[bucket.hhHead := bkt[bucket.hhHead].(prev := x)];
      }
      assert bkt == PushFront(old(bkt), x, At(chains[b], 0));
      bucket := bucket.(hhHead := x);
      buckets := buckets[b := bucket];
      chains := chains[b := [x] + chains[b]];
      if bucket.count >= (bucket.expandMult + 1) * HASH_BKT_CAPACITY_THRESH && !noexpand {
        ExpandBuckets();
      }
    }

    // HASH_MAKE_TABLE
    method MakeTable()
      modifies this`tail, this`buckets, this`numBuckets, this`log2NumBuckets, this`numItems, this`idealChainMaxlen,
               this`nonidealItems, this`ineffExpands, this`noexpand, this`chains
      ensures tail == head && numItems == 0 && numBuckets == |chains| == Pow2(log2NumBuckets) == 32
      ensures idealChainMaxlen == nonidealItems == ineffExpands == 0 && !noexpand
      ensures Table(bkt, hashv, buckets, chains, {})
    {
      idealChainMaxlen, nonidealItems, ineffExpands, noexpand := 0, 0, 0, false;
      tail := head;
      numBuckets := HASH_INITIAL_NUM_BUCKETS;
      log2NumBuckets := HASH_INITIAL_NUM_BUCKETS_LOG2;
      buckets := seq(HASH_INITIAL_NUM_BUCKETS, i => EMPTY);
      chains := seq(HASH_INITIAL_NUM_BUCKETS, i => []);
      numItems := 0;
      EmptyTable(bkt, hashv, HASH_INITIAL_NUM_BUCKETS);
    }

    // HASH_APPEND_LIST, and the start of the list by HASH_ADD_KEYPTR_BYHASHVALUE
    method AppendList(add: Ptr)
      requires Dll(app, order) && head == At(order, 0) && (order != [] ==> tail == At(order, |order| - 1))
      requires add != NULL && add !in order
      modifies this`app, this`head, this`tail
      ensures Dll(app, order + [add]) && head == At(order + [add], 0) && tail == add
    {
      PushBackDll(app, order, add);
      if order != [] {
        DllAt(app, order, 0);
        DllAt(app, order, |order| - 1);
      }
      if head == NULL {
        app := app[add := Link(NULL, NULL)];
        head, tail := add, add;
      } else {
        app := app[add := Link(tail, NULL)];
        app := app[tail := app[tail].(next := add)];
        tail := add;
      }
    }

    // Valid() but for the bucket of the last element, which hangs in no chain yet.
    ghost predicate Pending(items: set<Ptr>)
      reads this
    {
      && order != [] && Dll(app, order) && head == At(order, 0)
      && Keyed(key, hashv, hashFcn, order)
      && SetOf(order) == items + {order[|order| - 1]} && order[|order| - 1] !in items
      && tail == At(order, |order| - 1) && numItems == |order|
      && numBuckets == |chains| == Pow2(log2NumBuckets)
      && Table(bkt, hashv, buckets, chains, items)
    }

    // The element becomes the last of the list; the first one brings the table structure with it.
    method StartOrAppend(add: Ptr)
      requires Dll(app, order) && head == At(order, 0) && (order != [] ==> TableValid())
      requires add != NULL && add !in order
      modifies this`app, this`head, this`tail, this`buckets, this`numBuckets, this`log2NumBuckets, this`numItems,
               this`idealChainMaxlen, this`nonidealItems, this`ineffExpands, this`noexpand, this`chains
      ensures Dll(app, order + [add]) && head == At(order + [add], 0) && tail == add
      ensures numItems == |order| && numBuckets == |chains| == Pow2(log2NumBuckets)
      ensures Table(bkt, hashv, buckets, chains, SetOf(order))
    {
      AtNull(app, order, 0);
      if head == NULL {
        AppendList(add);
        MakeTable();
        assert SetOf(order) == {};
      } else {
        AppendList(add);
      }
    }

    // The part of HASH_ADD_KEYPTR_BYHASHVALUE before the bucket is chosen.
    method Join(k: K, add: Ptr)
      requires Valid() && add != NULL && add !in order
      requires Fresh(key, order, k)
      modifies this
      ensures Pending(SetOf(old(order))) && order == old(order) + [add]
      ensures key == old(key)[add := k]
    {
      KeyedAppend(key, hashv, hashFcn, order, add, k);
      StartOrAppend(add);
      TableFrame(bkt, hashv, hashv[add := hashFcn(k)], buckets, chains, SetOf(order));
      hashv := hashv[add := hashFcn(k)];
      key := key[add := k];
      order := order + [add];
      numItems := numItems + 1;
    }

    // HASH_ADD_KEYPTR with a key that is not in the table.
    method AddKeyptr(k: K, add: Ptr)
      requires Valid() && add != NULL && add !in order
      requires Fresh(key, order, k)
      modifies this
      ensures Valid() && order == old(order) + [add]
      ensures key == old(key)[add := k]
    {
      ghost var items := SetOf(order);
      Join(k, add);
      DllAt(app, order, |order| - 1);
      assert HasKey(key, hashv, hashFcn, add);
      AddToBkt(add, items);
    }

    // HASH_DEL_IN_BKT
    method DelInBkt(del: Ptr, ghost items: set<Ptr>)
      requires Table(bkt, hashv, buckets, chains, items) && numBuckets == |chains| == Pow2(log2NumBuckets)
      requires del in items
      modifies this`bkt, this`buckets, this`chains
      ensures Table(bkt, hashv, buckets, chains, items - {del}) && numBuckets == |chains|
    {
      var b := ToBkt(hashv[del], numBuckets, log2NumBuckets);
      var bucket := buckets[b];
      assert BucketOk(bkt, hashv, buckets[b], chains[b], items, b, |chains|);
      assert del in chains[b];
      ghost var k :| 0 <= k < |chains[b]| && chains[b][k] == del;
      DllAt(bkt, chains[b], k);
      bucket := bucket.(count := bucket.count - 1);
      if bucket.hhHead == del {
        bucket := bucket.(hhHead := bkt[del].next);
      }
      Positions(bkt, chains[b], k, 0);
      AtWithout(chains[b], k, 0);
      RemoveFromBucket(bkt, hashv, buckets, chains, items, b, k, bucket);
      var l := bkt[del];
      if l.prev != NULL {
        bkt := bkt[l.prev := bkt[l.prev].(next := l.next)];
      }
      if l.next != NULL {
        bkt := bkt[l.next := bkt[l.next].(prev := l.prev)];
      }
      assert bkt == Unlink(old(bkt), del);
      buckets := buckets[b := bucket];
      chains := chains[b := Without(chains[b], k)];
    }

    // The order list part of HASH_DELETE for an element with a neighbour.
    method DeleteFromList(del: Ptr, ghost k: nat)
      requires Dll(app, order) && head == At(order, 0) && tail == At(order, |order| - 1)
      requires k < |order| && order[k] == del
      modifies this`app, this`head, this`tail
      ensures Dll(app, Without(order, k)) && head == At(Without(order, k), 0)
      ensures tail == At(Without(order, k), |order| - 2)
    {
      DllAt(app, order, k);
      UnlinkDll(app, order, k);
      Positions(app, order, k, |order| - 1);
      AtWithout(order, k, 0);
      AtWithout(order, k, |order| - 2);
      var l := app[del];
      if del == tail {
        tail := l.prev;
      }
      if l.prev != NULL {
        app := app[l.prev := app[l.prev].(next := l.next)];
      } else {
        head := l.next;
      }
      if l.next != NULL {
        app := app[l.next := app[l.next].(prev := l.prev)];
      }
      assert app == Unlink(old(app), del);
    }

    // HASH_DELETE; the table structure is freed with its last element.
    method Delete(del: Ptr, ghost k: nat)
      requires Valid() && k < |order| && order[k] == del
      modifies this
      ensures Valid() && order == Without(old(order), k)
      ensures key == old(key)
    {
      ghost var items := SetOf(order);
      KeyedWithout(key, hashv, hashFcn, order, k);
      DllAt(app, order, k);
      if app[del].prev == NULL && app[del].next == NULL {
        head := NULL;
      } else {
        DeleteFromList(del, k);
        DelInBkt(del, items);
        numItems := numItems - 1;
      }
      order := Without(order, k);
    }

    // The sum that HASH_FSCK compares: the bucket counts add up to the number of items.
    lemma CountsMatch()
      requires Valid() && order != []
      ensures SumCounts(buckets) == numItems == |order|
    {
      CountsSum(bkt, hashv, buckets, chains, SetOf(order));
      var e := ElementsOf(order);
      assert e == SetOf(order);
    }
  }
}
