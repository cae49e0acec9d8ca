// Whole runs of a hash table of src/uthash.h, as the agent drives one (src/component.c): look up a key, add it when it
// is missing, look it up again to delete its element. Every run refines a finite map with insertion order.
module UtHashRuns {
  import opened Common
  import opened Links
  import opened UtHash

  datatype Op<K> = FindOp(k: K) | AddOp(k: K, p: Ptr) | DeleteOp(k: K)

  // A finite map from keys to elements, and its keys in insertion order.
  datatype Dict<K> = Dict(keys: seq<K>, items: map<K, Ptr>)

  function Lookup<K>(d: Dict<K>, k: K): Ptr {
    if k in d.items then d.items[k] else NULL
  }

  function Remove<K(==)>(keys: seq<K>, k: K): seq<K> {
    if keys == [] then []
    else if keys[0] == k then keys[1..]
    else [keys[0]] + Remove(keys[1..], k)
  }

  // Each operation answers with the element it looked up.
  function After<K(==)>(d: Dict<K>, op: Op<K>): Dict<K> {
    match op
    case FindOp(_) => d
    case AddOp(k, p) => if k in d.items then d else Dict(d.keys + [k], d.items[k := p])
    case DeleteOp(k) => if k in d.items then Dict(Remove(d.keys, k), d.items - {k}) else d
  }

  function Answers<K(==)>(d: Dict<K>, ops: seq<Op<K>>): (r: seq<Ptr>)
    ensures |r| == |ops|
    decreases |ops|
  {
    if ops == [] then [] else [Lookup(d, ops[0].k)] + Answers(After(d, ops[0]), ops[1..])
  }

  function Final<K(==)>(d: Dict<K>, ops: seq<Op<K>>): Dict<K>
    decreases |ops|
  {
    if ops == [] then d else Final(After(d, ops[0]), ops[1..])
  }

  // Every element that is added is a new object: it is not NULL and not in the table at that time.
  predicate Legal<K(==)>(d: Dict<K>, ops: seq<Op<K>>)
    decreases |ops|
  {
    ops != [] ==>
      && (ops[0].AddOp? ==> ops[0].p != NULL && forall k :: k in d.items ==> d.items[k] != ops[0].p)
      && Legal(After(d, ops[0]), ops[1..])
  }

  // The element at position i carries the i-th key.
  ghost predicate Matches<K>(key: map<Ptr, K>, order: seq<Ptr>, d: Dict<K>, i: nat)
    requires i < |order| && |d.keys| == |order|
  {
    && order[i] != NULL && order[i] in key && key[order[i]] == d.keys[i]
    && d.keys[i] in d.items && d.items[d.keys[i]] == order[i]
  }

  ghost predicate Represents<K>(key: map<Ptr, K>, order: seq<Ptr>, d: Dict<K>) {
    && |d.keys| == |order|
    && (forall i :: 0 <= i < |order| ==> Matches(key, order, d, i))
    && (forall k :: k in d.items ==> k in d.keys)
    && (forall i, j :: 0 <= i < j < |d.keys| ==> d.keys[i] != d.keys[j])
  }

  lemma PositionOf<K>(key: map<Ptr, K>, order: seq<Ptr>, d: Dict<K>, k: K) returns (i: nat)
    requires Represents(key, order, d) && k in d.items
    ensures i < |order| && d.keys[i] == k && order[i] == d.items[k] && order[i] != NULL
    ensures order[i] in key && key[order[i]] == k
  {
    assert k in d.keys;
    i :| 0 <= i < |d.keys| && d.keys[i] == k;
    assert Matches(key, order, d, i);
  }

  lemma FreshKey<K>(key: map<Ptr, K>, order: seq<Ptr>, d: Dict<K>, k: K)
    requires Represents(key, order, d)
    ensures Fresh(key, order, k) <==> k !in d.items
  {
    if k in d.items {
      var i := PositionOf(key, order, d, k);
      assert order[i] in order;
    } else {
      forall x | x in order && x in key ensures key[x] != k {
        var i :| 0 <= i < |order| && order[i] == x;
        assert Matches(key, order, d, i);
      }
    }
  }

  // What HASH_FIND promises is the lookup in the map.
  lemma FindRefines<K>(key: map<Ptr, K>, order: seq<Ptr>, d: Dict<K>, k: K, out: Ptr)
    requires Represents(key, order, d)
    requires out == NULL <==> Fresh(key, order, k)
    requires out != NULL ==> out in order && out in key && key[out] == k
    ensures out == Lookup(d, k) && (out == NULL <==> k !in d.items)
  {
    FreshKey(key, order, d, k);
    if out != NULL {
      var i :| 0 <= i < |order| && order[i] == out;
      assert Matches(key, order, d, i);
    }
  }

  lemma NotLinked<K>(key: map<Ptr, K>, order: seq<Ptr>, d: Dict<K>, p: Ptr)
    requires Represents(key, order, d)
    requires forall k :: k in d.items ==> d.items[k] != p
    ensures p !in order
  {
    forall i | 0 <= i < |order| ensures order[i] != p {
      assert Matches(key, order, d, i);
    }
  }

  lemma AddRefines<K>(key: map<Ptr, K>, order: seq<Ptr>, d: Dict<K>, k: K, p: Ptr)
    requires Represents(key, order, d) && k !in d.items && p != NULL && p !in order
    ensures Represents(key[p := k], order + [p], After(d, AddOp(k, p)))
  {
    var key', order', d' := key[p := k], order + [p], After(d, AddOp(k, p));
    forall i | 0 <= i < |order'| ensures Matches(key', order', d', i) {
      if i < |order| {
        assert Matches(key, order, d, i) && order'[i] == order[i] && order[i] in order && d'.keys[i] == d.keys[i];
      }
    }
    forall i, j | 0 <= i < j < |d'.keys| ensures d'.keys[i] != d'.keys[j] {
      assert Matches(key, order, d, i) && d'.keys[i] == d.keys[i];
    }
    assert d'.keys[|order|] == k;
    forall a | a in d'.items ensures a in d'.keys {
      if a != k {
        var i := PositionOf(key, order, d, a);
        assert d'.keys[i] == a;
      }
    }
  }

  lemma {:induction false} RemoveAt<K>(keys: seq<K>, i: nat)
    requires i < |keys| && forall j :: 0 <= j < i ==> keys[j] != keys[i]
    ensures Remove(keys, keys[i]) == keys[..i] + keys[i + 1..]
  {
    if i == 0 {
      assert keys[..0] + keys[1..] == keys[1..];
    } else {
      RemoveAt(keys[1..], i - 1);
      assert keys[..i] + keys[i + 1..] == [keys[0]] + (keys[1..][..i - 1] + keys[1..][i..]);
    }
  }

  // The keys that are left are those of the positions that are left.
  lemma KeysLeft<K>(key: map<Ptr, K>, order: seq<Ptr>, d: Dict<K>, i: nat, a: K)
    requires Represents(key, order, d) && i < |order| && a in d.items && a != d.keys[i]
    ensures a in Without(d.keys, i)
  {
    var j := PositionOf(key, order, d, a);
    assert Without(d.keys, i)[if j < i then j else j - 1] == a;
  }

  lemma DeleteRefines<K>(key: map<Ptr, K>, order: seq<Ptr>, d: Dict<K>, k: K, i: nat)
    requires Represents(key, order, d) && k in d.items && i < |order| && d.keys[i] == k
    ensures Represents(key, Without(order, i), After(d, DeleteOp(k)))
  {
    var order', d' := Without(order, i), After(d, DeleteOp(k));
    RemoveAt(d.keys, i);
    assert forall j :: 0 <= j < |order'| ==> d'.keys[j] == d.keys[if j < i then j else j + 1];
    forall j | 0 <= j < |order'| ensures Matches(key, order', d', j) {
      var j0 := if j < i then j else j + 1;
      assert Matches(key, order, d, j0) && order'[j] == order[j0];
    }
    forall a | a in d'.items ensures a in d'.keys {
      KeysLeft(key, order, d, i, a);
    }
  }

  // One operation.
  method Do<K(==)>(t: HashTable<K>, op: Op<K>, ghost d: Dict<K>) returns (out: Ptr)
    requires t.Valid() && Represents(t.key, t.order, d) && Legal(d, [op])
    modifies t
    ensures t.Valid() && Represents(t.key, t.order, After(d, op))
    ensures out == Lookup(d, op.k)
  {
    out := t.Find(op.k);
    FindRefines(t.key, t.order, d, op.k, out);
    match op
    case FindOp(_) =>
    case AddOp(k, p) =>
      if out == NULL {
        NotLinked(t.key, t.order, d, p);
        AddRefines(t.key, t.order, d, k, p);
        t.AddKeyptr(k, p);
      }
    case DeleteOp(k) =>
      if out != NULL {
        ghost var i := PositionOf(t.key, t.order, d, k);
        DeleteRefines(t.key, t.order, d, k, i);
        t.Delete(out, i);
      }
  }

  lemma NextOp<K>(d: Dict<K>, ops: seq<Op<K>>, n: nat)
    requires n < |ops| && Legal(d, ops[n..])
    ensures Legal(d, [ops[n]]) && Legal(After(d, ops[n]), ops[n + 1..])
    ensures Final(d, ops[n..]) == Final(After(d, ops[n]), ops[n + 1..])
    ensures Answers(d, ops[n..]) == [Lookup(d, ops[n].k)] + Answers(After(d, ops[n]), ops[n + 1..])
  {
    assert ops[n..][0] == ops[n] && ops[n..][1..] == ops[n + 1..];
    assert [ops[n]][1..] == [];
  }

  // Any run from the empty table answers as the finite map does and ends with its elements in insertion order,
  // whatever the hash function.
  method Run<K(==)>(hashFcn: K -> nat, ops: seq<Op<K>>) returns (answers: seq<Ptr>, elements: seq<Ptr>)
    requires Legal(Dict([], map[]), ops)
    ensures answers == Answers(Dict([], map[]), ops)
    ensures var d := Final(Dict([], map[]), ops);
            |elements| == |d.keys| && forall i :: 0 <= i < |elements| ==> elements[i] == Lookup(d, d.keys[i]) != NULL
  {
    var t := new HashTable(hashFcn);
    answers := [];
    ghost var d: Dict<K> := Dict([], map[]);
    for n := 0 to |ops|
      invariant t.Valid() && fresh(t) && Represents(t.key, t.order, d)
      invariant Legal(d, ops[n..]) && Final(d, ops[n..]) == Final(Dict([], map[]), ops)
      invariant answers + Answers(d, ops[n..]) == Answers(Dict([], map[]), ops)
    {
      NextOp(d, ops, n);
      var out := Do(t, ops[n], d);
      d := After(d, ops[n]);
      answers := answers + [out];
    }
    elements := t.Elements();
    forall i | 0 <= i < |elements| ensures elements[i] == Lookup(d, d.keys[i]) != NULL {
      assert Matches(t.key, t.order, d, i);
    }
  }
}
