// calc_sha256_x of src/misc.c: a digest of an archive that does not depend on the order of its entries.
module PackageDigest {
  import opened Common
  import opened MergeSort
  import UtList

  // C char arrays.
  type Bytes = string

  datatype Result<T> = Ok(value: T) | Err

  // What libzip reports for one archive entry.
  datatype Entry =
    | StatFails
    | OpenFails(name: Bytes)
    | ReadFails(name: Bytes, before: Bytes)
    | File(name: Bytes, content: Bytes)

  const MANIFEST := "manifest.xml"
  const MANIFEST_DIFF := "manifest_diff.xml"
  const XL4_X_PREFIX := "xl4-x-"
  const XL4_SIGNATURE_PREFIX := "xl4-signature"

  predicate Skipped(name: Bytes) {
    || (name != [] && name[|name| - 1] == '/')
    || name == MANIFEST || name == MANIFEST_DIFF
    || XL4_X_PREFIX <= name || XL4_SIGNATURE_PREFIX <= name
  }

  // Entry names of an archive are never empty.
  ghost predicate Named(entries: seq<Entry>) {
    forall i :: 0 <= i < |entries| && !entries[i].StatFails? ==> entries[i].name != []
  }

  // ----- what the digest is -----

  ghost predicate Broken(e: Entry) {
    e.StatFails? || (!Skipped(e.name) && !e.File?)
  }

  ghost predicate AnyBroken(entries: seq<Entry>) {
    exists i :: 0 <= i < |entries| && Broken(entries[i])
  }

  // What an entry contributes: its name followed by its content, if it counts.
  ghost function Image(e: Entry): seq<Bytes> {
    if e.File? && !Skipped(e.name) then [e.name + e.content] else []
  }

  ghost function Images(entries: seq<Entry>): seq<Bytes> {
    if entries == [] then [] else Image(entries[0]) + Images(entries[1..])
  }

  ghost function Flatten(s: seq<Bytes>): Bytes {
    if s == [] then [] else s[0] + Flatten(s[1..])
  }

  ghost predicate Sorted(s: seq<Bytes>) {
    forall i, j :: 0 <= i < j < |s| ==> Memcmp(s[i], s[j]) <= 0
  }

  // s is the sorted list of the digests of the images.
  ghost predicate DigestList(s: seq<Bytes>, images: seq<Bytes>, sha: Bytes -> Bytes) {
    Sorted(s) && multiset(s) == multiset(Map(sha, images))
  }

  ghost predicate IsDigest(r: Bytes, images: seq<Bytes>, sha: Bytes -> Bytes, b64: Bytes -> Bytes) {
    exists s :: DigestList(s, images, sha) && r == b64(sha(Flatten(s)))
  }

  // ----- memcmp on digests -----

  function Memcmp(a: Bytes, b: Bytes): int
    decreases |a|
  {
    if a == [] then (if b == [] then 0 else -1)
    else if b == [] then 1
    else if a[0] != b[0] then a[0] as int - b[0] as int
    else Memcmp(a[1..], b[1..])
  }

  lemma {:induction false} MemcmpTotal(a: Bytes, b: Bytes)
    ensures Memcmp(a, b) <= 0 || Memcmp(b, a) <= 0
    ensures Memcmp(a, b) <= 0 && Memcmp(b, a) <= 0 ==> a == b
    decreases |a|
  {
    if a != [] && b != [] && a[0] == b[0] {
      MemcmpTotal(a[1..], b[1..]);
      assert a == [a[0]] + a[1..] && b == [b[0]] + b[1..];
    }
  }

  lemma {:induction false} MemcmpTransitive(a: Bytes, b: Bytes, c: Bytes)
    requires Memcmp(a, b) <= 0 && Memcmp(b, c) <= 0
    ensures Memcmp(a, c) <= 0
    decreases |a|
  {
    if a != [] && b != [] && c != [] && a[0] == b[0] == c[0] {
      MemcmpTransitive(a[1..], b[1..], c[1..]);
    }
  }

  lemma MemcmpOrders()
    ensures TotalPreorder(Memcmp)
  {
    forall a, b ensures Memcmp(a, b) <= 0 || Memcmp(b, a) <= 0 {
      MemcmpTotal(a, b);
    }
    forall a, b, c | Memcmp(a, b) <= 0 && Memcmp(b, c) <= 0 ensures Memcmp(a, c) <= 0 {
      MemcmpTransitive(a, b, c);
    }
  }

  // The first byte that differs decides, and a text comes before its own continuations.
  lemma {:induction false} MemcmpFirst(p: Bytes, x: char, s: Bytes, y: char, t: Bytes)
    ensures x < y ==> Memcmp(p + [x] + s, p + [y] + t) < 0 && Memcmp(p + [y] + t, p + [x] + s) > 0
    ensures Memcmp(p, p + [y] + t) < 0 && Memcmp(p + [y] + t, p) > 0 && Memcmp(p, p) == 0
    decreases |p|
  {
    if p != [] {
      assert (p + [x] + s)[1..] == p[1..] + [x] + s && (p + [y] + t)[1..] == p[1..] + [y] + t;
      MemcmpFirst(p[1..], x, s, y, t);
    }
  }

  // ----- the code -----

  // One entry: the name, then the content in blocks of at most bufSize bytes, goes into one hash context.
  method HashEntry(name: Bytes, content: Bytes, bufSize: nat) returns (ctx: Bytes)
    requires bufSize > 0
    ensures ctx == name + content
  {
    ctx := name;
    var pos, len := 0, bufSize;
    while len == bufSize
      invariant pos <= |content| && ctx == name + content[..pos]
      invariant len != bufSize ==> pos == |content|
      decreases |content| - pos, len == bufSize
    {
      len := if bufSize <= |content| - pos then bufSize else |content| - pos;
      ctx := ctx + content[pos..pos + len];
      pos := pos + len;
    }
    assert content[..pos] == content;
  }

  ghost function Vals(nodes: seq<UtList.Node<Bytes>>): seq<Bytes> {
    Map(UtList.Key<Bytes>, nodes)
  }

  lemma {:induction false} ImagesConcat(a: seq<Entry>, b: seq<Entry>)
    ensures Images(a + b) == Images(a) + Images(b)
    decreases |a|
  {
    if a == [] {
      assert a + b == b;
    } else {
      assert (a + b)[1..] == a[1..] + b;
      ImagesConcat(a[1..], b);
    }
  }

  lemma ImagesAppend(entries: seq<Entry>, i: nat)
    requires i < |entries|
    ensures Images(entries[..i + 1]) == Images(entries[..i]) + Image(entries[i])
  {
    assert entries[..i + 1] == entries[..i] + [entries[i]];
    ImagesConcat(entries[..i], [entries[i]]);
    assert [entries[i]][1..] == [];
  }

  // LL_FOREACH: the digests, in list order, go into one hash context.
  method FeedList(head: UtList.Node?<Bytes>, ghost nodes: seq<UtList.Node<Bytes>>) returns (ctx: Bytes)
    requires UtList.List(head, nodes)
    ensures ctx == Flatten(Vals(nodes))
  {
    ghost var s := Vals(nodes);
    ctx := [];
    var sl := head;
    ghost var k := 0;
    while sl != null
      invariant k <= |nodes| && sl == (if k < |nodes| then nodes[k] else null)
      invariant ctx + Flatten(s[k..]) == Flatten(s)
      decreases |nodes| - k
    {
      MapAt(UtList.Key<Bytes>, nodes, k);
      assert s[k..] == [sl.val] + s[k + 1..];
      ctx := ctx + sl.val;
      sl := sl.next;
      k := k + 1;
    }
    assert s[k..] == [];
  }

  lemma SortedVals(origin: seq<UtList.Node<Bytes>>, nodes: seq<UtList.Node<Bytes>>)
    requires StablySorted(Memcmp, UtList.Key<Bytes>, origin, nodes)
    ensures Sorted(Vals(nodes))
  {
    forall i, j | 0 <= i < j < |nodes| ensures Memcmp(Vals(nodes)[i], Vals(nodes)[j]) <= 0 {
      assert Before(Memcmp, UtList.Key<Bytes>, origin, nodes[i], nodes[j]);
      MapAt(UtList.Key<Bytes>, nodes, i);
      MapAt(UtList.Key<Bytes>, nodes, j);
    }
  }

  // The list of digests is sorted, run through the hash once more and encoded.
  method DigestOfDigests(head: UtList.Node?<Bytes>, sha: Bytes -> Bytes, b64: Bytes -> Bytes,
                         ghost nodes: seq<UtList.Node<Bytes>>)
    returns (r: Bytes, ghost s: seq<Bytes>)
    requires UtList.List(head, nodes)
    modifies set x | x in nodes
    ensures Sorted(s) && multiset(s) == multiset(Vals(nodes)) && r == b64(sha(Flatten(s)))
  {
    MemcmpOrders();
    ghost var sorted;
    var list;
    list, sorted := UtList.LlSort(head, Memcmp, nodes);
    MapElements(UtList.Key<Bytes>, sorted, nodes);
    SortedVals(nodes, sorted);
    var ctx := FeedList(list, sorted);
    r, s := b64(sha(ctx)), Vals(sorted);
  }

  // The digest of one file joins the list; stop tells that the loop over the entries is left.
  method AddEntry(e: Entry, bufSize: nat, sha: Bytes -> Bytes, list0: UtList.Node?<Bytes>,
                  ghost nodes0: seq<UtList.Node<Bytes>>)
    returns (err: bool, stop: bool, list: UtList.Node?<Bytes>, ghost nodes: seq<UtList.Node<Bytes>>)
    requires bufSize > 0 && UtList.List(list0, nodes0)
    modifies set x | x in nodes0
    ensures UtList.List(list, nodes) && (forall x :: x in nodes ==> x in nodes0 || fresh(x))
    ensures err <==> Broken(e)
    ensures stop ==> err
    ensures !err ==> Vals(nodes) == Vals(nodes0) + Map(sha, Image(e))
  {
    err, stop, list, nodes := false, false, list0, nodes0;
    if e.StatFails? {
      return true, true, list, nodes;
    }
    if !Skipped(e.name) {
      if e.OpenFails? {
        return true, true, list, nodes;
      }
      // a failing read leaves only the reading loop
      err := e.ReadFails?;
      var ctx := HashEntry(e.name, if e.File? then e.content else e.before, bufSize);
      var sl := new UtList.Node<Bytes>(sha(ctx));
      list := UtList.LlAppend(list, sl, nodes0);
      nodes := nodes0 + [sl];
      MapAppend(UtList.Key<Bytes>, nodes0, sl);
    }
  }

  lemma BrokenAppend(entries: seq<Entry>, i: nat)
    requires i < |entries|
    ensures AnyBroken(entries[..i + 1]) <==> AnyBroken(entries[..i]) || Broken(entries[i])
  {
    assert entries[..i + 1] == entries[..i] + [entries[i]];
    if Broken(entries[i]) {
      assert Broken(entries[..i + 1][i]);
    }
    if k :| 0 <= k < i && Broken(entries[..i][k]) {
      assert Broken(entries[..i + 1][k]);
    }
  }

  lemma BrokenPrefix(entries: seq<Entry>, i: nat)
    requires i <= |entries| && AnyBroken(entries[..i])
    ensures AnyBroken(entries)
  {
    var k :| 0 <= k < i && Broken(entries[..i][k]);
    assert Broken(entries[k]);
  }

  method CalcSha256X(entries: seq<Entry>, bufSize: nat, sha: Bytes -> Bytes, b64: Bytes -> Bytes)
    returns (r: Result<Bytes>)
    requires bufSize > 0 && Named(entries)
    ensures r.Err? <==> AnyBroken(entries)
    ensures r.Ok? ==> IsDigest(r.value, Images(entries), sha, b64)
  {
    var err, stop := false, false;
    var list: UtList.Node?<Bytes> := null;
    ghost var nodes: seq<UtList.Node<Bytes>> := [];
    var i := 0;
    while i < |entries| && !stop
      invariant i <= |entries|
      invariant (forall x :: x in nodes ==> fresh(x)) && UtList.List(list, nodes)
      invariant err <==> AnyBroken(entries[..i])
      invariant stop ==> err
      invariant !err ==> Vals(nodes) == Map(sha, Images(entries[..i]))
      decreases |entries| - i, !stop
    {
      ImagesAppend(entries, i);
      BrokenAppend(entries, i);
      MapConcat(sha, Images(entries[..i]), Image(entries[i]));
      var failed;
      failed, stop, list, nodes := AddEntry(entries[i], bufSize, sha, list, nodes);
      err := err || failed;
      i := i + 1;
    }
    if err {
      BrokenPrefix(entries, i);
      return Err;
    }
    assert entries[..i] == entries;
    var digest;
    ghost var s;
    digest, s := DigestOfDigests(list, sha, b64, nodes);
    assert DigestList(s, Images(entries), sha);
    r := Ok(digest);
  }

  // ----- what it depends on -----

  lemma SortedHead(s: seq<Bytes>, t: seq<Bytes>)
    requires Sorted(s) && Sorted(t) && multiset(s) == multiset(t) && s != [] && t != []
    ensures s[0] == t[0]
  {
    var x, y := s[0], t[0];
    MemcmpTotal(x, y);
    MemcmpTotal(x, x);
    assert x in multiset(t) && y in multiset(s);
    var i :| 0 <= i < |t| && t[i] == x;
    var j :| 0 <= j < |s| && s[j] == y;
    assert Memcmp(t[0], t[i]) <= 0 && Memcmp(s[0], s[j]) <= 0;
  }

  lemma {:induction false} SortedUnique(s: seq<Bytes>, t: seq<Bytes>)
    requires Sorted(s) && Sorted(t) && multiset(s) == multiset(t)
    ensures s == t
    decreases |s|
  {
    Sizes(s, t);
    if s != [] {
      assert t != [];
      SortedHead(s, t);
      var x, s', t' := s[0], s[1..], t[1..];
      assert s == [x] + s' && t == [x] + t';
      WithoutElements(s, 0);
      WithoutElements(t, 0);
      WithoutFirst(s);
      WithoutFirst(t);
      Cancel(multiset(s'), multiset(t'), x);
      SortedUnique(s', t');
    }
  }

  // The digest is a function of the multiset of images.
  lemma OrderIndependent(r: Bytes, q: Bytes, a: seq<Bytes>, b: seq<Bytes>, sha: Bytes -> Bytes, b64: Bytes -> Bytes)
    requires IsDigest(r, a, sha, b64) && IsDigest(q, b, sha, b64)
    requires multiset(a) == multiset(b)
    ensures r == q
  {
    var s :| DigestList(s, a, sha) && r == b64(sha(Flatten(s)));
    var t :| DigestList(t, b, sha) && q == b64(sha(Flatten(t)));
    MapElements(sha, a, b);
    SortedUnique(s, t);
  }

  lemma ImagesAround(a: seq<Entry>, e: Entry, b: seq<Entry>)
    ensures Images(a + [e] + b) == Images(a) + Image(e) + Images(b)
  {
    ImagesConcat(a + [e], b);
    ImagesConcat(a, [e]);
    assert [e][1..] == [] && Images([e]) == Image(e);
  }

  lemma BrokenConcat(a: seq<Entry>, b: seq<Entry>)
    ensures AnyBroken(a + b) <==> AnyBroken(a) || AnyBroken(b)
  {
    if i :| 0 <= i < |a| && Broken(a[i]) {
      assert Broken((a + b)[i]);
    }
    if i :| 0 <= i < |b| && Broken(b[i]) {
      assert Broken((a + b)[|a| + i]);
    }
  }

  // An entry with one of these names does not count, whether it can be opened and read or not.
  lemma LeftOut(e: Entry)
    requires !e.StatFails?
    requires || e.name == "manifest.xml" || e.name == "manifest_diff.xml"
             || "xl4-x-" <= e.name || "xl4-signature" <= e.name
             || (e.name != "" && e.name[|e.name| - 1] == '/')
    ensures Image(e) == [] && !Broken(e)
  {
  }

  // So it changes nothing wherever it stands.
  lemma InsertedUnseen(a: seq<Entry>, e: Entry, b: seq<Entry>)
    requires Image(e) == [] && !Broken(e)
    ensures Images(a + [e] + b) == Images(a + b)
    ensures AnyBroken(a + [e] + b) <==> AnyBroken(a + b)
  {
    ImagesAround(a, e, b);
    ImagesConcat(a, b);
    BrokenConcat(a + [e], b);
    BrokenConcat(a, [e]);
    BrokenConcat(a, b);
  }

  // An entry with any other name must be readable; a file always is.
  lemma Unreadable(e: Entry)
    requires !e.StatFails? && e.name != "" && e.name[|e.name| - 1] != '/'
    requires e.name != "manifest.xml" && e.name != "manifest_diff.xml"
    requires !("xl4-x-" <= e.name) && !("xl4-signature" <= e.name)
    ensures Broken(e) <==> e.OpenFails? || e.ReadFails?
    ensures Broken(StatFails)
  {
  }

  // A file with any other name contributes its name followed by its content.
  lemma FileSeen(a: seq<Entry>, name: Bytes, content: Bytes, b: seq<Entry>)
    requires name != "" && name[|name| - 1] != '/' && name != "manifest.xml" && name != "manifest_diff.xml"
    requires !("xl4-x-" <= name) && !("xl4-signature" <= name)
    ensures Images(a + [File(name, content)] + b) == Images(a) + [name + content] + Images(b)
  {
    ImagesAround(a, File(name, content), b);
  }

  // So an archive has the same digest with and without an entry that does not count, and is unreadable with it exactly
  // if without.
  method DigestsAgree(a: seq<Entry>, e: Entry, b: seq<Entry>, bufSize: nat, sha: Bytes -> Bytes, b64: Bytes -> Bytes)
    returns (with: Result<Bytes>, without: Result<Bytes>)
    requires bufSize > 0 && Named(a + [e] + b) && Named(a + b) && !e.StatFails?
    requires || e.name == "manifest.xml" || e.name == "manifest_diff.xml"
             || "xl4-x-" <= e.name || "xl4-signature" <= e.name
             || (e.name != "" && e.name[|e.name| - 1] == '/')
    ensures with == without
  {
    with := CalcSha256X(a + [e] + b, bufSize, sha, b64);
    without := CalcSha256X(a + b, bufSize, sha, b64);
    LeftOut(e);
    InsertedUnseen(a, e, b);
    if with.Ok? {
      OrderIndependent(with.value, without.value, Images(a + [e] + b), Images(a + b), sha, b64);
    }
  }

  function Kept(entries: seq<Entry>): seq<Entry> {
    if entries == [] then []
    else if entries[0].File? && !Skipped(entries[0].name) then [entries[0]] + Kept(entries[1..])
    else Kept(entries[1..])
  }

  lemma {:induction false} ImagesOfKept(entries: seq<Entry>)
    ensures Images(entries) == Map(Content, Kept(entries))
    ensures forall e :: e in Kept(entries) ==> e.File?
    decreases |entries|
  {
    if entries != [] {
      ImagesOfKept(entries[1..]);
    }
  }

  function Content(e: Entry): Bytes {
    if e.File? then e.name + e.content else []
  }

  // Two archives whose entries that count are the same, in whatever order and with whatever directories,
  // manifests, xl4-x- and xl4-signature entries between them, have the same digest.
  lemma SameFilesSameDigest(r: Bytes, q: Bytes, a: seq<Entry>, b: seq<Entry>, sha: Bytes -> Bytes, b64: Bytes -> Bytes)
    requires IsDigest(r, Images(a), sha, b64) && IsDigest(q, Images(b), sha, b64)
    requires multiset(Kept(a)) == multiset(Kept(b))
    ensures r == q
  {
    ImagesOfKept(a);
    ImagesOfKept(b);
    MapElements(Content, Kept(a), Kept(b));
    OrderIndependent(r, q, Images(a), Images(b), sha, b64);
  }

  // ----- what it determines -----

  lemma {:induction false} FlattenInjective(s: seq<Bytes>, t: seq<Bytes>, n: nat)
    requires n > 0 && Flatten(s) == Flatten(t)
    requires (forall x :: x in s ==> |x| == n) && (forall x :: x in t ==> |x| == n)
    ensures s == t
    decreases |s|
  {
    assert (s != [] ==> |s[0]| == n) && (t != [] ==> |t[0]| == n);
    if s != [] && t != [] {
      assert Flatten(s)[..n] == s[0] && Flatten(t)[..n] == t[0];
      assert Flatten(s)[n..] == Flatten(s[1..]) && Flatten(t)[n..] == Flatten(t[1..]);
      FlattenInjective(s[1..], t[1..], n);
    }
  }

  // No two of the texts hashed for a and b collide.
  ghost predicate NoCollision(a: seq<Bytes>, b: seq<Bytes>, sha: Bytes -> Bytes, b64: Bytes -> Bytes) {
    && InjectiveOn(sha, set x | x in a + b)
    && (forall s, t | DigestList(s, a, sha) && DigestList(t, b, sha) ::
          b64(sha(Flatten(s))) == b64(sha(Flatten(t))) ==> Flatten(s) == Flatten(t))
  }

  // Short of a collision the digest is equal exactly when the multisets of images are.
  lemma DigestDetermines(r: Bytes, q: Bytes, a: seq<Bytes>, b: seq<Bytes>, sha: Bytes -> Bytes, b64: Bytes -> Bytes)
    requires IsDigest(r, a, sha, b64) && IsDigest(q, b, sha, b64) && NoCollision(a, b, sha, b64)
    requires forall x :: |sha(x)| == 32
    ensures r == q <==> multiset(a) == multiset(b)
  {
    if multiset(a) == multiset(b) {
      OrderIndependent(r, q, a, b, sha, b64);
    }
    if r == q {
      var s :| DigestList(s, a, sha) && r == b64(sha(Flatten(s)));
      var t :| DigestList(t, b, sha) && q == b64(sha(Flatten(t)));
      HashSizes(s, a, sha);
      HashSizes(t, b, sha);
      FlattenInjective(s, t, 32);
      MapElementsBack(sha, a, b, set x | x in a + b);
    }
  }

  lemma {:induction false} MapSizes(images: seq<Bytes>, sha: Bytes -> Bytes)
    requires forall x :: |sha(x)| == 32
    ensures forall y :: y in multiset(Map(sha, images)) ==> |y| == 32
    decreases |images|
  {
    if images != [] {
      MapSizes(images[1..], sha);
    }
  }

  lemma HashSizes(s: seq<Bytes>, images: seq<Bytes>, sha: Bytes -> Bytes)
    requires DigestList(s, images, sha) && forall x :: |sha(x)| == 32
    ensures forall x :: x in s ==> |x| == 32
  {
    MapSizes(images, sha);
    forall x | x in s ensures |x| == 32 {
      assert x in multiset(s);
    }
  }

  // The name and the content are hashed without a mark between them, so moving bytes across the border goes unseen.
  lemma BorderUnseen(name: Bytes, x: char, content: Bytes)
    requires !Skipped(name + [x]) && !Skipped(name)
    ensures Images([File(name + [x], content)]) == Images([File(name, [x] + content)])
  {
    assert (name + [x]) + content == name + ([x] + content);
  }
}
