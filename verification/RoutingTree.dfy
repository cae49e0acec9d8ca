// The routing tree of src/handler.c, updated in place by query_hash_tree.
module RoutingTree {
  import opened Routes

  // What one call does: it registers a runner, unregisters one, or gathers the runners of a path.
  datatype Mode = Register(ri: nat) | Unregister(ri: nat) | Gather(tip: bool)

  function SkipSlashes(s: string): (r: string)
    ensures |r| <= |s| && (r != [] ==> r[0] != '/')
  {
    if s != [] && s[0] == '/' then SkipSlashes(s[1..]) else s
  }

  // strchr up to the next '/', or the end
  function SegmentLen(s: string): (n: nat)
    ensures n <= |s| && '/' !in s[..n] && (n < |s| ==> s[n] == '/')
    ensures s != [] && s[0] != '/' ==> n > 0
  {
    if s == [] || s[0] == '/' then 0 else 1 + SegmentLen(s[1..])
  }

  // The segments of a path; repeated, leading and trailing slashes do not matter.
  function Segments(s: string): seq<string>
    decreases |s|
  {
    var t := SkipSlashes(s);
    if t == [] then [] else [t[..SegmentLen(t)]] + Segments(t[SegmentLen(t)..])
  }

  class Node {
    var items: seq<nat>
    var nodes: map<string, Node>
    ghost var tree: Tree
    ghost var repr: set<Node>

    // A child is a valid tree of its own that does not reach this node.
    ghost predicate Child(k: string)
      requires this in repr
      reads this, repr
      decreases repr, 0
    {
      && k in nodes && k in tree.kids
      && nodes[k] in repr && nodes[k] in nodes[k].repr && nodes[k].repr <= repr && this !in nodes[k].repr
      && nodes[k].Valid() && tree.kids[k] == nodes[k].tree
    }

    ghost predicate Apart(j: string, k: string)
      reads this, repr
    {
      j in nodes && k in nodes && nodes[j] in repr && nodes[k] in repr && nodes[j].repr !! nodes[k].repr
    }

    ghost predicate Valid()
      reads this, repr
      decreases repr, 1
    {
      && this in repr && tree.items == items && tree.kids.Keys == nodes.Keys
      && (forall k {:trigger Child(k)} :: k in nodes ==> Child(k))
      && (forall j, k {:trigger Apart(j, k)} :: j in nodes && k in nodes && j != k ==> Apart(j, k))
    }

    // Valid() but for the child k, which has just been changed.
    ghost predicate ValidBut(k: string)
      requires k in nodes
      reads this, repr, nodes[k]
    {
      && this in repr && tree.items == items && tree.kids.Keys == nodes.Keys && this !in nodes[k].repr
      && (forall j {:trigger Child(j)} :: j in nodes && j != k ==> Child(j) && nodes[j].repr !! nodes[k].repr)
      && (forall i, j {:trigger Apart(i, j)} :: i in nodes && j in nodes && i != j && i != k && j != k ==> Apart(i, j))
    }

    constructor ()
      ensures Valid() && fresh(repr) && tree == EMPTY
    {
      items, nodes, tree, repr := [], map[], EMPTY, {this};
    }

    // The call dereferences a child that is not there.
    static predicate Faults(t: Tree, mode: Mode, path: seq<string>) {
      mode.Unregister? && !HasNode(t, path)
    }

    // What the call leaves of a tree; one that faults has changed nothing.
    static ghost function After(t: Tree, mode: Mode, path: seq<string>): Tree {
      match mode
      case Register(ri) => Registered(t, path, ri)
      case Unregister(ri) => if HasNode(t, path) then Unregistered(t, path, ri) else t
      case Gather(_) => t
    }

    static ghost function Yield(t: Tree, mode: Mode, path: seq<string>): seq<nat> {
      if mode.Gather? then Gathered(t, path, mode.tip) else []
    }

    method SetItems(items': seq<nat>)
      requires Valid()
      modifies this`items, this`tree
      ensures Valid() && tree == old(tree).(items := items')
    {
      label before:
      items := items';
      tree := tree.(items := items);
      forall k | k in nodes ensures Child(k) {
        assert old@before(Child(k));
      }
      forall j, k | j in nodes && k in nodes && j != k ensures Apart(j, k) {
        assert old@before(Apart(j, k));
      }
    }

    // The work on a node at the end of the path.
    method AtTip(mode: Mode)
      requires Valid()
      modifies this`items, this`tree
      ensures Valid() && tree == After(old(tree), mode, [])
    {
      if mode.Unregister? {
        SetItems(Erased(items, mode.ri));
      } else if mode.Register? {
        SetItems(Inserted(items, mode.ri));
      }
    }

    // HASH_ADD_KEYPTR of a new child
    method NewChild(k: string)
      requires Valid() && k !in nodes
      modifies this`nodes, this`tree, this`repr
      ensures Valid() && fresh(repr - old(repr)) && k in nodes && nodes[k].tree == EMPTY && fresh(nodes[k].repr)
      ensures tree == old(tree).(kids := old(tree).kids[k := EMPTY]) && nodes == old(nodes)[k := nodes[k]]
    {
      label before:
      var child := new Node();
      nodes := nodes[k := child];
      tree := tree.(kids := tree.kids[k := EMPTY]);
      repr := repr + child.repr;
      forall j | j in nodes ensures Child(j) {
        if j != k {
          assert old@before(Child(j));
        }
      }
      forall i, j | i in nodes && j in nodes && i != j ensures Apart(i, j) {
        if i != k && j != k {
          assert old@before(Apart(i, j));
        } else {
          assert i != k ==> old@before(Child(i));
          assert j != k ==> old@before(Child(j));
        }
      }
    }

    // query_hash_tree: it dereferences a null pointer exactly when it is to unregister at a path without a node,
    // because then it reads the items of the child it has not found.
    method Query(mode: Mode, uaType: string, gather0: seq<nat>) returns (gather: seq<nat>, nullPointer: bool)
      requires Valid()
      modifies repr
      ensures Valid() && fresh(repr - old(repr))
      ensures nullPointer <==> Faults(old(tree), mode, Segments(uaType))
      ensures tree == After(old(tree), mode, Segments(uaType))
      ensures gather == gather0 + Yield(old(tree), mode, Segments(uaType))
      decreases |uaType|, 0
    {
      var path := SkipSlashes(uaType);
      gather, nullPointer := gather0, false;
      if mode.Gather? && (!mode.tip || path == []) {
        gather := gather + items;
      }
      if path == [] {
        AtTip(mode);
        return;
      }
      var k, rest := path[..SegmentLen(path)], path[SegmentLen(path)..];
      assert Segments(uaType) == [k] + Segments(rest) && Segments(uaType)[1..] == Segments(rest);
      gather, nullPointer := Descend(mode, k, rest, gather);
    }

    // The part of query_hash_tree for a path that begins with the segment k.
    method Descend(mode: Mode, k: string, rest: string, gather0: seq<nat>) returns (gather: seq<nat>, nullPointer: bool)
      requires Valid()
      modifies repr
      ensures Valid() && fresh(repr - old(repr))
      ensures nullPointer <==> Faults(old(tree), mode, [k] + Segments(rest))
      ensures tree == After(old(tree), mode, [k] + Segments(rest))
      ensures gather == gather0 + if k in old(tree).kids then Yield(old(tree).kids[k], mode, Segments(rest)) else []
      decreases |rest|, 3
    {
      assert ([k] + Segments(rest))[1..] == Segments(rest);
      gather, nullPointer := gather0, false;
      if mode.Register? && k !in nodes {
        NewChild(k);
      }
      var child: Node? := if k in nodes then nodes[k] else null;
      if child != null {
        gather, nullPointer := QueryChild(mode, k, rest, gather);
      } else if mode.Unregister? {
        nullPointer := true;
      }
    }

    // HASH_DEL of an empty child
    method RemoveChild(k: string)
      requires k in nodes && ValidBut(k)
      modifies this`nodes, this`tree
      ensures Valid() && repr == old(repr) && tree == old(tree).(kids := old(tree).kids - {k})
    {
      label before:
      nodes := nodes - {k};
      tree := tree.(kids := tree.kids - {k});
      forall j | j in nodes ensures Child(j) {
        assert old@before(Child(j));
      }
      forall i, j | i in nodes && j in nodes && i != j ensures Apart(i, j) {
        assert old@before(Apart(i, j));
      }
    }

    ghost method TakeChild(k: string)
      requires k in nodes && ValidBut(k) && nodes[k].Valid()
      modifies this`tree, this`repr
      ensures Valid() && repr == old(repr) + nodes[k].repr
      ensures tree == old(tree).(kids := old(tree).kids[k := nodes[k].tree])
    {
      label before:
      tree := tree.(kids := tree.kids[k := nodes[k].tree]);
      repr := repr + nodes[k].repr;
      forall j | j in nodes ensures Child(j) {
        if j != k {
          assert old@before(Child(j));
        }
      }
      forall i, j | i in nodes && j in nodes && i != j ensures Apart(i, j) {
        assert Child(i) && Child(j);
        assert i != k ==> old@before(Child(i));
        assert j != k ==> old@before(Child(j));
        assert i != k && j != k ==> old@before(Apart(i, j));
      }
    }

    // The recursive call on a child.
    method CallChild(mode: Mode, k: string, rest: string, gather0: seq<nat>)
      returns (gather: seq<nat>, nullPointer: bool)
      requires Valid() && k in nodes && k in tree.kids
      modifies repr
      ensures nodes == old(nodes) && tree == old(tree) && repr == old(repr) && ValidBut(k)
      ensures nodes[k].Valid() && fresh(nodes[k].repr - old(repr))
      ensures nullPointer <==> Faults(old(tree).kids[k], mode, Segments(rest))
      ensures nodes[k].tree == After(old(tree).kids[k], mode, Segments(rest))
      ensures gather == gather0 + Yield(old(tree).kids[k], mode, Segments(rest))
      decreases |rest|, 1
    {
      label before:
      var child := nodes[k];
      assert Child(k);
      forall j | j in nodes && j != k ensures Child(j) && nodes[j].repr !! child.repr {
        assert Child(j) && Apart(j, k);
      }
      gather, nullPointer := child.Query(mode, rest, gather0);
      forall j | j in nodes && j != k ensures Child(j) && nodes[j].repr !! nodes[k].repr {
        assert old@before(Child(j) && nodes[j].repr !! nodes[k].repr);
        assert nodes[j].repr == old@before(nodes[j].repr);
      }
      forall i, j | i in nodes && j in nodes && i != j && i != k && j != k ensures Apart(i, j) {
        assert old@before(Child(i) && Child(j) && Apart(i, j));
      }
    }

    // The call on a child, and its removal when it has become empty; a call that faults gets no further.
    method QueryChild(mode: Mode, k: string, rest: string, gather0: seq<nat>)
      returns (gather: seq<nat>, nullPointer: bool)
      requires Valid() && k in nodes && k in tree.kids
      modifies repr
      ensures Valid() && fresh(repr - old(repr))
      ensures nullPointer <==> Faults(old(tree).kids[k], mode, Segments(rest))
      ensures var kid := After(old(tree).kids[k], mode, Segments(rest));
              tree == old(tree).(kids := if mode.Unregister? && !nullPointer && IsEmpty(kid) then old(tree).kids - {k}
                                         else old(tree).kids[k := kid])
      ensures gather == gather0 + Yield(old(tree).kids[k], mode, Segments(rest))
      decreases |rest|, 2
    {
      gather, nullPointer := CallChild(mode, k, rest, gather0);
      if mode.Unregister? && !nullPointer && |nodes[k].items| == 0 && nodes[k].nodes == map[] {
        RemoveChild(k);
      } else {
        TakeChild(k);
      }
    }
  }
}
