// DL_APPEND and DL_DELETE of src/utlist.h: a doubly linked list whose head's prev is its tail, and which ends in NULL.
module DlQueue {
  import opened Common
  import opened Links

  // The element at position i points to its neighbours; before the first comes the last.
  ghost predicate Joined(m: map<Ptr, Link>, s: seq<Ptr>, i: nat)
    requires i < |s|
  {
    s[i] != NULL && s[i] in m && m[s[i]] == Link(if i == 0 then At(s, |s| - 1) else At(s, i - 1), At(s, i + 1))
  }

  ghost predicate DlList(m: map<Ptr, Link>, head: Ptr, s: seq<Ptr>) {
    && Distinct(s) && head == At(s, 0)
    && forall i :: 0 <= i < |s| ==> Joined(m, s, i)
  }

  lemma JoinedAt(m: map<Ptr, Link>, head: Ptr, s: seq<Ptr>, k: nat)
    requires DlList(m, head, s) && k < |s|
    ensures s[k] in m && m[s[k]] == Link(if k == 0 then At(s, |s| - 1) else At(s, k - 1), At(s, k + 1)) && s[k] != NULL
    ensures head == s[0] != NULL && head in m && m[head].prev == s[|s| - 1]
    ensures s[|s| - 1] != NULL && s[|s| - 1] in m
    ensures k > 0 ==> At(s, k - 1) != NULL && At(s, k - 1) in m && s[k] != head
    ensures k + 1 < |s| ==> At(s, k + 1) != NULL && At(s, k + 1) in m
  {
    assert Joined(m, s, k) && Joined(m, s, 0) && Joined(m, s, |s| - 1);
    assert k > 0 ==> Joined(m, s, k - 1);
    assert k + 1 < |s| ==> Joined(m, s, k + 1);
  }

  lemma HeadNull(m: map<Ptr, Link>, head: Ptr, s: seq<Ptr>)
    requires DlList(m, head, s)
    ensures head == NULL <==> s == []
  {
    assert s != [] ==> Joined(m, s, 0);
  }

  class Queue {
    var link: map<Ptr, Link>
    var head: Ptr
    ghost var order: seq<Ptr>

    ghost predicate Valid()
      reads this
    {
      DlList(link, head, order)
    }

    constructor ()
      ensures Valid() && order == []
    {
      link, head, order := map[], NULL, [];
    }

    // DL_APPEND
    method Append(add: Ptr)
      requires Valid() && add != NULL && add !in order
      modifies this
      ensures Valid() && order == old(order) + [add]
    {
      ghost var m, s := link, order;
      HeadNull(link, head, order);
      if head != NULL {
        JoinedAt(m, head, s, 0);
        var last := link[head].prev;
        link := link[add := Link(last, NULL)];
        link := link[last := link[last].(next := add)];
        link := link[head := link[head].(prev := add)];
      } else {
        head := add;
        link := link[add := Link(add, NULL)];
      }
      order := s + [add];
      forall i | 0 <= i < |order| ensures Joined(link, order, i) {
        if i < |s| {
          JoinedAt(m, head, s, i);
          assert order[i] == s[i] && At(order, i - 1) == At(s, i - 1)
              && (i + 1 < |s| ==> At(order, i + 1) == At(s, i + 1));
        }
      }
    }

    // DL_DELETE
    method Delete(del: Ptr, ghost k: nat)
      requires Valid() && k < |order| && order[k] == del
      modifies this
      ensures Valid() && order == Without(old(order), k)
    {
      ghost var m, s, h := link, order, head;
      JoinedAt(m, h, s, k);
      var l := link[del];
      if l.prev == del {
        head := NULL;
      } else if del == head {
        link := link[l.next := link[l.next].(prev := l.prev)];
        head := l.next;
      } else {
        link := link[l.prev := link[l.prev].(next := l.next)];
        if l.next != NULL {
          link := link[l.next := link[l.next].(prev := l.prev)];
        } else {
          link := link[head := link[head].(prev := l.prev)];
        }
      }
      order := Without(s, k);
      WithoutMembers(s, k);
      AtWithout(s, k, 0);
      forall i | 0 <= i < |order| ensures Joined(link, order, i) {
        var j := if i < k then i else i + 1;
        JoinedAt(m, h, s, j);
        AtWithout(s, k, i);
        AtWithout(s, k, i - 1);
        AtWithout(s, k, i + 1);
        AtWithout(s, k, |order| - 1);
      }
    }
  }
}
