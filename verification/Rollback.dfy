// What an update run reports and how it rolls back: process_ready_update of src/handler.c with the installation and
// rollback operations of src/updater.c and the version list of src/utils.c.
module Rollback {
  import opened Common

  // ----- the list of rollback versions -----

  // Where currentVer is first, plus one; 0 when it is not in the list.
  function NextIndex(versions: seq<string>, cur: string): (i: nat)
    ensures cur in versions ==> 1 <= i <= |versions| && versions[i - 1] == cur && cur !in versions[..i - 1]
    ensures cur !in versions ==> i == 0
  {
    if cur !in versions then 0
    else if versions[0] == cur then 1
    else 1 + NextIndex(versions[1..], cur)
  }

  function NextVersion(versions: seq<string>, cur: string): Option<string> {
    var i := NextIndex(versions, cur);
    if i < |versions| then Some(versions[i]) else None
  }

  // get_pkg_next_rollback_version
  method GetPkgNextRollbackVersion(versions: seq<string>, currentVer: Option<string>) returns (next: Option<string>)
    ensures next == if currentVer.None? then None else NextVersion(versions, currentVer.value)
  {
    next := None;
    if currentVer.Some? && |versions| > 0 {
      var idx, i := 0, 0;
      while i < |versions|
        invariant 0 <= i <= |versions| && idx == 0 && currentVer.value !in versions[..i]
      {
        if currentVer.value == versions[i] {
          FirstIndex(versions, currentVer.value, i);
          idx := i + 1;
          break;
        }
        i := i + 1;
      }
      if idx < |versions| {
        next := Some(versions[idx]);
      }
    }
  }

  lemma FirstIndex(versions: seq<string>, cur: string, i: nat)
    requires i < |versions| && versions[i] == cur && cur !in versions[..i]
    ensures NextIndex(versions, cur) == i + 1
  {
    var k := NextIndex(versions, cur) - 1;
    assert forall a, b :: 0 <= a < b <= |versions| && cur !in versions[..b] ==> versions[a] != cur;
  }

  // The version after n failed rollbacks, the first of them to cur.
  function Iterate(versions: seq<string>, cur: string, n: nat): Option<string>
    decreases n
  {
    if n == 0 then Some(cur)
    else
      var next := NextVersion(versions, cur);
      if next.None? then None else Iterate(versions, next.value, n - 1)
  }

  // A version that is not in the list is followed by the first one, if there is one.
  lemma NextOfUnknown(versions: seq<string>, cur: string)
    requires cur !in versions
    ensures versions != [] ==> NextVersion(versions, cur) == Some(versions[0])
    ensures versions == [] ==> NextVersion(versions, cur) == None
  {
  }

  // A version is followed by the one after its first occurrence.
  lemma NextOfFirst(versions: seq<string>, cur: string, i: nat)
    requires i < |versions| && versions[i] == cur && forall j :: 0 <= j < i ==> versions[j] != cur
    ensures NextVersion(versions, cur) == if i + 1 < |versions| then Some(versions[i + 1]) else None
  {
    FirstIndex(versions, cur, i);
  }

  // Over distinct versions each failure leads to the next position, and the last one ends the rollback.
  lemma NextOfDistinct(versions: seq<string>, i: nat)
    requires Distinct(versions) && i < |versions|
    ensures NextVersion(versions, versions[i]) == if i + 1 < |versions| then Some(versions[i + 1]) else None
  {
    assert versions[i] !in versions[..i];
    FirstIndex(versions, versions[i], i);
  }

  // A rollback that has ended stays ended.
  lemma {:induction false} IterateStops(versions: seq<string>, cur: string, n: nat, n': nat)
    requires n <= n' && Iterate(versions, cur, n).None?
    ensures Iterate(versions, cur, n').None?
    decreases n
  {
    var next := NextVersion(versions, cur);
    if n > 0 && next.Some? {
      IterateStops(versions, next.value, n - 1, n' - 1);
    }
  }

  // A version at position j is found there or before.
  lemma FoundBy(versions: seq<string>, j: nat)
    requires j < |versions|
    ensures 1 <= NextIndex(versions, versions[j]) <= j + 1
    ensures versions[j] in versions[..j] ==> NextIndex(versions, versions[j]) <= j
  {
    var i := NextIndex(versions, versions[j]);
    assert forall a :: 0 <= a < i - 1 ==> versions[..i - 1][a] == versions[a];
  }

  // No version from the one tried next on occurs earlier in the list.
  predicate NoneReturns(versions: seq<string>, cur: string) {
    forall k :: NextIndex(versions, cur) <= k < |versions| ==> versions[k] !in versions[..k]
  }

  lemma {:induction false} NoneReturnsEnds(versions: seq<string>, cur: string)
    requires NoneReturns(versions, cur)
    ensures Iterate(versions, cur, |versions| + 1 - NextIndex(versions, cur)).None?
    decreases |versions| - NextIndex(versions, cur)
  {
    var i := NextIndex(versions, cur);
    if i < |versions| {
      FirstIndex(versions, versions[i], i);
      NoneReturnsEnds(versions, versions[i]);
    }
  }

  // Once a version that occurs earlier is still ahead, there is always a version to try next.
  lemma {:induction false} RepeatLoops(versions: seq<string>, cur: string, k: nat, n: nat)
    requires NextIndex(versions, cur) <= k < |versions| && versions[k] in versions[..k]
    ensures Iterate(versions, cur, n).Some?
    decreases n
  {
    if n > 0 {
      var i := NextIndex(versions, cur);
      FoundBy(versions, i);
      RepeatLoops(versions, versions[i], k, n - 1);
    }
  }

  // Failing rollbacks end exactly when no version from the one tried next on occurs earlier in the list, wherever they
  // start and whether that version is in the list or not; and then after one attempt for each version left.
  lemma EndsIff(versions: seq<string>, cur: string)
    ensures NoneReturns(versions, cur) <==> exists n: nat :: Iterate(versions, cur, n).None?
    ensures NoneReturns(versions, cur) ==> Iterate(versions, cur, |versions| + 1 - NextIndex(versions, cur)).None?
  {
    if NoneReturns(versions, cur) {
      NoneReturnsEnds(versions, cur);
    } else {
      var k :| NextIndex(versions, cur) <= k < |versions| && versions[k] in versions[..k];
      forall n: nat ensures Iterate(versions, cur, n).Some? {
        RepeatLoops(versions, cur, k, n);
      }
    }
  }

  // From the first version on they end exactly when all versions are distinct.
  lemma EndsIffDistinct(versions: seq<string>)
    requires versions != []
    ensures Distinct(versions) <==> exists n: nat :: Iterate(versions, versions[0], n).None?
  {
    FirstIndex(versions, versions[0], 0);
    EndsIff(versions, versions[0]);
    if NoneReturns(versions, versions[0]) {
      forall a, b | 0 <= a < b < |versions| ensures versions[a] != versions[b] {
        assert versions[..b][a] == versions[a];
      }
    }
  }
}
