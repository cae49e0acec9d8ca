// Whole runs of one component of the agent, for one package: what it reports over any sequence of messages, when a
// confirm-update resets the rollback type, and how a client that echoes every rollback intent is led down the list of
// versions.
module UpdateRuns {
  import opened Common
  import opened Rollback
  import opened UpdateRun

  // ----- any sequence of messages -----

  // What reaches the component: a prepare-update; a ready-update, with the confirm-update that came in the meantime, if
  // one did; a ready-update that cannot be parsed; a confirm-update that cleans up at any other time; or a call that
  // sets the rollback type.
  datatype Action =
    | PrepareUpdate(p: Preparation)
    | Ready(m: ReadyUpdate, w: World, confirm: Option<bool>)
    | ReadyUnparsed(u: Unparsed)
    | Confirmed(manifest: bool)
    | TypeSet(t: RbType)

  // What an action finds: the count of retries, the rollback type, and what is left in update_pkg.
  datatype Standing = Standing(count: int, rbType: RbType, named: bool, version: Option<string>,
                               versions: Option<seq<string>>, error: UpdateError)

  ghost function Of(c: Component): Standing
    reads c
  {
    Standing(c.retryCnt, c.rbType, c.named, c.rollbackVersion, c.rollbackVersions, c.updateError)
  }

  // The action starts the count of retries again.
  predicate IsReset(a: Action) {
    || (a.PrepareUpdate? && a.p == Preparation.Ready)
    || a.Confirmed?
    || (a.Ready? && a.confirm.Some?)
  }

  // A ready-update that is not a rollback, whether its installation ends well or not.
  predicate IsTry(a: Action) {
    a.Ready? && a.m.rollbackVersion.None?
  }

  // A try whose installation fails.
  predicate Fails(a: Action) {
    IsTry(a) && !a.w.same && !Installs(a.w)
  }

  // The count and the type that a ready-update is handled with.
  function CountFor(s: Standing, m: ReadyUpdate): int {
    s.count + if m.rollbackVersion.None? then 1 else 0
  }

  // What is left after a ready-update that cannot be parsed.
  function Left(s: Standing, u: Unparsed): Standing {
    var version := if u.NoPackage? then u.rollbackVersion else s.version;
    s.(named := u.NoVersion? || u.NoPackage? || (u.NoType? && s.named), version := version,
       versions := if u.NoPackage? then u.rollbackVersions else s.versions,
       error := if IsTerminal(version) then UE_TERMINAL_FAILURE else s.error)
  }

  function Next(s: Standing, a: Action): Standing {
    match a
    case PrepareUpdate(p) =>
      s.(count := if p == Preparation.Ready then 0 else s.count, named := p.Answered? || p.Unversioned?,
         version := None, versions := None)
    case Ready(m, _, confirm) =>
      Standing(if confirm.Some? then 0 else CountFor(s, m),
               if confirm == Some(true) then URB_NONE else RbTypeFor(s.rbType, m), false, None, None, UE_NONE)
    case ReadyUnparsed(u) => Left(s, u)
    case Confirmed(manifest) => s.(count := 0, rbType := if manifest && s.named then URB_NONE else s.rbType)
    case TypeSet(t) => if t != URB_NONE then s.(rbType := t) else s
  }

  function StandingAt(s: Standing, actions: seq<Action>): Standing {
    if actions == [] then s else Next(StandingAt(s, actions[..|actions| - 1]), actions[|actions| - 1])
  }

  // The failure reports for an action.
  function ReportsFor(s: Standing, maxRetry: int, a: Action): seq<Status> {
    match a
    case Ready(m, w, _) => Reports(RbTypeFor(s.rbType, m), CountFor(s, m), maxRetry, m, w)
    case ReadyUnparsed(u) => [ParseReport(Left(s, u).version, Left(s, u).versions, Left(s, u).error)]
    case _ => []
  }

  // All statuses after an action.
  function SendsFor(before: seq<Status>, s: Standing, maxRetry: int, a: Action): seq<Status> {
    match a
    case Ready(m, w, _) => Sends(before, RbTypeFor(s.rbType, m), CountFor(s, m), maxRetry, m, w)
    case ReadyUnparsed(u) => before + [ParseReport(Left(s, u).version, Left(s, u).versions, Left(s, u).error)]
    case _ => before
  }

  function AllSent(before: seq<Status>, s: Standing, maxRetry: int, actions: seq<Action>): seq<Status> {
    if actions == [] then before
    else
      var n := |actions| - 1;
      SendsFor(AllSent(before, s, maxRetry, actions[..n]), StandingAt(s, actions[..n]), maxRetry, actions[n])
  }

  // The failure reports for the action at position i.
  function ReportsAt(s: Standing, maxRetry: int, actions: seq<Action>, i: nat): seq<Status>
    requires i < |actions|
  {
    ReportsFor(StandingAt(s, actions[..i]), maxRetry, actions[i])
  }

  // The failure reports for all of them in turn.
  function AllReports(s: Standing, maxRetry: int, actions: seq<Action>): seq<Status> {
    if actions == [] then []
    else
      var n := |actions| - 1;
      AllReports(s, maxRetry, actions[..n]) + ReportsFor(StandingAt(s, actions[..n]), maxRetry, actions[n])
  }

  lemma StandingAdd(s: Standing, actions: seq<Action>, i: nat)
    requires i < |actions|
    ensures StandingAt(s, actions[..i + 1]) == Next(StandingAt(s, actions[..i]), actions[i])
  {
    assert actions[..i + 1][..i] == actions[..i];
  }

  lemma ReportsAdd(s: Standing, maxRetry: int, actions: seq<Action>, i: nat, before: seq<Status>)
    requires i < |actions|
    ensures before + AllReports(s, maxRetry, actions[..i + 1])
            == (before + AllReports(s, maxRetry, actions[..i])) + ReportsAt(s, maxRetry, actions, i)
  {
    assert actions[..i + 1][..i] == actions[..i];
  }

  lemma SentAdd(before: seq<Status>, s: Standing, maxRetry: int, actions: seq<Action>, i: nat)
    requires i < |actions|
    ensures AllSent(before, s, maxRetry, actions[..i + 1])
            == SendsFor(AllSent(before, s, maxRetry, actions[..i]), StandingAt(s, actions[..i]), maxRetry, actions[i])
  {
    assert actions[..i + 1][..i] == actions[..i];
  }

  // One action.
  method Do(c: Component, a: Action)
    modifies c
    ensures Of(c) == Next(old(Of(c)), a)
    ensures c.sent == SendsFor(old(c.sent), old(Of(c)), c.maxRetry, a)
    ensures Failures(c.sent) == Failures(old(c.sent)) + ReportsFor(old(Of(c)), c.maxRetry, a)
  {
    match a
    case PrepareUpdate(p) => c.Prepare(p);
    case Ready(m, w, confirm) => var _ := c.ProcessReadyUpdate(m, w, confirm);
    case ReadyUnparsed(u) => c.FailToParse(u);
    case Confirmed(manifest) => c.Confirm(manifest);
    case TypeSet(t) => c.SetRollbackType(t);
  }

  // Over any sequence of actions the statuses sent, and the failures among them, are those of the actions in turn.
  method Run(c: Component, actions: seq<Action>)
    modifies c
    ensures c.sent == AllSent(old(c.sent), old(Of(c)), c.maxRetry, actions)
    ensures Failures(c.sent) == Failures(old(c.sent)) + AllReports(old(Of(c)), c.maxRetry, actions)
    ensures Of(c) == StandingAt(old(Of(c)), actions)
  {
    ghost var s, sent, before := Of(c), c.sent, Failures(c.sent);
    for i := 0 to |actions|
      invariant c.sent == AllSent(sent, s, c.maxRetry, actions[..i])
      invariant Failures(c.sent) == before + AllReports(s, c.maxRetry, actions[..i])
      invariant Of(c) == StandingAt(s, actions[..i])
    {
      StandingAdd(s, actions, i);
      ReportsAdd(s, c.maxRetry, actions, i, before);
      SentAdd(sent, s, c.maxRetry, actions, i);
      Do(c, actions[i]);
    }
    assert actions[..|actions|] == actions;
  }

  // ----- the count of retries -----

  // The tries among the actions from position r on.
  function Tries(actions: seq<Action>, r: nat): set<nat> {
    set k: nat | r <= k < |actions| && IsTry(actions[k])
  }

  lemma TriesAdd(actions: seq<Action>, r: nat)
    requires r < |actions|
    ensures |Tries(actions, r)|
            == |Tries(actions[..|actions| - 1], r)| + if IsTry(actions[|actions| - 1]) then 1 else 0
  {
    var n := |actions|;
    var before := actions[..n - 1];
    if IsTry(actions[n - 1]) {
      assert Tries(actions, r) == Tries(before, r) + {n - 1};
    } else {
      assert Tries(actions, r) == Tries(before, r);
    }
  }

  // Position r comes right after the last reset before position n, or is the beginning.
  predicate LastReset(actions: seq<Action>, r: nat, n: nat) {
    r <= n <= |actions| && (r == 0 || IsReset(actions[r - 1])) && forall k :: r <= k < n ==> !IsReset(actions[k])
  }

  // The count is that of the tries since the last reset, successes included.
  lemma {:induction false} CountIsTries(s: Standing, actions: seq<Action>, r: nat)
    requires LastReset(actions, r, |actions|)
    ensures StandingAt(s, actions).count == (if r == 0 then s.count else 0) + |Tries(actions, r)|
    decreases |actions|
  {
    if r == |actions| {
      assert Tries(actions, r) == {};
    } else {
      TriesAdd(actions, r);
      CountIsTries(s, actions[..|actions| - 1], r);
    }
  }

  // The tries up to the failure at position i, this one included.
  function TriesSince(s: Standing, actions: seq<Action>, i: nat, r: nat): int
    requires i < |actions|
  {
    (if r == 0 then s.count else 0) + |Tries(actions[..i + 1], r)|
  }

  lemma CountAtTry(s: Standing, actions: seq<Action>, i: nat, r: nat)
    requires i < |actions| && IsTry(actions[i]) && LastReset(actions, r, i)
    ensures CountFor(StandingAt(s, actions[..i]), actions[i].m) == TriesSince(s, actions, i, r)
  {
    CountIsTries(s, actions[..i], r);
    TriesAdd(actions[..i + 1], r);
    assert actions[..i + 1][..i] == actions[..i];
  }

  // Where there is nothing to roll back to, a failed installation that was reached reports itself, and the handler adds
  // a plain failure up to the retry limit: a failure may be reported twice or not at all. When it is reported once:
  lemma OnceIff(s: Standing, maxRetry: int, actions: seq<Action>, i: nat, r: nat)
    requires i < |actions| && Fails(actions[i]) && LastReset(actions, r, i)
    ensures |ReportsAt(s, maxRetry, actions, i)| == 1 <==>
              || actions[i].m.rollbackVersions.Some?
              || (Reaches(actions[i].w) <==> TriesSince(s, actions, i, r) > maxRetry)
  {
    CountAtTry(s, actions, i, r);
  }

  // When a failed installation that may be rolled back is reported as a plain failure: exactly when at most maxRetry
  // tries have been made since the last reset, this one and the successful ones included, or when the type of rollback
  // hides the intent.
  lemma PlainIff(s: Standing, maxRetry: int, actions: seq<Action>, i: nat, r: nat)
    requires i < |actions| && Fails(actions[i]) && actions[i].m.rollbackVersions.Some? && LastReset(actions, r, i)
    ensures |ReportsAt(s, maxRetry, actions, i)| == 1
    ensures var m := actions[i].m;
            var next := if m.fileVersion.Some? then NextVersion(m.rollbackVersions.value, m.fileVersion.value)
                        else None;
            ReportsAt(s, maxRetry, actions, i)[0] == PLAIN_FAILURE <==>
              || TriesSince(s, actions, i, r) <= maxRetry
              || (StandingAt(s, actions[..i]).rbType == URB_DMC_INITIATED_NO_UA_INTENT && next.Some?)
  {
    CountAtTry(s, actions, i, r);
  }

  // The one report of a failed installation that may be rolled back, in full.
  lemma ReportIs(s: Standing, maxRetry: int, actions: seq<Action>, i: nat, r: nat)
    requires i < |actions| && Fails(actions[i]) && actions[i].m.rollbackVersions.Some? && LastReset(actions, r, i)
    ensures var m, t := actions[i].m, StandingAt(s, actions[..i]).rbType;
            var next := if m.fileVersion.Some? then NextVersion(m.rollbackVersions.value, m.fileVersion.value)
                        else None;
            var used := TriesSince(s, actions, i, r) > maxRetry;
            var report := ReportsAt(s, maxRetry, actions, i);
            && (!used ==> report == [Status(INSTALL_FAILED, None, None, false)])
            && (used && next.None? ==> report == [Status(INSTALL_FAILED, None, None, true)])
            && (used && next.Some? && t == URB_DMC_INITIATED_NO_UA_INTENT ==>
                  report == [Status(INSTALL_FAILED, None, None, false)])
            && (used && next.Some? && t == URB_UA_INITIATED ==>
                  report == [Status(INSTALL_ROLLBACK, next, m.rollbackVersions, false)])
            && (used && next.Some? && (t == URB_DMC_INITIATED_WITH_UA_INTENT || t == URB_NONE) ==>
                  report == [Status(INSTALL_FAILED, next, m.rollbackVersions, false)])
  {
    CountAtTry(s, actions, i, r);
  }

  // A failed installation is reported as a rollback exactly when its tries are used up, there is a next version, and
  // the agent itself initiates rollbacks.
  lemma RolledBackIff(s: Standing, maxRetry: int, actions: seq<Action>, i: nat, r: nat)
    requires i < |actions| && Fails(actions[i]) && actions[i].m.rollbackVersions.Some? && LastReset(actions, r, i)
    ensures var m := actions[i].m;
            (exists k :: 0 <= k < |ReportsAt(s, maxRetry, actions, i)|
                         && ReportsAt(s, maxRetry, actions, i)[k].state == INSTALL_ROLLBACK)
            <==> && TriesSince(s, actions, i, r) > maxRetry
                 && m.fileVersion.Some? && NextVersion(m.rollbackVersions.value, m.fileVersion.value).Some?
                 && StandingAt(s, actions[..i]).rbType == URB_UA_INITIATED
  {
    ReportIs(s, maxRetry, actions, i, r);
    var reports := ReportsAt(s, maxRetry, actions, i);
    assert |reports| == 1;
    if reports[0].state == INSTALL_ROLLBACK {
      assert 0 <= 0 < |reports| && reports[0].state == INSTALL_ROLLBACK;
    }
  }

  const GOOD := World(false, true, true, true, true, false, false, false)
  const BAD := GOOD.(installs := false)

  // So a success uses up a retry: with one retry allowed the first failure after it is reported as an intent at once.
  method SuccessUsesUpRetry() returns (c: Component)
    ensures fresh(c) && c.maxRetry == 1
    ensures Failures(c.sent) == [Status(INSTALL_FAILED, Some("1"), Some(["2", "1"]), false)]
  {
    c := new Component(1);
    var m := ReadyUpdate(None, Some(["2", "1"]), Some("2"));
    assert NextVersion(["2", "1"], "2") == Some("1");
    var _ := c.ProcessReadyUpdate(m, GOOD, None);
    var _ := c.ProcessReadyUpdate(m, BAD, None);
  }

  // One failure reported twice, and one not at all, when it does not get as far as the installation.
  method TwiceAndNever() returns (twice: Component, never: Component)
    ensures fresh(twice) && Failures(twice.sent) == [PLAIN_FAILURE, PLAIN_FAILURE]
    ensures fresh(never) && Failures(never.sent) == []
  {
    var m := ReadyUpdate(None, None, None);
    twice := new Component(1);
    var _ := twice.ProcessReadyUpdate(m, BAD, None);
    never := new Component(0);
    var _ := never.ProcessReadyUpdate(m, BAD.(preOk := false), None);
  }

  // ----- when a confirm-update resets the rollback type -----

  // The action leaves a name in update_pkg.
  predicate Names(a: Action) {
    || (a.PrepareUpdate? && (a.p.Answered? || a.p.Unversioned?))
    || (a.ReadyUnparsed? && (a.u.NoVersion? || a.u.NoPackage?))
  }

  // The action leaves the name as it was.
  predicate KeepsName(a: Action) {
    a.Confirmed? || a.TypeSet? || (a.ReadyUnparsed? && a.u.NoType?)
  }

  // The action at position j has left the name that is there after n actions; j == -1 for the beginning.
  predicate NameFrom(s: Standing, actions: seq<Action>, j: int, n: nat) {
    -1 <= j < n <= |actions| && (if j < 0 then s.named else Names(actions[j]))
    && forall k :: j < k < n ==> KeepsName(actions[k])
  }

  // A name is there exactly if such a message has left it: a ready-update that could not be parsed, or a prepare-update
  // that was answered at once or had no version.
  lemma {:induction false} NamedIff(s: Standing, actions: seq<Action>, n: nat)
    requires n <= |actions|
    ensures StandingAt(s, actions[..n]).named <==> exists j :: NameFrom(s, actions, j, n)
    decreases n
  {
    if n == 0 {
      assert StandingAt(s, actions[..0]) == s;
      assert s.named ==> NameFrom(s, actions, -1, 0);
    } else {
      var p := n - 1;
      StandingAdd(s, actions, p);
      NamedIff(s, actions, p);
      var a := actions[p];
      if Names(a) {
        assert NameFrom(s, actions, p, n);
      } else if KeepsName(a) {
        forall j ensures NameFrom(s, actions, j, p) <==> NameFrom(s, actions, j, n) {
          assert NameFrom(s, actions, j, n) ==> j != p;
        }
      } else {
        forall j ensures !NameFrom(s, actions, j, n) {
          assert j < p ==> !KeepsName(actions[p]);
        }
      }
    }
  }

  predicate Sets(a: Action) {
    (a.Ready? && a.m.rollbackVersions.Some?) || (a.TypeSet? && a.t != URB_NONE)
  }

  // The action at position k resets the type: a confirm-update that finds the manifest and a name.
  ghost predicate Resets(s: Standing, actions: seq<Action>, k: nat)
    requires k < |actions|
  {
    || (actions[k].Ready? && actions[k].confirm == Some(true))
    || (actions[k] == Confirmed(true) && exists j :: NameFrom(s, actions, j, k))
  }

  // The action at position j has set the type that is there after n actions; j == -1 for the beginning.
  ghost predicate TypeFrom(s: Standing, actions: seq<Action>, j: int, n: nat) {
    -1 <= j < n <= |actions| && (if j < 0 then s.rbType != URB_NONE else Sets(actions[j]))
    && forall k :: 0 <= k < n && j <= k ==> !Resets(s, actions, k)
  }

  // There is a type exactly if it was set and no confirm-update has reset it since. A confirm-update does so if it
  // finds the temporary manifest, and either came during a ready-update or finds a name that another message has left
  // behind.
  lemma {:induction false} TypeIff(s: Standing, actions: seq<Action>, n: nat)
    requires n <= |actions|
    ensures StandingAt(s, actions[..n]).rbType != URB_NONE <==> exists j :: TypeFrom(s, actions, j, n)
    decreases n
  {
    if n == 0 {
      assert StandingAt(s, actions[..0]) == s;
      assert s.rbType != URB_NONE ==> TypeFrom(s, actions, -1, 0);
    } else {
      var p := n - 1;
      StandingAdd(s, actions, p);
      TypeIff(s, actions, p);
      NamedIff(s, actions, p);
      if Resets(s, actions, p) {
        assert forall j :: TypeFrom(s, actions, j, n) ==> !Resets(s, actions, p);
      } else if Sets(actions[p]) {
        assert TypeFrom(s, actions, p, n);
      } else {
        forall j ensures TypeFrom(s, actions, j, p) <==> TypeFrom(s, actions, j, n) {
          assert TypeFrom(s, actions, j, n) ==> j != p;
        }
      }
    }
  }

  // An ordinary confirm-update after an update leaves the type; after a ready-update that could not be parsed it resets
  // it.
  method ResetOutOfTurn() returns (kept: Component, before: RbType, reset: Component)
    ensures fresh(kept) && kept.rbType == URB_DMC_INITIATED_WITH_UA_INTENT && kept.retryCnt == 0
    ensures fresh(reset) && before == URB_DMC_INITIATED_WITH_UA_INTENT && reset.rbType == URB_NONE
  {
    var update := Action.Ready(ReadyUpdate(None, Some(["1"]), Some("2")), GOOD, None);
    kept := new Component(1);
    Do(kept, update);
    Do(kept, Confirmed(true));
    reset := new Component(1);
    Do(reset, update);
    before := reset.rbType;
    Do(reset, ReadyUnparsed(NoPackage(None, Some(["1"]))));
    Do(reset, Confirmed(true));
  }

  // ----- a client that echoes every intent -----

  // The intents for the n versions after position i.
  function Intents(rbType: RbType, versions: seq<string>, i: nat, n: nat): seq<Status>
    requires i + n < |versions|
  {
    if n == 0 then []
    else Intents(rbType, versions, i, n - 1) + [Intent(rbType, versions[i + n], versions)]
  }

  // The failures reported when n rollbacks in turn fail, the first of them to cur.
  function FailingReports(log: seq<Status>, rbType: RbType, versions: seq<string>, cur: string, n: nat): seq<Status>
    decreases n
  {
    if n == 0 then log
    else
      var next := NextVersion(versions, cur);
      if next.None? then log + [RollbackEnds(rbType, Some(cur), Some(versions))]
      else FailingReports(log + [Intent(rbType, next.value, versions)], rbType, versions, next.value, n - 1)
  }

  // A rollback to this version fails, and its package is no prepared delta.
  predicate RollbackFails(w: World) {
    !w.same && !(w.found && (w.prepared || (w.ready && Installs(w))))
  }

  // One rollback that fails.
  method FailOnce(c: Component, versions: seq<string>, cur: string, w: World) returns (state: State)
    requires RollbackFails(w)
    modifies c
    ensures c.rbType == RbTypeFor(old(c.rbType), ReadyUpdate(None, Some(versions), None)) != URB_NONE
    ensures var next := NextVersion(versions, cur);
            && state == (if next.Some? then INSTALL_ROLLBACK else INSTALL_FAILED)
            && Failures(c.sent) == Failures(old(c.sent)) +
                 [if next.Some? then Intent(c.rbType, next.value, versions)
                  else RollbackEnds(c.rbType, Some(cur), Some(versions))]
    ensures NextVersion(versions, cur).None? ==>
              Failures(c.sent) == Failures(old(c.sent)) +
                [if c.rbType == URB_DMC_INITIATED_NO_UA_INTENT then Status(INSTALL_FAILED, None, None, false)
                 else Status(INSTALL_FAILED, Some(cur), Some(versions), true)]
  {
    state := c.ProcessReadyUpdate(ReadyUpdate(Some(cur), Some(versions), None), w, None);
  }

  // When every rollback fails the next one is asked for as long as the list gives a version: over some lists for ever,
  // and exactly over those where a version from the next one on occurs earlier in the list (EndsIff).
  method EchoFails(c: Component, versions: seq<string>, rb: string, ws: seq<World>) returns (state: State)
    requires ws != [] && forall i :: 0 <= i < |ws| ==> RollbackFails(ws[i])
    modifies c
    ensures state == if Iterate(versions, rb, |ws|).Some? then INSTALL_ROLLBACK else INSTALL_FAILED
    ensures NoneReturns(versions, rb) && |ws| > |versions| ==> state == INSTALL_FAILED
    ensures !NoneReturns(versions, rb) ==> state == INSTALL_ROLLBACK
    ensures Failures(c.sent) == FailingReports(Failures(old(c.sent)),
              RbTypeFor(old(c.rbType), ReadyUpdate(None, Some(versions), None)), versions, rb, |ws|)
  {
    ghost var rbType := RbTypeFor(c.rbType, ReadyUpdate(None, Some(versions), None));
    ghost var before := Failures(c.sent);
    var cur, i := rb, 0;
    state := INSTALL_ROLLBACK;
    while i < |ws| && state == INSTALL_ROLLBACK
      invariant 0 <= i <= |ws| && RbTypeFor(c.rbType, ReadyUpdate(None, Some(versions), None)) == rbType
      invariant state == INSTALL_ROLLBACK || state == INSTALL_FAILED
      invariant state == INSTALL_ROLLBACK ==> Iterate(versions, rb, |ws|) == Iterate(versions, cur, |ws| - i)
      invariant state == INSTALL_ROLLBACK ==>
                  FailingReports(before, rbType, versions, rb, |ws|)
                  == FailingReports(Failures(c.sent), rbType, versions, cur, |ws| - i)
      invariant state == INSTALL_FAILED ==> Iterate(versions, rb, |ws|).None?
      invariant state == INSTALL_FAILED ==> FailingReports(before, rbType, versions, rb, |ws|) == Failures(c.sent)
    {
      state := FailOnce(c, versions, cur, ws[i]);
      if state == INSTALL_ROLLBACK {
        cur := NextVersion(versions, cur).value;
      }
      i := i + 1;
    }
    EndsIff(versions, rb);
    if NoneReturns(versions, rb) && |ws| > |versions| {
      IterateStops(versions, rb, |versions| + 1 - NextIndex(versions, rb), |ws|);
    }
  }

  // A version that is installed already is reported as a rollback before it is reported as completed.
  function AlreadyThere(versions: seq<string>, p: nat, w: World): seq<Status>
    requires p < |versions|
  {
    if w.same then [Status(INSTALL_ROLLBACK, Some(versions[p]), Some(versions), false)] else []
  }

  // How a run of echoed intents stands after some attempts.
  ghost predicate Echoed(state: State, failures: seq<Status>, before: seq<Status>, rbType: RbType,
                         versions: seq<string>,
                         i: nat, attempts: nat, last: World)
  {
    && 1 <= attempts <= |versions| - i
    && match state
       case INSTALL_ROLLBACK => i + attempts < |versions| && failures == before + Intents(rbType, versions, i, attempts)
       case INSTALL_FAILED =>
         && failures == before + Intents(rbType, versions, i, attempts - 1) +
                        [RollbackEnds(rbType, Some(versions[i + attempts - 1]), Some(versions))]
         && (attempts == |versions| - i || (last.found && last.prepared))
       case INSTALL_COMPLETED =>
         failures == before + Intents(rbType, versions, i, attempts - 1)
             + AlreadyThere(versions, i + attempts - 1, last)
       case _ => false
  }

  // The rollback attempt at position p of distinct versions.
  method EchoStep(c: Component, versions: seq<string>, p: nat, w: World) returns (state: State)
    requires Distinct(versions) && p < |versions|
    modifies c
    ensures c.rbType == RbTypeFor(old(c.rbType), ReadyUpdate(None, Some(versions), None))
    ensures state == INSTALL_ROLLBACK || state == INSTALL_FAILED || state == INSTALL_COMPLETED
    ensures state == INSTALL_ROLLBACK ==>
              && p + 1 < |versions|
              && Failures(c.sent) == Failures(old(c.sent)) + [Intent(c.rbType, versions[p + 1], versions)]
    ensures state == INSTALL_FAILED ==>
              && Failures(c.sent) == Failures(old(c.sent)) + [RollbackEnds(c.rbType, Some(versions[p]), Some(versions))]
              && (p + 1 == |versions| || (w.found && w.prepared))
    ensures state == INSTALL_COMPLETED ==>
              && Failures(c.sent) == Failures(old(c.sent)) + AlreadyThere(versions, p, w)
              && |c.sent| > 0 && c.sent[|c.sent| - 1].state == INSTALL_COMPLETED
  {
    NextOfDistinct(versions, p);
    ghost var m := ReadyUpdate(Some(versions[p]), Some(versions), None);
    CompletedLast(c.sent, RbTypeFor(c.rbType, m), c.retryCnt, c.maxRetry, m, w);
    state := c.ProcessReadyUpdate(ReadyUpdate(Some(versions[p]), Some(versions), None), w, None);
  }

  // The next attempt of an echoing client.
  lemma EchoedNext(before: seq<Status>, failures: seq<Status>, failures': seq<Status>, rbType: RbType,
                   versions: seq<string>,
                   i: nat, attempts: nat, w0: World, state': State, w: World)
    requires Echoed(INSTALL_ROLLBACK, failures, before, rbType, versions, i, attempts, w0)
    requires state' == INSTALL_ROLLBACK || state' == INSTALL_FAILED || state' == INSTALL_COMPLETED
    requires var p := i + attempts;
             && (state' == INSTALL_ROLLBACK ==>
                   p + 1 < |versions| && failures' == failures + [Intent(rbType, versions[p + 1], versions)])
             && (state' == INSTALL_FAILED ==>
                   && failures' == failures + [RollbackEnds(rbType, Some(versions[p]), Some(versions))]
                   && (p + 1 == |versions| || (w.found && w.prepared)))
             && (state' == INSTALL_COMPLETED ==> failures' == failures + AlreadyThere(versions, p, w))
    ensures Echoed(state', failures', before, rbType, versions, i, attempts + 1, w)
  {
  }

  // A client that echoes every intent: the rollback goes down the list from position i, one attempt for each version at
  // most, with one intent between two attempts, and ends with the rollback done or with a report that it has failed for
  // good: when the list is exhausted or a package turns out to be a prepared delta.
  method EchoRun(c: Component, versions: seq<string>, i: nat, ws: seq<World>) returns (state: State, attempts: nat)
    requires Distinct(versions) && i < |versions| && |ws| == |versions|
    modifies c
    ensures 1 <= attempts <= |versions| - i && state != INSTALL_ROLLBACK
    ensures Echoed(state, Failures(c.sent), Failures(old(c.sent)),
                   RbTypeFor(old(c.rbType), ReadyUpdate(None, Some(versions), None)), versions, i, attempts,
                   ws[i + attempts - 1])
    ensures state == INSTALL_COMPLETED ==> |c.sent| > 0 && c.sent[|c.sent| - 1].state == INSTALL_COMPLETED
  {
    ghost var before := Failures(c.sent);
    ghost var rbType := RbTypeFor(c.rbType, ReadyUpdate(None, Some(versions), None));
    state := EchoStep(c, versions, i, ws[i]);
    attempts := 1;
    while state == INSTALL_ROLLBACK
      invariant RbTypeFor(c.rbType, ReadyUpdate(None, Some(versions), None)) == rbType
      invariant 1 <= attempts <= |versions| - i
      invariant Echoed(state, Failures(c.sent), before, rbType, versions, i, attempts, ws[i + attempts - 1])
      invariant state == INSTALL_COMPLETED ==> |c.sent| > 0 && c.sent[|c.sent| - 1].state == INSTALL_COMPLETED
      decreases |versions| - i - attempts, if state == INSTALL_ROLLBACK then 1 else 0
    {
      ghost var failures := Failures(c.sent);
      state := EchoStep(c, versions, i + attempts, ws[i + attempts]);
      EchoedNext(before, failures, Failures(c.sent), rbType, versions, i, attempts, ws[i + attempts - 1], state,
                 ws[i + attempts]);
      attempts := attempts + 1;
    }
  }
}
