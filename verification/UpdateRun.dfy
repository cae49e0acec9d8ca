// One component of the agent handling ready-update: it installs or rolls back and reports (process_ready_update and
// update_action of src/handler.c, the install, rollback and resume operations of src/updater.c).
module UpdateRun {
  import opened Common
  import opened Rollback

  datatype State = INSTALL_READY | INSTALL_IN_PROGRESS | INSTALL_COMPLETED | INSTALL_FAILED | INSTALL_ROLLBACK

  datatype UpdateError = UE_NONE | UE_TERMINAL_FAILURE | UE_OTHER

  datatype RbType = URB_NONE | URB_DMC_INITIATED_NO_UA_INTENT | URB_DMC_INITIATED_WITH_UA_INTENT | URB_UA_INITIATED

  // An update-status message: its status, the rollback-version and rollback-versions properties if present, and whether
  // it says terminal-failure.
  datatype Status = Status(state: State, rollbackVersion: Option<string>, rollbackVersions: Option<seq<string>>,
                           terminal: bool)

  // A ready-update message as parsed, and the version of the file it is about to install.
  datatype ReadyUpdate = ReadyUpdate(rollbackVersion: Option<string>, rollbackVersions: Option<seq<string>>,
                                     fileVersion: Option<string>)

  // How far the reading of a message got that cannot be used: up to a missing type, name or version, or to a package
  // that is not there.
  datatype Unparsed =
    | NoType
    | NoName
    | NoVersion
    | NoPackage(rollbackVersion: Option<string>, rollbackVersions: Option<seq<string>>)

  // How a prepare-update ends: the package is prepared, or it is not, or it is answered at once, or the message lacks a
  // type or name, or only a version.
  datatype Preparation = Ready | Failed | Answered | Unnamed | Unversioned

  // What the update agent's callbacks and the file system answer while one message is handled. same: the installed
  // version is the requested one; hasInstall: there is an on_install callback; preOk: on_pre_install lets it go on;
  // proceeds: the client lets it go on; installs: on_install completes; found: the rollback package is available;
  // ready: it can be prepared; prepared: it is a prepared delta package.
  datatype World = World(same: bool, hasInstall: bool, preOk: bool, proceeds: bool, installs: bool,
                         found: bool, ready: bool, prepared: bool)

  // on_install is reached.
  predicate Reaches(w: World) {
    w.preOk && w.proceeds && w.hasInstall
  }

  // An installation of a new version ends well.
  predicate Installs(w: World) {
    Reaches(w) && w.installs
  }

  // ----- what has been reported -----

  predicate IsFailure(s: Status) {
    s.state == INSTALL_FAILED || s.state == INSTALL_ROLLBACK
  }

  // The failure reports among the statuses from position n on: plain failures, rollback intents, terminal failures.
  function Failures(sent: seq<Status>): seq<Status> {
    if sent == [] then []
    else
      var rest, s := Failures(sent[..|sent| - 1]), sent[|sent| - 1];
      if IsFailure(s) then rest + [s] else rest
  }

  lemma FailuresAdd(sent: seq<Status>, s: Status)
    ensures Failures(sent + [s]) == if IsFailure(s) then Failures(sent) + [s] else Failures(sent)
  {
    assert (sent + [s])[..|sent|] == sent;
  }

  const PLAIN_FAILURE := Status(INSTALL_FAILED, None, None, false)

  // The report that a rollback to this version is to be tried next, as the configured type has it.
  function Intent(rbType: RbType, version: string, versions: seq<string>): Status {
    match rbType
    case URB_DMC_INITIATED_NO_UA_INTENT => PLAIN_FAILURE
    case URB_UA_INITIATED => Status(INSTALL_ROLLBACK, Some(version), Some(versions), false)
    case _ => Status(INSTALL_FAILED, Some(version), Some(versions), false)
  }

  // The report that ends a rollback for good.
  function RollbackEnds(rbType: RbType, version: Option<string>, versions: Option<seq<string>>): Status {
    if rbType == URB_DMC_INITIATED_NO_UA_INTENT then PLAIN_FAILURE
    else Status(INSTALL_FAILED, version, if version.Some? then versions else None, true)
  }

  // ----- what is to be reported -----

  // How one rollback attempt ends: with the rollback done, with an intent for the next version, or for good.
  function Attempt(versions: Option<seq<string>>, rb: string, w: World): State {
    if w.same || (w.found && !w.prepared && w.ready && Installs(w)) then INSTALL_COMPLETED
    else if !(w.found && w.prepared) && versions.Some? && NextVersion(versions.value, rb).Some? then INSTALL_ROLLBACK
    else INSTALL_FAILED
  }

  function RbTypeFor(rbType: RbType, m: ReadyUpdate): RbType {
    if m.rollbackVersions.Some? && rbType == URB_NONE then URB_DMC_INITIATED_WITH_UA_INTENT else rbType
  }

  // The one report of a failed installation that may be rolled back: plain up to the retry limit, then an intent for
  // the version after the failed one, or terminal.
  function FailureReport(rbType: RbType, retryCnt: int, maxRetry: int, versions: seq<string>,
                         fileVersion: Option<string>): Status
  {
    if retryCnt <= maxRetry then PLAIN_FAILURE
    else if fileVersion.Some? && NextVersion(versions, fileVersion.value).Some?
      then Intent(rbType, NextVersion(versions, fileVersion.value).value, versions)
    else Status(INSTALL_FAILED, None, None, true)
  }

  // The installation itself reports a failure when there is nothing to roll back to.
  function OwnFailure(w: World, version: Option<string>, versions: Option<seq<string>>): seq<Status> {
    if Reaches(w) && !w.installs && versions.None? then [Status(INSTALL_FAILED, version, None, false)] else []
  }

  // The failure reports for one ready-update, with the rollback type and the retry count it is handled with.
  function Reports(rbType: RbType, retryCnt: int, maxRetry: int, m: ReadyUpdate, w: World): seq<Status> {
    if m.rollbackVersion.Some? then RollbackReports(rbType, m.rollbackVersion.value, m.rollbackVersions, w)
    else if w.same || Installs(w) then []
    else if m.rollbackVersions.Some?
      then [FailureReport(rbType, retryCnt, maxRetry, m.rollbackVersions.value, m.fileVersion)]
    else OwnFailure(w, None, None) + if retryCnt <= maxRetry then [PLAIN_FAILURE] else []
  }

  function RollbackReports(rbType: RbType, rb: string, versions: Option<seq<string>>, w: World): seq<Status> {
    match Attempt(versions, rb, w)
    case INSTALL_COMPLETED => if w.same then [Status(INSTALL_ROLLBACK, Some(rb), versions, false)] else []
    case INSTALL_ROLLBACK => [Intent(rbType, NextVersion(versions.value, rb).value, versions.value)]
    case _ => (if w.found && !w.prepared && w.ready then OwnFailure(w, Some(rb), versions) else [])
              + [RollbackEnds(rbType, Some(rb), versions)]
  }

  // ----- all statuses, sent after those of before -----

  // A status about the package file.
  function About(state: State, version: Option<string>, versions: Option<seq<string>>): Status {
    Status(state, version, if version.Some? then versions else None, false)
  }

  // An installation asks to begin, and tells how it has ended unless it has failed and there is something to roll back
  // to.
  function InstallSends(before: seq<Status>, w: World, version: Option<string>, versions: Option<seq<string>>)
    : seq<Status>
  {
    if !w.preOk then before
    else
      var asked := before + [About(INSTALL_IN_PROGRESS, version, versions)];
      if !w.proceeds || !w.hasInstall then asked
      else if w.installs then asked + [About(INSTALL_COMPLETED, version, versions)]
      else if versions.None? then asked + [About(INSTALL_FAILED, version, versions)]
      else asked
  }

  function RollbackSends(before: seq<Status>, rbType: RbType, rb: string, versions: Option<seq<string>>, w: World)
    : seq<Status>
  {
    if w.same then
      before + [Status(INSTALL_ROLLBACK, Some(rb), versions, false)]
             + [Status(INSTALL_COMPLETED, Some(rb), versions, false)]
    else
      var tried := if w.found && !w.prepared && w.ready then InstallSends(before, w, Some(rb), versions) else before;
      match Attempt(versions, rb, w)
      case INSTALL_COMPLETED => tried
      case INSTALL_ROLLBACK => tried + [Intent(rbType, NextVersion(versions.value, rb).value, versions.value)]
      case _ => tried + [RollbackEnds(rbType, Some(rb), versions)]
  }

  // All statuses of one ready-update, with the rollback type and the retry count it is handled with.
  function Sends(before: seq<Status>, rbType: RbType, retryCnt: int, maxRetry: int, m: ReadyUpdate, w: World)
    : seq<Status>
  {
    if m.rollbackVersion.Some? then RollbackSends(before, rbType, m.rollbackVersion.value, m.rollbackVersions, w)
    else if w.same then before + [Status(INSTALL_COMPLETED, None, None, false)]
    else
      var installed := InstallSends(before, w, None, m.rollbackVersions);
      if Installs(w) then installed
      else if m.rollbackVersions.Some? then
        installed + [FailureReport(rbType, retryCnt, maxRetry, m.rollbackVersions.value, m.fileVersion)]
      else if retryCnt <= maxRetry then installed + [PLAIN_FAILURE]
      else installed
  }

  // One more status, and the failures that it adds.
  lemma Adds(before: seq<Status>, failures: seq<Status>, sent: seq<Status>, s: Status)
    requires Failures(sent) == Failures(before) + failures
    ensures Failures(sent + [s]) == Failures(before) + if IsFailure(s) then failures + [s] else failures
  {
    FailuresAdd(sent, s);
  }

  lemma InstallSendsFailures(before: seq<Status>, w: World, version: Option<string>, versions: Option<seq<string>>)
    ensures Failures(InstallSends(before, w, version, versions)) == Failures(before) + OwnFailure(w, version, versions)
  {
    var asked := before + [About(INSTALL_IN_PROGRESS, version, versions)];
    Adds(before, [], before, About(INSTALL_IN_PROGRESS, version, versions));
    Adds(before, [], asked, About(if w.installs then INSTALL_COMPLETED else INSTALL_FAILED, version, versions));
  }

  lemma TriedFailures(before: seq<Status>, rb: string, versions: Option<seq<string>>, w: World)
    returns (tried: seq<Status>, own: seq<Status>)
    ensures tried == if w.found && !w.prepared && w.ready then InstallSends(before, w, Some(rb), versions) else before
    ensures own == if w.found && !w.prepared && w.ready then OwnFailure(w, Some(rb), versions) else []
    ensures Failures(tried) == Failures(before) + own
  {
    InstallSendsFailures(before, w, Some(rb), versions);
    tried := if w.found && !w.prepared && w.ready then InstallSends(before, w, Some(rb), versions) else before;
    own := if w.found && !w.prepared && w.ready then OwnFailure(w, Some(rb), versions) else [];
  }

  lemma SameSendsFailures(before: seq<Status>, rbType: RbType, rb: string, versions: Option<seq<string>>, w: World)
    requires w.same
    ensures Failures(RollbackSends(before, rbType, rb, versions, w))
            == Failures(before) + RollbackReports(rbType, rb, versions, w)
  {
    var told := Status(INSTALL_ROLLBACK, Some(rb), versions, false);
    Adds(before, [], before, told);
    Adds(before, [told], before + [told], Status(INSTALL_COMPLETED, Some(rb), versions, false));
  }

  // The status that ends an attempt, and what has been sent before it.
  lemma LastSent(before: seq<Status>, tried: seq<Status>, own: seq<Status>, last: Status, sent: seq<Status>,
                 reports: seq<Status>)
    requires Failures(tried) == Failures(before) + own && IsFailure(last)
    requires sent == tried + [last] && reports == own + [last]
    ensures Failures(sent) == Failures(before) + reports
  {
    Adds(before, own, tried, last);
  }

  lemma RollbackSendsFailures(before: seq<Status>, rbType: RbType, rb: string, versions: Option<seq<string>>, w: World)
    ensures Failures(RollbackSends(before, rbType, rb, versions, w))
            == Failures(before) + RollbackReports(rbType, rb, versions, w)
  {
    var sent, reports := RollbackSends(before, rbType, rb, versions, w), RollbackReports(rbType, rb, versions, w);
    if w.same {
      SameSendsFailures(before, rbType, rb, versions, w);
    } else {
      var tried, own := TriedFailures(before, rb, versions, w);
      match Attempt(versions, rb, w)
      case INSTALL_COMPLETED => assert sent == tried && reports == own;
      case INSTALL_ROLLBACK =>
        var next := NextVersion(versions.value, rb).value;
        LastSent(before, tried, own, Intent(rbType, next, versions.value), sent, reports);
      case _ => LastSent(before, tried, own, RollbackEnds(rbType, Some(rb), versions), sent, reports);
    }
  }

  lemma TrySendsFailures(before: seq<Status>, rbType: RbType, retryCnt: int, maxRetry: int, m: ReadyUpdate, w: World)
    requires m.rollbackVersion.None? && !w.same
    ensures Failures(Sends(before, rbType, retryCnt, maxRetry, m, w))
            == Failures(before) + Reports(rbType, retryCnt, maxRetry, m, w)
  {
    var versions := m.rollbackVersions;
    var sent := Sends(before, rbType, retryCnt, maxRetry, m, w);
    var reports := Reports(rbType, retryCnt, maxRetry, m, w);
    InstallSendsFailures(before, w, None, versions);
    var installed, own := InstallSends(before, w, None, versions), OwnFailure(w, None, versions);
    if !Installs(w) && versions.Some? {
      LastSent(before, installed, own,
               FailureReport(rbType, retryCnt, maxRetry, versions.value, m.fileVersion), sent, reports);
    } else if !Installs(w) && retryCnt <= maxRetry {
      LastSent(before, installed, own, PLAIN_FAILURE, sent, reports);
    } else {
      assert sent == installed && reports == own;
    }
  }

  // The failures among them.
  lemma SendsFailures(before: seq<Status>, rbType: RbType, retryCnt: int, maxRetry: int, m: ReadyUpdate, w: World)
    ensures Failures(Sends(before, rbType, retryCnt, maxRetry, m, w))
            == Failures(before) + Reports(rbType, retryCnt, maxRetry, m, w)
  {
    if m.rollbackVersion.Some? {
      RollbackSendsFailures(before, rbType, m.rollbackVersion.value, m.rollbackVersions, w);
    } else if w.same {
      Adds(before, [], before, Status(INSTALL_COMPLETED, None, None, false));
    } else {
      TrySendsFailures(before, rbType, retryCnt, maxRetry, m, w);
    }
  }

  // A status that says completed is the last one, and is there exactly if the update or the rollback is done.
  ghost predicate EndsCompleted(before: seq<Status>, sent: seq<Status>, done: bool) {
    && |before| <= |sent| && sent[..|before|] == before
    && (forall i :: |before| <= i < |sent| ==> (sent[i].state == INSTALL_COMPLETED <==> done && i == |sent| - 1))
    && (done ==> |before| < |sent|)
  }

  lemma InstallCompleted(before: seq<Status>, w: World, version: Option<string>, versions: Option<seq<string>>)
    ensures EndsCompleted(before, InstallSends(before, w, version, versions), Installs(w))
  {
  }

  lemma RollbackCompleted(before: seq<Status>, rbType: RbType, rb: string, versions: Option<seq<string>>, w: World)
    ensures EndsCompleted(before, RollbackSends(before, rbType, rb, versions, w),
                          w.same || (w.found && w.ready && !w.prepared && Installs(w)))
  {
    InstallCompleted(before, w, Some(rb), versions);
  }

  lemma CompletedLast(before: seq<Status>, rbType: RbType, retryCnt: int, maxRetry: int, m: ReadyUpdate, w: World)
    ensures EndsCompleted(before, Sends(before, rbType, retryCnt, maxRetry, m, w),
                          w.same || (Installs(w) && (m.rollbackVersion.None? || (w.found && w.ready && !w.prepared))))
  {
    if m.rollbackVersion.Some? {
      RollbackCompleted(before, rbType, m.rollbackVersion.value, m.rollbackVersions, w);
    } else {
      InstallCompleted(before, w, None, m.rollbackVersions);
    }
  }

  // S(): a version that is there and not empty.
  predicate IsTerminal(version: Option<string>) {
    version.Some? && version.value != ""
  }

  // The failure report for a ready-update that cannot be parsed.
  function ParseReport(version: Option<string>, versions: Option<seq<string>>, error: UpdateError): Status {
    Status(INSTALL_FAILED, version, if version.Some? then versions else None, error == UE_TERMINAL_FAILURE)
  }

  // There is a version to try after this one.
  predicate HasNext(versions: Option<seq<string>>, version: Option<string>) {
    versions.Some? && version.Some? && NextVersion(versions.value, version.value).Some?
  }

  class Component {
    const maxRetry: int
    var retryCnt: int
    var rbType: RbType
    // update_pkg and update_file_info; named: update_pkg.name is set
    var named: bool
    var rollbackVersion: Option<string>
    var rollbackVersions: Option<seq<string>>
    var fileVersion: Option<string>
    var updateError: UpdateError
    var sent: seq<Status>

    constructor (maxRetry: int)
      ensures sent == [] && retryCnt == 0 && rbType == URB_NONE && this.maxRetry == maxRetry && updateError == UE_NONE
      ensures !named && rollbackVersion == None && rollbackVersions == None && fileVersion == None
    {
      named := false;
      this.maxRetry, retryCnt, rbType, updateError := maxRetry, 0, URB_NONE, UE_NONE;
      rollbackVersion, rollbackVersions, fileVersion, sent := None, None, None, [];
    }

    // send_install_status; without a package file the rollback properties and the error are left out.
    method SendInstallStatus(state: State, pkgFile: bool, ue: UpdateError)
      modifies this`sent
      ensures sent == old(sent) + [Status(state, if pkgFile then rollbackVersion else None,
                                          if pkgFile && rollbackVersion.Some? then rollbackVersions else None,
                                          state == INSTALL_FAILED && ue == UE_TERMINAL_FAILURE && pkgFile)]
    {
      var rb := if rollbackVersion.Some? && pkgFile then rollbackVersion else None;
      var rbs := if rollbackVersion.Some? && rollbackVersions.Some? && pkgFile then rollbackVersions else None;
      var terminal := state == INSTALL_FAILED && ue != UE_NONE && pkgFile && ue == UE_TERMINAL_FAILURE;
      sent := sent + [Status(state, rb, rbs, terminal)];
    }

    // pre_update_action
    method PreUpdateAction(w: World) returns (state: State)
      modifies this`sent
      ensures state == if w.preOk && w.proceeds then INSTALL_IN_PROGRESS else INSTALL_FAILED
      ensures sent == if w.preOk then old(sent) + [About(INSTALL_IN_PROGRESS, rollbackVersion, rollbackVersions)]
                      else old(sent)
    {
      state := if w.preOk then INSTALL_IN_PROGRESS else INSTALL_FAILED;
      if state == INSTALL_IN_PROGRESS {
        SendInstallStatus(state, true, UE_NONE);
        if !w.proceeds {
          state := INSTALL_FAILED;
        }
      }
    }

    // update_action
    method UpdateAction(w: World) returns (state: State)
      modifies this`sent
      ensures state == if w.hasInstall && w.installs then INSTALL_COMPLETED else INSTALL_FAILED
      ensures sent == if !w.hasInstall || (!w.installs && rollbackVersions.Some?) then old(sent)
                      else old(sent) + [About(state, rollbackVersion, rollbackVersions)]
    {
      state := INSTALL_FAILED;
      if !w.hasInstall {
        return;
      }
      state := if w.installs then INSTALL_COMPLETED else INSTALL_FAILED;
      if !(rollbackVersions.Some? && state == INSTALL_FAILED) {
        SendInstallStatus(state, true, UE_NONE);
      }
    }

    // update_start_install_operations
    method StartInstallOperations(w: World) returns (state: State)
      modifies this`sent
      ensures state == if (rollbackVersion.None? && w.same) || Installs(w) then INSTALL_COMPLETED else INSTALL_FAILED
      ensures sent == if rollbackVersion.None? && w.same then old(sent) + [Status(INSTALL_COMPLETED, None, None, false)]
                      else InstallSends(old(sent), w, rollbackVersion, rollbackVersions)
    {
      if rollbackVersion.None? && w.same {
        SendInstallStatus(INSTALL_COMPLETED, false, UE_NONE);
        state := INSTALL_COMPLETED;
      } else {
        state := PreUpdateAction(w);
        if state == INSTALL_IN_PROGRESS {
          state := UpdateAction(w);
        }
      }
    }

    // update_get_next_rollback_version
    method GetNextRollbackVersion(cur: Option<string>) returns (next: Option<string>)
      ensures next == if rollbackVersions.Some? && cur.Some? then NextVersion(rollbackVersions.value, cur.value)
                      else None
    {
      next := None;
      if rollbackVersions.Some? {
        next := GetPkgNextRollbackVersion(rollbackVersions.value, cur);
      }
    }

    // update_send_rollback_intent
    method SendRollbackIntent(next: string)
      requires rollbackVersions.Some?
      modifies this`sent, this`rollbackVersion
      ensures rollbackVersion == Some(next)
      ensures sent == if rbType == URB_NONE then old(sent)
                      else old(sent) + [Intent(rbType, next, rollbackVersions.value)]
    {
      rollbackVersion := Some(next);
      if rbType == URB_DMC_INITIATED_NO_UA_INTENT {
        SendInstallStatus(INSTALL_FAILED, false, UE_NONE);
      } else if rbType != URB_NONE {
        var state := if rbType == URB_DMC_INITIATED_WITH_UA_INTENT then INSTALL_FAILED else INSTALL_ROLLBACK;
        SendInstallStatus(state, true, UE_NONE);
      }
    }

    // The part of update_start_rollback_operations for a version that is not installed yet.
    method TryRollback(rb: string, w: World) returns (state: State)
      requires rollbackVersion == Some(rb) && (rollbackVersions.Some? ==> rbType != URB_NONE)
      modifies this`sent, this`rollbackVersion, this`fileVersion
      requires !w.same
      ensures state == Attempt(rollbackVersions, rb, w)
      ensures rollbackVersion == if state == INSTALL_ROLLBACK then NextVersion(rollbackVersions.value, rb) else Some(rb)
      ensures fileVersion == if w.found then Some(rb) else old(fileVersion)
      ensures (if state == INSTALL_FAILED then sent + [RollbackEnds(rbType, Some(rb), rollbackVersions)] else sent)
              == RollbackSends(old(sent), rbType, rb, rollbackVersions, w)
    {
      var next;
      if w.found {
        fileVersion := Some(rb);
        state := if w.ready then INSTALL_READY else INSTALL_FAILED;
        if w.prepared {
          state := INSTALL_FAILED;
        } else {
          if state == INSTALL_READY {
            rollbackVersion := fileVersion;
            state := StartInstallOperations(w);
          }
          if state != INSTALL_COMPLETED {
            next := GetNextRollbackVersion(Some(rb));
            if next.Some? {
              state := INSTALL_ROLLBACK;
              SendRollbackIntent(next.value);
            }
          }
        }
      } else {
        next := GetNextRollbackVersion(Some(rb));
        if next.Some? {
          state := INSTALL_ROLLBACK;
          SendRollbackIntent(next.value);
        } else {
          state := INSTALL_FAILED;
        }
      }
    }

    // update_start_rollback_operations
    method StartRollbackOperations(rb: string, w: World) returns (state: State)
      requires rollbackVersions.Some? ==> rbType != URB_NONE
      modifies this`sent, this`rollbackVersion, this`fileVersion, this`updateError
      ensures state == Attempt(rollbackVersions, rb, w)
      ensures sent == RollbackSends(old(sent), rbType, rb, rollbackVersions, w)
      ensures fileVersion == if w.same || w.found then Some(rb) else None
    {
      fileVersion := None;
      rollbackVersion := Some(rb);
      if w.same {
        fileVersion := Some(rb);
        SendInstallStatus(INSTALL_ROLLBACK, true, UE_NONE);
        state := INSTALL_COMPLETED;
        SendInstallStatus(INSTALL_COMPLETED, true, UE_NONE);
      } else {
        state := TryRollback(rb, w);
      }
      if state == INSTALL_FAILED {
        if rbType == URB_DMC_INITIATED_NO_UA_INTENT {
          SendInstallStatus(INSTALL_FAILED, false, UE_NONE);
        } else {
          updateError := UE_TERMINAL_FAILURE;
          SendInstallStatus(INSTALL_FAILED, true, updateError);
        }
      }
    }

    // The part of process_ready_update after an installation that failed.
    method ReportFailure() returns (state: State)
      requires rollbackVersion.None? && (rollbackVersions.Some? ==> rbType != URB_NONE)
      modifies this`sent, this`rollbackVersion, this`updateError
      ensures sent ==
                if rollbackVersions.Some? then
                  old(sent) + [FailureReport(rbType, retryCnt, maxRetry, rollbackVersions.value, fileVersion)]
                else if retryCnt <= maxRetry then old(sent) + [PLAIN_FAILURE]
                else old(sent)
      ensures state == if retryCnt > maxRetry && HasNext(rollbackVersions, fileVersion) then INSTALL_ROLLBACK
                       else INSTALL_FAILED
    {
      state := INSTALL_FAILED;
      if retryCnt <= maxRetry {
        SendInstallStatus(INSTALL_FAILED, false, UE_NONE);
      } else if rollbackVersions.Some? {
        var next := GetNextRollbackVersion(fileVersion);
        if next.Some? {
          state := INSTALL_ROLLBACK;
          SendRollbackIntent(next.value);
        } else {
          updateError := UE_TERMINAL_FAILURE;
          SendInstallStatus(INSTALL_FAILED, true, updateError);
        }
      }
    }

    // process_ready_update for a message that can be parsed. A confirm-update that came in the meantime is carried out
    // before the package is released; confirm says whether the temporary manifest is then still there.
    method ProcessReadyUpdate(m: ReadyUpdate, w: World, confirm: Option<bool>) returns (state: State)
      modifies this
      ensures var count := if m.rollbackVersion.None? then old(retryCnt) + 1 else old(retryCnt);
              var t := RbTypeFor(old(rbType), m);
              && retryCnt == (if confirm.Some? then 0 else count)
              && rbType == (if confirm == Some(true) then URB_NONE else t)
              && sent == Sends(old(sent), t, count, maxRetry, m, w)
              && Failures(sent) == Failures(old(sent)) + Reports(t, count, maxRetry, m, w)
      ensures Released()
      ensures m.rollbackVersion.Some? ==> state == Attempt(m.rollbackVersions, m.rollbackVersion.value, w)
      ensures m.rollbackVersion.None? ==> (state == INSTALL_COMPLETED <==> w.same || Installs(w))
      ensures m.rollbackVersion.None? && state != INSTALL_COMPLETED ==>
                state == if old(retryCnt) + 1 > maxRetry && HasNext(m.rollbackVersions, m.fileVersion)
                         then INSTALL_ROLLBACK else INSTALL_FAILED
    {
      state := Update(m, w);
      SendsFailures(old(sent), rbType, retryCnt, maxRetry, m, w);
      if confirm.Some? {
        Confirm(confirm.value);
      }
      ReleaseContext();
    }

    // The part of process_ready_update up to the confirm-update that came in the meantime.
    method Update(m: ReadyUpdate, w: World) returns (state: State)
      modifies this
      ensures named && retryCnt == if m.rollbackVersion.None? then old(retryCnt) + 1 else old(retryCnt)
      ensures rbType == RbTypeFor(old(rbType), m)
      ensures sent == Sends(old(sent), rbType, retryCnt, maxRetry, m, w)
      ensures m.rollbackVersion.Some? ==> state == Attempt(m.rollbackVersions, m.rollbackVersion.value, w)
      ensures m.rollbackVersion.None? ==> (state == INSTALL_COMPLETED <==> w.same || Installs(w))
      ensures m.rollbackVersion.None? && state != INSTALL_COMPLETED ==>
                state == if old(retryCnt) + 1 > maxRetry && HasNext(m.rollbackVersions, m.fileVersion)
                         then INSTALL_ROLLBACK else INSTALL_FAILED
    {
      named, rollbackVersion := true, m.rollbackVersion;
      rollbackVersions, fileVersion := m.rollbackVersions, m.fileVersion;
      if rollbackVersions.Some? && rbType == URB_NONE {
        rbType := URB_DMC_INITIATED_WITH_UA_INTENT;
      }
      if rollbackVersion.Some? {
        state := StartRollbackOperations(rollbackVersion.value, w);
      } else {
        retryCnt := retryCnt + 1;
        state := StartInstallOperations(w);
        if state == INSTALL_FAILED {
          state := ReportFailure();
        }
      }
    }

    // Nothing is left of an update.
    predicate Released()
      reads this
    {
      !named && rollbackVersion.None? && rollbackVersions.None? && updateError == UE_NONE
    }

    // update_release_comp_context
    method ReleaseContext()
      modifies this`named, this`rollbackVersion, this`rollbackVersions, this`fileVersion, this`updateError
      ensures Released()
    {
      named, rollbackVersion, rollbackVersions, fileVersion, updateError := false, None, None, None, UE_NONE;
    }

    // process_ready_update for a message that cannot be parsed: what has been read of it stays, and one failure is
    // reported.
    method FailToParse(u: Unparsed)
      modifies this`named, this`rollbackVersion, this`rollbackVersions, this`updateError, this`sent
      ensures named == (u.NoVersion? || u.NoPackage? || (u.NoType? && old(named)))
      ensures rollbackVersion == if u.NoPackage? then u.rollbackVersion else old(rollbackVersion)
      ensures rollbackVersions == if u.NoPackage? then u.rollbackVersions else old(rollbackVersions)
      ensures updateError == if IsTerminal(rollbackVersion) then UE_TERMINAL_FAILURE else old(updateError)
      ensures sent == old(sent) + [ParseReport(rollbackVersion, rollbackVersions, updateError)]
      ensures Failures(sent) == Failures(old(sent)) + [ParseReport(rollbackVersion, rollbackVersions, updateError)]
      ensures u.NoPackage? && u.rollbackVersion.Some? && u.rollbackVersion.value != "" ==>
                sent == old(sent) + [Status(INSTALL_FAILED, u.rollbackVersion, u.rollbackVersions, true)]
      ensures u.NoPackage? && u.rollbackVersion.None? && old(updateError) != UE_TERMINAL_FAILURE ==>
                sent == old(sent) + [Status(INSTALL_FAILED, None, None, false)]
    {
      match u {
        case NoType =>
        case NoName => named := false;
        case NoVersion => named := true;
        case NoPackage(version, versions) => named, rollbackVersion, rollbackVersions := true, version, versions;
      }
      if IsTerminal(rollbackVersion) {
        updateError := UE_TERMINAL_FAILURE;
      }
      FailuresAdd(sent, ParseReport(rollbackVersion, rollbackVersions, updateError));
      SendInstallStatus(INSTALL_FAILED, true, updateError);
    }

    // The part of process_prepare_update for this component: update_pkg is cleared when it begins and, unless it
    // returns before, when it ends; the retries begin again when the package has been prepared.
    method Prepare(p: Preparation)
      modifies this`named, this`rollbackVersion, this`rollbackVersions, this`retryCnt
      ensures retryCnt == if p == Preparation.Ready then 0 else old(retryCnt)
      ensures named == (p.Answered? || p.Unversioned?) && rollbackVersion == None && rollbackVersions == None
    {
      named, rollbackVersion, rollbackVersions := false, None, None;
      if p.Unnamed? {
        return;
      }
      named := true;
      if p.Answered? || p.Unversioned? {
        return;
      }
      if p == Preparation.Ready {
        retryCnt := 0;
      }
      named := false;
    }

    // The part of process_confirm_update for this component; manifest: the temporary manifest is still there. The type
    // is looked up by update_pkg.name, whatever package is confirmed.
    method Confirm(manifest: bool)
      modifies this`retryCnt, this`rbType
      ensures retryCnt == 0 && rbType == if manifest && named then URB_NONE else old(rbType)
    {
      if manifest {
        var known := if named then rbType else URB_NONE;
        if known != URB_NONE {
          rbType := URB_NONE;
        }
      }
      retryCnt := 0;
    }

    // ua_set_rollback_type
    method SetRollbackType(t: RbType)
      modifies this`rbType
      ensures rbType == if t != URB_NONE then t else old(rbType)
    {
      if t != URB_NONE {
        rbType := t;
      }
    }

    // update_resume_from_reboot: one report, whatever the branch.
    method ResumeFromReboot(same: bool)
      modifies this
      ensures same ==> sent == old(sent) + [About(INSTALL_COMPLETED, old(rollbackVersion), old(rollbackVersions))]
      ensures !same ==> sent == old(sent) + [ResumeReport(rbType, retryCnt, maxRetry, old(rollbackVersion),
                                                          old(rollbackVersions), old(fileVersion))]
      ensures !same && retryCnt <= maxRetry ==> sent == old(sent) + [Status(INSTALL_FAILED, None, None, false)]
      ensures !same && retryCnt > maxRetry && HasNext(old(rollbackVersions), old(fileVersion)) ==>
                var next := NextVersion(old(rollbackVersions).value, old(fileVersion).value);
                && (rbType == URB_UA_INITIATED ==>
                      sent == old(sent) + [Status(INSTALL_ROLLBACK, next, old(rollbackVersions), false)])
                && (rbType == URB_DMC_INITIATED_WITH_UA_INTENT ==>
                      sent == old(sent) + [Status(INSTALL_FAILED, next, old(rollbackVersions), false)])
                && (rbType == URB_NONE || rbType == URB_DMC_INITIATED_NO_UA_INTENT ==>
                      sent == old(sent) + [Status(INSTALL_FAILED, None, None, false)])
      ensures retryCnt == old(retryCnt) && rbType == old(rbType) && Released()
    {
      if same {
        SendInstallStatus(INSTALL_COMPLETED, true, UE_NONE);
      } else if retryCnt <= maxRetry {
        SendInstallStatus(INSTALL_FAILED, false, UE_NONE);
      } else if rbType == URB_DMC_INITIATED_WITH_UA_INTENT || rbType == URB_UA_INITIATED {
        var next := GetNextRollbackVersion(fileVersion);
        if next.Some? {
          SendRollbackIntent(next.value);
        } else {
          SendInstallStatus(INSTALL_FAILED, true, UE_TERMINAL_FAILURE);
        }
      } else {
        SendInstallStatus(INSTALL_FAILED, false, UE_NONE);
      }
      ReleaseContext();
    }
  }

  // The report of an installation that has failed over a reboot: plain up to the retry limit or if the type hides the
  // intent, then an intent for the version after the failed one, or terminal.
  function ResumeReport(rbType: RbType, retryCnt: int, maxRetry: int, version: Option<string>,
                        versions: Option<seq<string>>, fileVersion: Option<string>): Status
  {
    if retryCnt <= maxRetry || rbType == URB_NONE || rbType == URB_DMC_INITIATED_NO_UA_INTENT then
      Status(INSTALL_FAILED, None, None, false)
    else if versions.Some? && fileVersion.Some? && NextVersion(versions.value, fileVersion.value).Some? then
      Status(if rbType == URB_UA_INITIATED then INSTALL_ROLLBACK else INSTALL_FAILED,
             NextVersion(versions.value, fileVersion.value), versions, false)
    else Status(INSTALL_FAILED, version, if version.Some? then versions else None, true)
  }
}
