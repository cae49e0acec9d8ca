// The stages of a package in src/handler.c and src/component.c: prepare-update and ready-update are worker jobs, each
// with a prologue and an end, and confirm-update runs on the runner thread, also while a job is under way.
module Stages {
  import opened Common

  datatype Stage =
    | UA_STATE_UNKNOWN
    | UA_STATE_PREPARE_UPDATE_STARTED
    | UA_STATE_PREPARE_UPDATE_DONE
    | UA_STATE_READY_UPDATE_STARTED
    | UA_STATE_READY_UPDATE_DONE
    | UA_STATE_CONFIRM_UPDATE_DONE

  // The job of the worker.
  datatype Job = Idle | Preparing(version: string, before: Stage) | Updating

  // What happens, in order: a version is found ready, by preparing it or because it was prepared before; a ready-update
  // begins and ends; the leftovers of an update are cleaned up.
  datatype Event =
    | Prepared(version: string, campaign: Option<string>)
    | AnsweredReady(version: string, inCampaign: string)
    | UpdateBegins
    | UpdateEnds
    | Cleanup

  function Count(log: seq<Event>, e: Event): nat {
    if log == [] then 0
    else Count(log[..|log| - 1], e) + if log[|log| - 1] == e then 1 else 0
  }

  // The version has been prepared in this campaign since the last ready-update began.
  ghost predicate PreparedSince(log: seq<Event>, version: string, campaign: string) {
    log != [] &&
      var last := log[|log| - 1];
      last == Prepared(version, Some(campaign))
          || (last != UpdateBegins && PreparedSince(log[..|log| - 1], version, campaign))
  }

  // Every answer without preparation is backed by a preparation in the same campaign and the same update round.
  ghost predicate AnswersBacked(log: seq<Event>) {
    log != [] ==>
      var init, last := log[..|log| - 1], log[|log| - 1];
      AnswersBacked(init) && (last.AnsweredReady? ==> PreparedSince(init, last.version, last.inCampaign))
  }

  // A clean-up has been made and no update has ended since.
  ghost predicate CleanedSince(log: seq<Event>) {
    log != [] &&
      var last := log[|log| - 1];
      last == Cleanup || (last != UpdateEnds && CleanedSince(log[..|log| - 1]))
  }

  // There is something to clean up: an update has ended, or nothing has happened at all, and no package has been
  // prepared, no update has begun and nothing has been cleaned up since.
  ghost predicate Open(log: seq<Event>) {
    log == [] ||
      var last := log[|log| - 1];
      last == UpdateEnds || (last.AnsweredReady? && Open(log[..|log| - 1]))
  }

  lemma {:induction false} OpenNotCleaned(log: seq<Event>)
    requires Open(log)
    ensures !CleanedSince(log)
  {
    if log != [] && log[|log| - 1].AnsweredReady? {
      OpenNotCleaned(log[..|log| - 1]);
    }
  }

  // Between two clean-ups an update has ended.
  ghost predicate CleanupsApart(log: seq<Event>) {
    log != [] ==>
      var init, last := log[..|log| - 1], log[|log| - 1];
      CleanupsApart(init) && (last == Cleanup ==> !CleanedSince(init))
  }

  // So there is at most one for each finished update, and one before the first.
  lemma {:induction false} CleanupsEarned(log: seq<Event>)
    requires CleanupsApart(log)
    ensures Count(log, Cleanup) <= Count(log, UpdateEnds) + if CleanedSince(log) then 1 else 0
  {
    if log != [] {
      CleanupsEarned(log[..|log| - 1]);
    }
  }

  lemma PreparedAdd(log: seq<Event>, e: Event, version: string, campaign: string)
    ensures PreparedSince(log + [e], version, campaign) <==>
              e == Prepared(version, Some(campaign)) || (e != UpdateBegins && PreparedSince(log, version, campaign))
  {
    assert (log + [e])[..|log|] == log;
  }

  lemma AnswersAdd(log: seq<Event>, e: Event)
    ensures AnswersBacked(log + [e]) <==>
              AnswersBacked(log) && (e.AnsweredReady? ==> PreparedSince(log, e.version, e.inCampaign))
  {
    assert (log + [e])[..|log|] == log;
  }

  lemma CleanupAdd(log: seq<Event>, e: Event)
    ensures CleanedSince(log + [e]) <==> e == Cleanup || (e != UpdateEnds && CleanedSince(log))
    ensures CleanupsApart(log + [e]) <==> CleanupsApart(log) && (e == Cleanup ==> !CleanedSince(log))
    ensures Open(log + [e]) <==> e == UpdateEnds || (e.AnsweredReady? && Open(log))
  {
    assert (log + [e])[..|log|] == log;
  }

  // A clean-up may be made at this stage.
  predicate Cleans(stage: Stage) {
    stage == UA_STATE_READY_UPDATE_DONE || stage == UA_STATE_UNKNOWN
  }

  // The stored version has been prepared in the stored campaign and in this update round.
  ghost predicate IsStored(preparedVer: Option<string>, campaignId: Option<string>, curCampaign: Option<string>,
                           log: seq<Event>)
  {
    preparedVer.Some? ==>
      campaignId.Some? && curCampaign.Some? && PreparedSince(log, preparedVer.value, campaignId.value)
  }

  // The stage agrees with the worker's job and with what has happened.
  ghost predicate Fits(stage: Stage, preparedVer: Option<string>, campaignId: Option<string>,
                       curCampaign: Option<string>,
                       cleanupOkAfterUpdate: bool, job: Job, log: seq<Event>)
  {
    && (stage == UA_STATE_PREPARE_UPDATE_STARTED <==> job.Preparing?)
    && (stage == UA_STATE_READY_UPDATE_STARTED <==> job == Updating)
    && (job.Preparing? ==> job.before != UA_STATE_PREPARE_UPDATE_STARTED && job.before != UA_STATE_READY_UPDATE_STARTED)
    && (cleanupOkAfterUpdate ==> job == Updating)
    && (job == Updating ==> preparedVer.None?)
    && (Cleans(if job.Preparing? then job.before else stage) <==> Open(log))
    && CleanupsApart(log) && AnswersBacked(log) && IsStored(preparedVer, campaignId, curCampaign, log)
  }

  // A package that has been prepared is stored, if there is a campaign.
  lemma PreparedFits(stage: Stage, preparedVer: Option<string>, campaignId: Option<string>, curCampaign: Option<string>,
                     cleanupOkAfterUpdate: bool, job: Job, log: seq<Event>)
    requires job.Preparing? && Fits(stage, preparedVer, campaignId, curCampaign, cleanupOkAfterUpdate, job, log)
    ensures Fits(UA_STATE_PREPARE_UPDATE_DONE, if curCampaign.Some? then Some(job.version) else preparedVer,
                 if curCampaign.Some? then curCampaign else campaignId, curCampaign, cleanupOkAfterUpdate, Idle,
                 log + [Prepared(job.version, curCampaign)])
  {
    var e := Prepared(job.version, curCampaign);
    AnswersAdd(log, e);
    CleanupAdd(log, e);
    if curCampaign.Some? {
      PreparedAdd(log, e, job.version, curCampaign.value);
    }
    if preparedVer.Some? {
      PreparedAdd(log, e, preparedVer.value, campaignId.value);
    }
  }

  lemma StoredAdd(preparedVer: Option<string>, campaignId: Option<string>, curCampaign: Option<string>,
                  log: seq<Event>, e: Event)
    requires IsStored(preparedVer, campaignId, curCampaign, log) && e != UpdateBegins
    ensures IsStored(preparedVer, campaignId, curCampaign, log + [e])
  {
    if preparedVer.Some? {
      PreparedAdd(log, e, preparedVer.value, campaignId.value);
    }
  }

  class Package {
    var stage: Stage
    // the stored version and campaign, and the campaign under way
    var preparedVer: Option<string>
    var campaignId: Option<string>
    var curCampaign: Option<string>
    var cleanupOkAfterUpdate: bool
    var retryCnt: nat
    var job: Job
    var log: seq<Event>

    ghost predicate Stored()
      reads this
    {
      IsStored(preparedVer, campaignId, curCampaign, log)
    }

    ghost predicate Valid()
      reads this
    {
      Fits(stage, preparedVer, campaignId, curCampaign, cleanupOkAfterUpdate, job, log)
    }

    // The comparison of campaigns in comp_get_prepared_version is with a null pointer.
    predicate NullCampaign(campaign: Option<string>)
      reads this
    {
      stage == UA_STATE_PREPARE_UPDATE_DONE && (campaign.Some? || curCampaign.Some?) && campaignId.None?
    }

    constructor ()
      ensures Valid() && log == [] && job == Idle && campaignId == curCampaign == None && stage == UA_STATE_UNKNOWN
    {
      stage, preparedVer, campaignId, curCampaign := UA_STATE_UNKNOWN, None, None, None;
      cleanupOkAfterUpdate, retryCnt, job, log := false, 0, Idle, [];
    }

    // One more event other than the begin of an update.
    method Note(e: Event)
      requires AnswersBacked(log) && CleanupsApart(log) && Stored() && e != UpdateBegins
      requires e.AnsweredReady? ==> PreparedSince(log, e.version, e.inCampaign)
      requires e == Cleanup ==> Open(log)
      modifies this`log
      ensures log == old(log) + [e] && AnswersBacked(log) && CleanupsApart(log) && Stored()
      ensures Open(log) <==> e == UpdateEnds || (e.AnsweredReady? && Open(old(log)))
    {
      if e == Cleanup {
        OpenNotCleaned(log);
      }
      StoredAdd(preparedVer, campaignId, curCampaign, log, e);
      AnswersAdd(log, e);
      CleanupAdd(log, e);
      log := log + [e];
    }

    method NoteBegin()
      requires AnswersBacked(log) && CleanupsApart(log)
      modifies this`log
      ensures log == old(log) + [UpdateBegins] && AnswersBacked(log) && CleanupsApart(log) && !Open(log)
    {
      AnswersAdd(log, UpdateBegins);
      CleanupAdd(log, UpdateBegins);
      log := log + [UpdateBegins];
    }

    // The prologue of process_prepare_update.
    method BeginPrepare(version: string, campaign: Option<string>)
      requires Valid() && job == Idle && !NullCampaign(campaign)
      modifies this
      ensures Valid() && curCampaign == if campaign.Some? then campaign else old(curCampaign)
      ensures var known := && old(stage) == UA_STATE_PREPARE_UPDATE_DONE && curCampaign.Some?
                           && old(campaignId) == curCampaign && old(preparedVer) == Some(version);
              && job == (if known then Idle else Preparing(version, old(stage)))
              && log == (if known then old(log) + [AnsweredReady(version, curCampaign.value)] else old(log))
              && (known ==> stage == old(stage))
      ensures preparedVer == old(preparedVer) && campaignId == old(campaignId) && retryCnt == old(retryCnt)
    {
      var st := stage;
      if campaign.Some? {
        curCampaign := campaign;
      }
      if st == UA_STATE_PREPARE_UPDATE_DONE {
        var preparedVersion := if curCampaign.Some? && campaignId == curCampaign then preparedVer else None;
        if preparedVersion == Some(version) {
          Note(AnsweredReady(version, curCampaign.value));
          return;
        }
      }
      stage := UA_STATE_PREPARE_UPDATE_STARTED;
      job := Preparing(version, st);
    }

    // The end of process_prepare_update for a package that is ready.
    method MarkPrepared()
      requires Valid() && job.Preparing?
      modifies this
      ensures Valid() && job == Idle && curCampaign == old(curCampaign) && stage == UA_STATE_PREPARE_UPDATE_DONE
      ensures retryCnt == 0 && log == old(log) + [Prepared(old(job).version, curCampaign)]
      ensures if curCampaign.Some? then preparedVer == Some(old(job).version) && campaignId == curCampaign
              else preparedVer == old(preparedVer) && campaignId == old(campaignId)
    {
      PreparedFits(stage, preparedVer, campaignId, curCampaign, cleanupOkAfterUpdate, job, log);
      log := log + [Prepared(job.version, curCampaign)];
      retryCnt := 0;
      if curCampaign.Some? {
        preparedVer, campaignId := Some(job.version), curCampaign;
      }
      stage, job := UA_STATE_PREPARE_UPDATE_DONE, Idle;
    }

    // The end of process_prepare_update; a preparation that fails brings the stage back.
    method EndPrepare(ready: bool)
      requires Valid() && job.Preparing?
      modifies this
      ensures Valid() && job == Idle && curCampaign == old(curCampaign)
      ensures stage == if ready then UA_STATE_PREPARE_UPDATE_DONE else old(job).before
      ensures retryCnt == if ready then 0 else old(retryCnt)
      ensures log == if ready then old(log) + [Prepared(old(job).version, curCampaign)] else old(log)
      ensures if ready && curCampaign.Some? then preparedVer == Some(old(job).version) && campaignId == curCampaign
              else preparedVer == old(preparedVer) && campaignId == old(campaignId)
    {
      if ready {
        MarkPrepared();
      } else {
        stage, job := job.before, Idle;
      }
    }

    // The prologue of process_ready_update. Without a campaign nothing would be forgotten, but then nothing is stored.
    method BeginUpdate(campaign: Option<string>)
      requires Valid() && job == Idle
      modifies this
      ensures Valid() && job == Updating && log == old(log) + [UpdateBegins] && preparedVer == None
      ensures curCampaign == if campaign.Some? then campaign else old(curCampaign)
      ensures campaignId == if curCampaign.Some? then curCampaign else old(campaignId)
    {
      if campaign.Some? {
        curCampaign := campaign;
      }
      if curCampaign.Some? {
        preparedVer, campaignId := None, curCampaign;
      }
      NoteBegin();
      stage, job := UA_STATE_READY_UPDATE_STARTED, Updating;
    }

    // process_ready_update for a message that cannot be parsed: its campaign has been taken over by then, and nothing
    // is released.
    method FailToParse(campaign: Option<string>)
      requires Valid() && job == Idle
      modifies this`curCampaign
      ensures Valid() && curCampaign == if campaign.Some? then campaign else old(curCampaign)
    {
      if campaign.Some? {
        curCampaign := campaign;
      }
    }

    // The stage after a ready-update, and the campaign under way released.
    method MarkDone() returns (deferred: bool)
      requires Valid() && job == Updating
      modifies this
      ensures Valid() && job == Idle && !cleanupOkAfterUpdate && curCampaign == None && campaignId == old(campaignId)
      ensures log == old(log) + [UpdateEnds] && stage == UA_STATE_READY_UPDATE_DONE
      ensures deferred == old(cleanupOkAfterUpdate)
    {
      Note(UpdateEnds);
      deferred := cleanupOkAfterUpdate;
      stage, job, cleanupOkAfterUpdate, curCampaign := UA_STATE_READY_UPDATE_DONE, Idle, false, None;
    }

    // The end of process_ready_update; a confirm-update that came in the meantime is carried out now.
    method EndUpdate()
      requires Valid() && job == Updating
      modifies this
      ensures Valid() && job == Idle && !cleanupOkAfterUpdate && curCampaign == None && campaignId == old(campaignId)
      ensures log == if old(cleanupOkAfterUpdate) then old(log) + [UpdateEnds] + [Cleanup] else old(log) + [UpdateEnds]
      ensures stage == if old(cleanupOkAfterUpdate) then UA_STATE_CONFIRM_UPDATE_DONE else UA_STATE_READY_UPDATE_DONE
    {
      var deferred := MarkDone();
      if deferred {
        Confirm();
      }
    }

    // process_confirm_update: it cleans up exactly when the worker does not prepare or update and there is something to
    // clean up; during an update it is remembered, at any other time it is dropped.
    method Confirm()
      requires Valid()
      modifies this`stage, this`cleanupOkAfterUpdate, this`retryCnt, this`log
      ensures Valid()
      ensures var allowed := job == Idle && Open(old(log));
              && log == (if allowed then old(log) + [Cleanup] else old(log))
              && retryCnt == (if allowed then 0 else old(retryCnt))
              && stage == (if allowed then UA_STATE_CONFIRM_UPDATE_DONE else old(stage))
              && cleanupOkAfterUpdate == (old(cleanupOkAfterUpdate) || job == Updating)
    {
      if !(stage == UA_STATE_READY_UPDATE_DONE || stage == UA_STATE_UNKNOWN) {
        if stage == UA_STATE_READY_UPDATE_STARTED {
          cleanupOkAfterUpdate := true;
        }
        return;
      }
      Note(Cleanup);
      retryCnt := 0;
      stage := UA_STATE_CONFIRM_UPDATE_DONE;
    }
  }

  // The messages of a run and the ends of the worker's jobs.
  datatype Step =
    | Prepare(version: string, campaign: Option<string>)
    | PrepareDone(ready: bool)
    | Ready(campaign: Option<string>)
    | ReadyDone
    | ReadyUnparsed(campaign: Option<string>)
    | ConfirmUpdate

  // ----- when the null pointer is reached, from the steps alone -----

  // What the worker does after some steps, as long as no campaign has been stored.
  datatype Work = Resting | AtPrepare | AtUpdate

  function NextWork(before: Work, s: Step): Work {
    match s
    case Prepare(_, _) => if before == Resting then AtPrepare else before
    case PrepareDone(_) => if before == AtPrepare then Resting else before
    case Ready(_) => if before == Resting then AtUpdate else before
    case ReadyDone => if before == AtUpdate then Resting else before
    case ReadyUnparsed(_) => before
    case ConfirmUpdate => before
  }

  function WorkAfter(steps: seq<Step>): Work {
    if steps == [] then Resting else NextWork(WorkAfter(steps[..|steps| - 1]), steps[|steps| - 1])
  }

  // A message that brings a campaign is taken.
  predicate TakesCampaign(before: Work, s: Step) {
    before == Resting && (s.Prepare? || s.Ready? || s.ReadyUnparsed?) && s.campaign.Some?
  }

  // Whether a campaign is under way after one more step: the end of a ready-update releases it.
  predicate StillUnderWay(before: Work, underWay: bool, s: Step) {
    TakesCampaign(before, s) || (underWay && !(s.ReadyDone? && before == AtUpdate))
  }

  predicate UnderWayAfter(steps: seq<Step>) {
    steps != [] &&
      var init, last := steps[..|steps| - 1], steps[|steps| - 1];
      StillUnderWay(WorkAfter(init), UnderWayAfter(init), last)
  }

  // A campaign is stored when a preparation ends well or a ready-update begins while one is under way.
  predicate Stores(before: Work, underWay: bool, s: Step) {
    || (s == PrepareDone(true) && before == AtPrepare && underWay)
    || (s.Ready? && before == Resting && (underWay || s.campaign.Some?))
  }

  predicate NoneStored(steps: seq<Step>) {
    steps != [] ==>
      var init, last := steps[..|steps| - 1], steps[|steps| - 1];
      NoneStored(init) && !Stores(WorkAfter(init), UnderWayAfter(init), last)
  }

  // Whether a preparation has ended well with no ready-update begun since, after one more step.
  predicate StillPrepared(before: Work, prepared: bool, s: Step) {
    || (s == PrepareDone(true) && before == AtPrepare)
    || (prepared && !(s.Ready? && before == Resting))
  }

  predicate PreparedAfter(steps: seq<Step>) {
    steps != [] &&
      var init, last := steps[..|steps| - 1], steps[|steps| - 1];
      StillPrepared(WorkAfter(init), PreparedAfter(init), last)
  }

  // A prepare-update is taken with a campaign of its own or one that is under way, at a stage that is prepared, and no
  // campaign has ever been stored.
  predicate NullAt(steps: seq<Step>, j: nat)
    requires j < |steps|
  {
    var before := steps[..j];
    && steps[j].Prepare? && (steps[j].campaign.Some? || UnderWayAfter(before))
    && WorkAfter(before) == Resting && PreparedAfter(before) && NoneStored(before)
  }

  // What the steps so far tell about the package.
  datatype Past = Past(noneStored: bool, work: Work, prepared: bool, underWay: bool)

  function PastOf(steps: seq<Step>): Past {
    Past(NoneStored(steps), WorkAfter(steps), PreparedAfter(steps), UnderWayAfter(steps))
  }

  function NextPast(b: Past, s: Step): Past {
    Past(b.noneStored && !Stores(b.work, b.underWay, s), NextWork(b.work, s), StillPrepared(b.work, b.prepared, s),
         StillUnderWay(b.work, b.underWay, s))
  }

  lemma PastAdd(steps: seq<Step>, i: nat)
    requires i < |steps|
    ensures PastOf(steps[..i + 1]) == NextPast(PastOf(steps[..i]), steps[i])
  {
    assert steps[..i + 1][..i] == steps[..i];
  }

  // The state of the package, as far as the null pointer is concerned.
  ghost predicate Tracks(p: Package, b: Past)
    reads p
  {
    var done := (if p.job.Preparing? then p.job.before else p.stage) == UA_STATE_PREPARE_UPDATE_DONE;
    if b.noneStored then
      && p.campaignId == p.preparedVer == None && (p.curCampaign.Some? <==> b.underWay)
      && b.work == (match p.job case Idle => Resting case Preparing(_, _) => AtPrepare case Updating => AtUpdate)
      && (done <==> b.prepared)
    else p.campaignId.Some?
  }

  // What every step does to the log.
  ghost predicate Logged(before: seq<Event>, log: seq<Event>) {
    AnswersBacked(log) && CleanupsApart(log) && (before != [] ==> log != [] && log[0] == before[0])
  }

  // A prepare-update is taken.
  method DoPrepare(p: Package, version: string, campaign: Option<string>, ghost b: Past) returns (nullPointer: bool)
    requires p.Valid() && Tracks(p, b) && p.job == Idle
    modifies p
    ensures nullPointer <==> (campaign.Some? || b.underWay) && b.work == Resting && b.prepared && b.noneStored
    ensures Logged(old(p.log), p.log)
    ensures !nullPointer ==> p.Valid() && Tracks(p, NextPast(b, Prepare(version, campaign)))
  {
    nullPointer := p.NullCampaign(campaign);
    if !nullPointer {
      p.BeginPrepare(version, campaign);
    }
  }

  // A job of the worker ends.
  method DoEnd(p: Package, s: Step, ghost b: Past)
    requires p.Valid() && Tracks(p, b) && (s.PrepareDone? || s.ReadyDone?)
    modifies p
    ensures Logged(old(p.log), p.log) && p.Valid() && Tracks(p, NextPast(b, s))
  {
    if s.PrepareDone? && p.job.Preparing? {
      p.EndPrepare(s.ready);
    } else if s.ReadyDone? && p.job == Updating {
      p.EndUpdate();
    }
  }

  // One step; the worker takes a job only when it is idle.
  method Do(p: Package, s: Step, ghost b: Past) returns (nullPointer: bool)
    requires p.Valid() && Tracks(p, b)
    modifies p
    ensures nullPointer <==>
              s.Prepare? && (s.campaign.Some? || b.underWay) && b.work == Resting && b.prepared && b.noneStored
    ensures Logged(old(p.log), p.log)
    ensures s.ConfirmUpdate? ==>
              p.log == if old(p.job) == Idle && Open(old(p.log)) then old(p.log) + [Cleanup] else old(p.log)
    ensures !nullPointer ==> p.Valid() && Tracks(p, NextPast(b, s))
  {
    nullPointer := false;
    match s
    case Prepare(version, campaign) =>
      if p.job == Idle {
        nullPointer := DoPrepare(p, version, campaign, b);
      }
    case Ready(campaign) =>
      if p.job == Idle {
        p.BeginUpdate(campaign);
      }
    case ReadyUnparsed(campaign) =>
      if p.job == Idle {
        p.FailToParse(campaign);
      }
    case ConfirmUpdate => p.Confirm();
    case _ => DoEnd(p, s, b);
  }

  // Every interleaving of messages and ends of jobs: a version is answered as ready without preparation only if it has
  // been prepared in the same campaign since the last ready-update began, and between two clean-ups an update has
  // ended. A confirm-update before anything else cleans up. When the run ends at a null pointer is said by the steps
  // alone.
  method Run(steps: seq<Step>) returns (log: seq<Event>, nullPointer: bool)
    ensures AnswersBacked(log) && CleanupsApart(log)
    ensures Count(log, Cleanup) <= Count(log, UpdateEnds) + 1
    ensures nullPointer <==> exists j :: 0 <= j < |steps| && NullAt(steps, j)
    ensures steps != [] && steps[0] == ConfirmUpdate ==> log != [] && log[0] == Cleanup
  {
    var p := new Package();
    nullPointer := false;
    var i := 0;
    while i < |steps| && !nullPointer
      invariant 0 <= i <= |steps| && fresh(p) && AnswersBacked(p.log) && CleanupsApart(p.log)
      invariant !nullPointer ==> p.Valid() && Tracks(p, PastOf(steps[..i]))
      invariant nullPointer <==> exists j :: 0 <= j < i && NullAt(steps, j)
      invariant i == 0 ==> p.log == [] && p.job == Idle
      invariant i > 0 && steps[0] == ConfirmUpdate ==> p.log != [] && p.log[0] == Cleanup
    {
      PastAdd(steps, i);
      nullPointer := Do(p, steps[i], PastOf(steps[..i]));
      assert nullPointer <==> NullAt(steps, i);
      i := i + 1;
    }
    log := p.log;
    CleanupsEarned(log);
  }

  // Two preparations, only the second with a campaign, end at the null pointer.
  method NullPointerReached(a: string, c: string) returns (reached: bool)
    ensures reached
  {
    var p := new Package();
    p.BeginPrepare(a, None);
    p.EndPrepare(true);
    reached := p.NullCampaign(Some(c));
  }

  // So do two without one, when a ready-update that cannot be parsed has left its campaign in between.
  method NullPointerLeftBehind(a: string, c: string) returns (reached: bool)
    ensures reached
  {
    var p := new Package();
    p.BeginPrepare(a, None);
    p.EndPrepare(true);
    p.FailToParse(Some(c));
    reached := p.NullCampaign(None);
  }
}
