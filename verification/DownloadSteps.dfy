// The step machine of src/ua_download.c around a download session, and any number of lives of the agent, each ended by
// a power loss at any file operation.
module DownloadSteps {
  import opened Common
  import opened Crc32
  import opened Journal
  import opened Storage
  import opened Download

  // What the world answers during one call of ua_dl_start_download: the length the manifest gives, the offset the
  // server goes back to at most, the deliveries of the session, each the length of a chunk, how much of it is saved and
  // how the transfer goes on, the server's final result, whether the downloaded file is copied and decrypted well, the
  // verification against each CA file, and how many completed reports are sent until the client stops them.
  datatype Plan = Plan(ok: bool, len: nat, written: nat, postponed: bool)
  datatype World = World(total: nat, offset: nat, plans: seq<Plan>, finalOk: bool, copied: bool, decrypts: bool,
                         verifies: seq<bool>, reports: nat)

  // ----- the order of events -----

  // The beginning of the content that the server has to deliver, or more of it, was decrypted.
  ghost predicate Taken(content: seq<bv8>, least: nat, e: Event) {
    e.Decrypted? && e.ok && e.input <= content && least <= |e.input|
  }

  ghost predicate Decided(content: seq<bv8>, least: nat, log: seq<Event>) {
    exists i :: 0 <= i < |log| && Taken(content, least, log[i])
  }

  // What was delivered has been decrypted and then verified.
  ghost predicate Earned(content: seq<bv8>, least: nat, log: seq<Event>) {
    exists i, j :: 0 <= i < j < |log| && Taken(content, least, log[i]) && log[j] == Verified(true)
  }

  ghost predicate CompletedEarned(content: seq<bv8>, least: nat, log: seq<Event>) {
    forall k :: 0 <= k < |log| && log[k] == Completed ==> Earned(content, least, log[..k])
  }

  lemma EarnedAdd(content: seq<bv8>, least: nat, log: seq<Event>, e: Event)
    requires CompletedEarned(content, least, log) && (e == Completed ==> Earned(content, least, log))
    ensures CompletedEarned(content, least, log + [e])
    ensures Decided(content, least, log) ==> Decided(content, least, log + [e])
    ensures Earned(content, least, log) ==> Earned(content, least, log + [e])
    ensures Taken(content, least, e) ==> Decided(content, least, log + [e])
    ensures Decided(content, least, log) && e == Verified(true) ==> Earned(content, least, log + [e])
  {
    var log' := log + [e];
    assert log'[|log|] == e;
    forall k | 0 <= k < |log'| && log'[k] == Completed ensures Earned(content, least, log'[..k]) {
      assert log'[..k] == log[..k];
      assert log[..|log|] == log;
    }
    if Decided(content, least, log) {
      var i :| 0 <= i < |log| && Taken(content, least, log[i]);
      assert log'[i] == log[i];
      assert e == Verified(true) ==> log'[|log|] == Verified(true);
    }
    if Earned(content, least, log) {
      var i, j :| 0 <= i < j < |log| && Taken(content, least, log[i]) && log[j] == Verified(true);
      assert log'[i] == log[i] && log'[j] == log[j];
    }
  }

  // With a server that ends no transfer well before all of it has come, a completed report means the whole content.
  lemma WholeEarned(content: seq<bv8>, log: seq<Event>, k: nat)
    requires CompletedEarned(content, |content|, log) && k < |log| && log[k] == Completed
    ensures exists i, j :: 0 <= i < j < k && log[i] == Decrypted(content, true) && log[j] == Verified(true)
  {
    var before := log[..k];
    assert Earned(content, |content|, before);
    var i, j :| 0 <= i < j < |before| && Taken(content, |content|, before[i]) && before[j] == Verified(true);
    assert log[i] == Decrypted(content, true) && log[j] == Verified(true);
  }

  // ----- the steps -----

  // The log after the verifications against the CA files in turn, up to the first good one.
  function Verifications(log: seq<Event>, verifies: seq<bool>): (r: seq<Event>)
    ensures |r| >= |log| && (log != [] ==> r[0] == log[0])
    decreases |verifies|
  {
    if verifies == [] then log
    else if verifies[0] then log + [Verified(true)]
    else Verifications(log + [Verified(false)], verifies[1..])
  }

  // One event for each CA file up to and including the first that verifies the package, and only that one is good.
  lemma {:induction false} VerificationsAre(log: seq<Event>, verifies: seq<bool>, k: nat)
    requires k <= |verifies| && (forall i :: 0 <= i < k ==> !verifies[i]) && (k < |verifies| ==> verifies[k])
    ensures var after := Verifications(log, verifies);
            && |after| == |log| + (if k < |verifies| then k + 1 else k) && after[..|log|] == log
            && (forall i :: |log| <= i < |after| ==> after[i] == Verified(i == |log| + k))
    decreases |verifies|
  {
    if verifies != [] && !verifies[0] {
      VerificationsAre(log + [Verified(false)], verifies[1..], k - 1);
      assert Verifications(log, verifies)[..|log| + 1][..|log|] == log;
    }
  }

  function Completions(log: seq<Event>, reports: nat): (r: seq<Event>)
    ensures |r| >= |log| && (log != [] ==> r[0] == log[0])
    decreases reports
  {
    if reports == 0 then log else Completions(log + [Completed], reports - 1)
  }

  function FromEncrypted(log: seq<Event>, w: World): seq<Event> {
    if true in w.verifies then Completions(Verifications(log, w.verifies), w.reports)
    else Verifications(log, w.verifies)
  }

  // The log after the steps from this one on, with this downloaded file.
  function Remaining(log: seq<Event>, step: int, data: Option<seq<bv8>>, w: World): seq<Event> {
    if step == STEP_DOWNLOADED then
      if !w.copied || data.None? then log
      else if !w.decrypts then log + [Decrypted(data.value, false)]
      else FromEncrypted(log + [Decrypted(data.value, true)], w)
    else if step == STEP_ENCRYPTED then FromEncrypted(log, w)
    else if step <= STEP_DONE then Completions(log, w.reports)
    else log
  }

  // All of them end well.
  predicate Passes(step: int, data: Option<seq<bv8>>, w: World) {
    && step <= STEP_DONE
    && (step == STEP_DOWNLOADED ==> w.copied && data.Some? && w.decrypts)
    && (step <= STEP_ENCRYPTED ==> true in w.verifies)
  }

  // Each step starts from this: a step from "downloaded" on has the record of a finished download.
  ghost predicate Ready(dlc: Context)
    reads dlc, dlc.files
  {
    && dlc.Safe() && CompletedEarned(dlc.content, dlc.least, dlc.log)
    && Honest(dlc.content, dlc.least, dlc.rec)
    && (dlc.rec.step == STEP_DOWNLOADED ==> dlc.least <= |Bytes(DiskOf(dlc.files))|)
    && (dlc.rec.step == STEP_ENCRYPTED ==> Decided(dlc.content, dlc.least, dlc.log))
    && (dlc.rec.step >= STEP_VERIFIED ==> Earned(dlc.content, dlc.least, dlc.log))
  }

  lemma SavedSound(content: seq<bv8>, least: nat, d: Disk, r: Record)
    requires Sound(content, least, d) && Honest(content, least, r)
    ensures Sound(content, least, Disk(d.data, Some([r]))) && Sound(content, least, Disk(d.data, Some([])))
    ensures Sound(content, least, Disk(None, d.recs))
  {
  }

  // ua_dl_save_dl_rc with a new step
  method SaveStep(dlc: Context, step: int)
    requires dlc.files.on && dlc.Safe() && Honest(dlc.content, dlc.least, dlc.rec) && dlc.rec.step >= STEP_DOWNLOADED
    requires step >= STEP_DOWNLOADED
    modifies dlc`rec, dlc.files
    ensures dlc.Safe() && Honest(dlc.content, dlc.least, dlc.rec) && dlc.rec.step == step
    ensures dlc.files.data == old(dlc.files.data)
    ensures dlc.files.on <==> old(dlc.files.power) >= 2
    ensures dlc.files.on ==> dlc.files.power == old(dlc.files.power) - 2
  {
    SavedSound(dlc.content, dlc.least, DiskOf(dlc.files), dlc.rec.(step := step));
    dlc.rec := dlc.rec.(step := step);
    dlc.files.SaveRecord(dlc.rec);
  }

  // ua_dl_step_encrypt: the data file is copied and the copy decrypted.
  method StepEncrypt(dlc: Context, copied: bool, decrypts: bool) returns (ok: bool)
    requires dlc.files.on && Ready(dlc) && dlc.rec.step == STEP_DOWNLOADED
    modifies dlc, dlc.files
    ensures dlc.Safe() && CompletedEarned(dlc.content, dlc.least, dlc.log)
    ensures ok && dlc.files.on ==> Ready(dlc) && dlc.rec.step == STEP_ENCRYPTED
    ensures dlc.files.on ==> (ok <==> copied && decrypts && old(dlc.files.data).Some?)
    ensures dlc.log == old(dlc.log)
              + if copied && old(dlc.files.data).Some? then [Decrypted(old(dlc.files.data).value, decrypts)] else []
    ensures old(dlc.files.power) >= 2 ==> dlc.files.on && dlc.files.power >= old(dlc.files.power) - 2
    ensures dlc.log == old(dlc.log) ==> DiskOf(dlc.files) == old(DiskOf(dlc.files))
    ensures copied && old(dlc.files.data).Some? && !decrypts ==> dlc.otherReports == old(dlc.otherReports) + 1
  {
    if !copied || dlc.files.data.None? {
      return false;
    }
    EarnedAdd(dlc.content, dlc.least, dlc.log, Decrypted(dlc.files.data.value, decrypts));
    dlc.log := dlc.log + [Decrypted(dlc.files.data.value, decrypts)];
    if !decrypts {
      dlc.SendReport(false);
      return false;
    }
    SaveStep(dlc, STEP_ENCRYPTED);
    ok := true;
  }

  // The CA files in turn, up to the first that verifies the package.
  method VerifyBinary(dlc: Context, verifies: seq<bool>) returns (ok: bool)
    requires CompletedEarned(dlc.content, dlc.least, dlc.log) && Decided(dlc.content, dlc.least, dlc.log)
    modifies dlc`log
    ensures CompletedEarned(dlc.content, dlc.least, dlc.log) && (ok ==> Earned(dlc.content, dlc.least, dlc.log))
    ensures ok <==> true in verifies
    ensures dlc.log == Verifications(old(dlc.log), verifies)
  {
    ok := false;
    for i := 0 to |verifies|
      invariant CompletedEarned(dlc.content, dlc.least, dlc.log) && Decided(dlc.content, dlc.least, dlc.log)
      invariant !ok && true !in verifies[..i]
      invariant Verifications(old(dlc.log), verifies) == Verifications(dlc.log, verifies[i..])
    {
      EarnedAdd(dlc.content, dlc.least, dlc.log, Verified(verifies[i]));
      dlc.log := dlc.log + [Verified(verifies[i])];
      assert verifies[i..][1..] == verifies[i + 1..];
      if verifies[i] {
        ok := true;
        return;
      }
    }
  }

  // ua_dl_step_verify; the data file is removed whatever the result.
  method StepVerify(dlc: Context, verifies: seq<bool>) returns (ok: bool)
    requires dlc.files.on && Ready(dlc) && dlc.rec.step == STEP_ENCRYPTED
    modifies dlc, dlc.files
    ensures dlc.Safe() && CompletedEarned(dlc.content, dlc.least, dlc.log)
    ensures ok && dlc.files.on ==> Ready(dlc) && dlc.rec.step == STEP_VERIFIED
    ensures dlc.files.on ==> (ok <==> true in verifies) && dlc.files.data == None
    ensures dlc.log == Verifications(old(dlc.log), verifies)
    ensures true !in verifies ==> dlc.otherReports == old(dlc.otherReports) + 1
    ensures old(dlc.files.power) >= 3 ==> dlc.files.on && dlc.files.power >= old(dlc.files.power) - 3
  {
    ok := VerifyBinary(dlc, verifies);
    if ok {
      SaveStep(dlc, STEP_VERIFIED);
    } else {
      dlc.SendReport(false);
    }
    if dlc.files.on {
      SavedSound(dlc.content, dlc.least, DiskOf(dlc.files), dlc.rec);
      dlc.files.RemoveData();
    }
  }

  // ua_dl_step_done
  method StepDone(dlc: Context)
    requires Ready(dlc) && dlc.rec.step >= STEP_VERIFIED
    modifies dlc`downloaded, dlc`completed, dlc`log, dlc`otherReports
    ensures Ready(dlc) && dlc.log == old(dlc.log) + [Completed]
  {
    EarnedAdd(dlc.content, dlc.least, dlc.log, Completed);
    dlc.downloaded, dlc.completed := dlc.rec.bytesWritten, true;
    dlc.SendReport(true);
  }

  // ua_dl_step_action at "verified": the completed report is repeated until the client stops it.
  method ActVerified(dlc: Context, reports: nat)
    requires Ready(dlc) && dlc.rec.step >= STEP_VERIFIED
    modifies dlc
    ensures Ready(dlc) && dlc.rec == old(dlc.rec) && dlc.log == Completions(old(dlc.log), reports)
    decreases reports
  {
    if reports > 0 {
      StepDone(dlc);
      ActVerified(dlc, reports - 1);
    }
  }

  // ua_dl_step_action at "encrypted"
  method ActEncrypted(dlc: Context, w: World) returns (ok: bool)
    requires dlc.files.on && Ready(dlc) && dlc.rec.step == STEP_ENCRYPTED
    modifies dlc, dlc.files
    ensures dlc.Safe() && CompletedEarned(dlc.content, dlc.least, dlc.log)
    ensures ok && dlc.files.on ==> Earned(dlc.content, dlc.least, dlc.log)
    ensures old(dlc.files.power) >= 3 ==> dlc.files.on
    ensures |dlc.log| >= |old(dlc.log)|
    ensures dlc.files.on ==> dlc.log == FromEncrypted(old(dlc.log), w) && (ok <==> true in w.verifies)
  {
    ok := StepVerify(dlc, w.verifies);
    if ok && dlc.files.on {
      ActVerified(dlc, w.reports);
    }
  }

  // ua_dl_step_action from "downloaded" on
  method StepAction(dlc: Context, w: World) returns (ok: bool)
    requires dlc.files.on && Ready(dlc) && dlc.rec.step >= STEP_DOWNLOADED
    modifies dlc, dlc.files
    ensures dlc.Safe() && CompletedEarned(dlc.content, dlc.least, dlc.log)
    ensures ok && dlc.files.on ==> Earned(dlc.content, dlc.least, dlc.log)
    ensures old(dlc.files.power) >= 5 ==> dlc.files.on
    ensures dlc.files.on ==> dlc.log == Remaining(old(dlc.log), old(dlc.rec.step), old(dlc.files.data), w)
    ensures dlc.files.on ==> (ok <==> Passes(old(dlc.rec.step), old(dlc.files.data), w))
    ensures old(dlc.rec.step) == STEP_DOWNLOADED && dlc.log == old(dlc.log) ==>
              DiskOf(dlc.files) == old(DiskOf(dlc.files))
  {
    if dlc.rec.step == STEP_DOWNLOADED {
      ok := StepEncrypt(dlc, w.copied, w.decrypts);
      if ok && dlc.files.on {
        ok := ActEncrypted(dlc, w);
      }
    } else if dlc.rec.step == STEP_ENCRYPTED {
      ok := ActEncrypted(dlc, w);
    } else if dlc.rec.step <= STEP_DONE {
      ActVerified(dlc, w.reports);
      ok := true;
    } else {
      ok := false;
    }
  }

  // ----- whole calls and whole lives -----

  // The deliveries of a session: each plan cuts the next chunk off the content.
  function Deliver(content: seq<bv8>, pos: nat, plans: seq<Plan>): (dls: seq<Delivery>)
    requires pos <= |content|
    ensures |dls| == |plans|
    decreases |plans|
  {
    if plans == [] then []
    else
      var n := if plans[0].len <= |content| - pos then plans[0].len else |content| - pos;
      var written := if plans[0].written <= n then plans[0].written else n;
      [Delivery(plans[0].ok, content[pos..pos + n], written, plans[0].postponed)]
      + Deliver(content, pos + n, plans[1..])
  }

  lemma {:induction false} BoundFirst(start: nat, dls: seq<Delivery>, k: nat)
    requires 1 <= k <= |dls|
    ensures Bound(start, dls, k) == Bound(start + |dls[0].chunk|, dls[1..], k - 1)
    decreases k
  {
    if k > 1 {
      BoundFirst(start, dls, k - 1);
    }
  }

  lemma {:induction false} DeliverContinues(content: seq<bv8>, pos: nat, plans: seq<Plan>, k: nat)
    requires pos <= |content| && k < |plans|
    ensures Continues(content, pos, Deliver(content, pos, plans), k)
    decreases |plans|
  {
    var dls := Deliver(content, pos, plans);
    if k > 0 {
      var next := pos + |dls[0].chunk|;
      DeliverContinues(content, next, plans[1..], k - 1);
      BoundFirst(pos, dls, k);
      assert dls[1..] == Deliver(content, next, plans[1..]) && dls[k] == dls[1..][k - 1];
    }
  }

  lemma DeliverServes(content: seq<bv8>, pos: nat, plans: seq<Plan>)
    requires pos <= |content|
    ensures Serves(content, pos, Deliver(content, pos, plans))
  {
    forall k | 0 <= k < |plans| ensures Continues(content, pos, Deliver(content, pos, plans), k) {
      DeliverContinues(content, pos, plans, k);
    }
  }

  function OffsetOf(w: World, r: Record): nat {
    if w.offset <= r.bytesWritten then w.offset else r.bytesWritten
  }

  function DeliveriesOf(content: seq<bv8>, w: World, r: Record): (dls: seq<Delivery>)
    requires r.bytesWritten <= |content|
    ensures |dls| == |w.plans|
  {
    Deliver(content, if w.plans == [] then r.bytesWritten else OffsetOf(w, r), w.plans)
  }

  // How many bytes there are when the session of this server ends.
  function Delivered(content: seq<bv8>, w: World, r: Record): nat
    requires r.bytesWritten <= |content|
  {
    var dls := DeliveriesOf(content, w, r);
    Bound(Start(r, OffsetOf(w, r), dls), dls, |dls|)
  }

  // The transfer ends well.
  predicate EndsWell(content: seq<bv8>, w: World, r: Record, least: nat)
    requires r.bytesWritten <= |content|
  {
    SessionSucceeds(r, OffsetOf(w, r), DeliveriesOf(content, w, r), w.finalOk && least <= Delivered(content, w, r))
  }

  // What the session of a call leaves for the next restart, by how long the power lasts from its beginning.
  ghost predicate SessionKeeps(content: seq<bv8>, least: nat, w: World, r: Record, power: nat, d: Disk)
    requires r.bytesWritten <= |content|
  {
    var dls, offset := DeliveriesOf(content, w, r), OffsetOf(w, r);
    if power < TransferCost(r, offset, dls) + 2 then SessionLeaves(d, r, offset, dls, power)
    else if EndsWell(content, w, r, least) then
      && Recovered(d).bytesWritten == Delivered(content, w, r)
      && (Delivered(content, w, r) > 0 ==> Recovered(d).step == STEP_DOWNLOADED)
    else Recovered(d).bytesWritten == Back(Start(r, offset, dls), dls, SessionRecords(r, offset, dls))
  }

  // The session of ua_dl_start_download with the given server, which ends no transfer well before least bytes have
  // come.
  method Session(dlc: Context, content: seq<bv8>, least: nat, w: World) returns (ok: bool)
    requires content == dlc.content && least == dlc.least && |content| < 0x8000_0000
    requires dlc.files.on && dlc.Safe() && HasRecs(dlc.files)
    requires Consistent(content, least, dlc.rec, Bytes(DiskOf(dlc.files))) && Recovered(DiskOf(dlc.files)) == dlc.rec
    requires dlc.rec.step == STEP_NONE && dlc.downloaded == dlc.rec.bytesWritten
    modifies dlc, dlc.files
    ensures dlc.Safe() && dlc.log == old(dlc.log)
    ensures SessionKeeps(content, least, w, old(dlc.rec), old(dlc.files.power), DiskOf(dlc.files))
    ensures dlc.files.on ==> (ok <==> EndsWell(content, w, old(dlc.rec), least))
    ensures ok && dlc.files.on ==> Consistent(content, least, dlc.rec, Bytes(DiskOf(dlc.files)))
    ensures ok && dlc.files.on ==>
              dlc.rec.step == STEP_DOWNLOADED && dlc.rec.bytesWritten == Delivered(content, w, old(dlc.rec))
    ensures EndsWell(content, w, old(dlc.rec), least) && old(dlc.files.power) >= 3 * |w.plans| + 5 ==>
              dlc.files.on && dlc.files.power >= old(dlc.files.power) - 3 * |w.plans| - 5
  {
    BeginsJournaled(content, least, DiskOf(dlc.files));
    var offset := OffsetOf(w, dlc.rec);
    var dls := DeliveriesOf(content, w, dlc.rec);
    var start := Start(dlc.rec, offset, dls);
    DeliverServes(content, start, w.plans);
    CostBounded(offset < dlc.rec.bytesWritten, offset, dls, 0);
    ok := dlc.StepDownload(offset, dls, w.finalOk && least <= Bound(start, dls, |dls|));
  }

  lemma ConsistentReady(content: seq<bv8>, least: nat, r: Record, data: seq<bv8>)
    requires Consistent(content, least, r, data)
    ensures Honest(content, least, r) && r.step < STEP_ENCRYPTED && data == content[..r.bytesWritten]
  {
    assert data == content[..r.bytesWritten];
  }

  // The steps of ua_dl_start_download after a session or a restart that has the whole download.
  method Conclude(dlc: Context, ghost content: seq<bv8>, ghost least: nat, w: World) returns (ok: bool)
    requires dlc.files.on && dlc.content == content && dlc.least == least && dlc.Safe() && dlc.log == []
    requires Consistent(content, least, dlc.rec, Bytes(DiskOf(dlc.files))) && dlc.rec.step == STEP_DOWNLOADED
    modifies dlc, dlc.files
    ensures dlc.Safe() && CompletedEarned(content, least, dlc.log)
    ensures ok && dlc.files.on ==> Earned(content, least, dlc.log)
    ensures old(dlc.files.power) >= 5 ==> dlc.files.on
    ensures dlc.files.on && |old(Bytes(DiskOf(dlc.files)))| > 0 ==>
              Fetched(content, old(dlc.rec.bytesWritten), w, ok, dlc.log)
    ensures dlc.log == [] ==> DiskOf(dlc.files) == old(DiskOf(dlc.files))
  {
    ConsistentReady(content, least, dlc.rec, Bytes(DiskOf(dlc.files)));
    ok := StepAction(dlc, w);
  }

  // How many bytes there are at the end of the session, or without one if the stored record is that of a finished
  // download.
  function Arrived(content: seq<bv8>, w: World, r: Record): nat
    requires r.bytesWritten <= |content|
  {
    if r.step == STEP_NONE then Delivered(content, w, r) else r.bytesWritten
  }

  // How many file operations the session takes at most; there is none if the download is finished already.
  function SessionAtMost(w: World, r: Record): nat {
    if r.step == STEP_NONE then 3 * |w.plans| + 5 else 0
  }

  // The transfer ends well, unless the download is finished already, and there is at least one byte.
  ghost predicate Fetches(content: seq<bv8>, least: nat, w: World, r: Record) {
    && r.bytesWritten <= |content| && r.step >= STEP_NONE && (r.step == STEP_NONE ==> EndsWell(content, w, r, least))
    && Arrived(content, w, r) > 0
  }

  // Then, if the power lasts, what has come is decrypted and verified and reported as completed, whatever part of the
  // content it is.
  ghost predicate Fetched(content: seq<bv8>, n: nat, w: World, ok: bool, log: seq<Event>) {
    && n <= |content|
    && log == Remaining([], STEP_DOWNLOADED, Some(content[..n]), w)
    && (ok <==> Passes(STEP_DOWNLOADED, Some([]), w))
  }

  lemma {:induction false} CompletionsHave(log: seq<Event>, reports: nat, e: Event)
    ensures e in Completions(log, reports) <==> e in log || (reports > 0 && e == Completed)
    decreases reports
  {
    if reports > 0 {
      CompletionsHave(log + [Completed], reports - 1, e);
    }
  }

  lemma {:induction false} VerificationsHave(log: seq<Event>, verifies: seq<bool>, e: Event)
    requires !e.Verified?
    ensures e in Verifications(log, verifies) <==> e in log
    decreases |verifies|
  {
    if verifies != [] && !verifies[0] {
      VerificationsHave(log + [Verified(false)], verifies[1..], e);
    }
  }

  // A completed report is then sent if and only if all steps pass, and it covers the whole content if and only if all
  // of it has come.
  lemma WholeIff(content: seq<bv8>, n: nat, w: World, ok: bool, log: seq<Event>)
    requires Fetched(content, n, w, ok, log) && w.reports > 0
    ensures Completed in log <==> ok
    ensures ok ==> (Decrypted(content, true) in log <==> n == |content|)
  {
    if w.copied && w.decrypts {
      var begun := [Decrypted(content[..n], true)];
      VerificationsHave(begun, w.verifies, Completed);
      VerificationsHave(begun, w.verifies, Decrypted(content, true));
      var verified := Verifications(begun, w.verifies);
      CompletionsHave(verified, w.reports, Completed);
      CompletionsHave(verified, w.reports, Decrypted(content, true));
      assert log == FromEncrypted([] + begun, w) && [] + begun == begun;
      assert Decrypted(content, true) in begun <==> content[..n] == content;
      assert content[..n] == content <==> n == |content|;
    }
  }

  // What a call leaves for the next restart after recovery, unless it has come to decrypt what it had.
  ghost predicate ProceedKeeps(content: seq<bv8>, least: nat, w: World, r: Record, power: nat, d: Disk)
    requires r.bytesWritten <= |content|
  {
    if r.step == STEP_NONE then SessionKeeps(content, least, w, r, power, d) else Recovered(d) == r
  }

  // The same for a whole call.
  ghost predicate CallKeeps(content: seq<bv8>, least: nat, w: World, d: Disk, power: nat, d': Disk) {
    var r := Recovered(d);
    if power < InitCost(d) || r.bytesWritten > |content| then RestartsAs(d', r)
    else ProceedKeeps(content, least, w, r, power - InitCost(d), d')
  }

  lemma CallKept(content: seq<bv8>, least: nat, w: World, d: Disk, power: nat, r: Record, left: nat, d': Disk)
    requires r == Recovered(d) && r.bytesWritten <= |content| && power == InitCost(d) + left
    requires ProceedKeeps(content, least, w, r, left, d')
    ensures CallKeeps(content, least, w, d, power, d')
  {
  }

  // The part of ua_dl_start_download after recovery: the session, unless there is a finished download, and the steps.
  method Proceed(dlc: Context, content: seq<bv8>, least: nat, w: World) returns (ok: bool)
    requires content == dlc.content && least == dlc.least && |content| < 0x8000_0000 && dlc.log == []
    requires dlc.files.on && dlc.Safe() && HasRecs(dlc.files)
    requires Consistent(content, least, dlc.rec, Bytes(DiskOf(dlc.files))) && Recovered(DiskOf(dlc.files)) == dlc.rec
    requires dlc.downloaded == dlc.rec.bytesWritten
    modifies dlc, dlc.files
    ensures dlc.Safe() && CompletedEarned(content, least, dlc.log)
    ensures ok && dlc.files.on ==> Earned(content, least, dlc.log)
    ensures Fetches(content, least, w, old(dlc.rec)) && old(dlc.files.power) >= SessionAtMost(w, old(dlc.rec)) + 5 ==>
              Fetched(content, Arrived(content, w, old(dlc.rec)), w, ok, dlc.log)
    ensures dlc.log == [] ==>
              ProceedKeeps(content, least, w, old(dlc.rec), old(dlc.files.power), DiskOf(dlc.files))
  {
    ok := false;
    if dlc.rec.step == STEP_NONE {
      ok := Session(dlc, content, least, w);
      if ok && dlc.files.on {
        ok := Conclude(dlc, content, least, w);
      }
    } else if dlc.rec.step > STEP_NONE {
      ok := Conclude(dlc, content, least, w);
    }
  }

  // ua_dl_start_download: recovery, the session, and the steps after it.
  method StartDownload(files: Files, content: seq<bv8>, least: nat, w: World) returns (ok: bool, dlc: Context)
    requires files.on && Sound(content, least, DiskOf(files)) && |content| < 0x8000_0000
    modifies files
    ensures Sound(content, least, DiskOf(files)) && CompletedEarned(content, least, dlc.log)
    ensures ok && files.on ==> Earned(content, least, dlc.log)
    ensures var r := Recovered(old(DiskOf(files)));
            Fetches(content, least, w, r) && old(files.power) >= SessionAtMost(w, r) + 9 ==>
              Fetched(content, Arrived(content, w, r), w, ok, dlc.log)
    ensures dlc.log == [] ==> CallKeeps(content, least, w, old(DiskOf(files)), old(files.power), DiskOf(files))
  {
    ok := false;
    dlc := new Context(files, w.total, content, least);
    ghost var d, power := DiskOf(files), files.power;
    dlc.Init();
    if files.on {
      ghost var r, left := dlc.rec, files.power;
      ok := Proceed(dlc, content, least, w);
      if dlc.log == [] {
        CallKept(content, least, w, d, power, r, left, DiskOf(files));
      }
    }
  }

  // One life of the agent: how long its power lasts, and how much of an interrupted append arrives.
  datatype Life = Life(power: nat, torn: nat, world: World)

  // What a life leaves: a sound disk, so the next restart finds a consistent state; a completed report was sent only
  // after what the server delivered had been decrypted and then verified; and as long as nothing has been decrypted,
  // the next restart has what this one had, up to the chunks that a power loss costs.
  ghost predicate Lived(content: seq<bv8>, least: nat, life: Life, d: Disk, d': Disk, log: seq<Event>) {
    && Sound(content, least, d') && Consistent(content, least, Recovered(d'), Kept(d'))
    && CompletedEarned(content, least, log)
    && (log == [] ==> CallKeeps(content, least, life.world, d, life.power, d'))
  }

  method Live(d: Disk, content: seq<bv8>, least: nat, life: Life) returns (d': Disk, log: seq<Event>)
    requires Sound(content, least, d) && |content| < 0x8000_0000
    ensures Lived(content, least, life, d, d', log)
    ensures var r := Recovered(d);
            Fetches(content, least, life.world, r) && life.power >= SessionAtMost(life.world, r) + 9 ==>
              exists ok :: Fetched(content, Arrived(content, life.world, r), life.world, ok, log)
  {
    var files := new Files(d, life.power, life.torn);
    var ok, dlc := StartDownload(files, content, least, life.world);
    d', log := Disk(files.data, files.recs), dlc.log;
    RestartConsistent(content, least, d');
  }

  lemma KeptFinished(content: seq<bv8>, least: nat, w: World, d: Disk, power: nat, d': Disk)
    requires CallKeeps(content, least, w, d, power, d')
    requires Recovered(d).step == STEP_NONE && Recovered(d).bytesWritten <= |content|
    requires EndsWell(content, w, Recovered(d), least) && Delivered(content, w, Recovered(d)) > 0
    requires power >= InitCost(d) + SessionAtMost(w, Recovered(d))
    ensures Recovered(d').bytesWritten == Delivered(content, w, Recovered(d)) && Recovered(d').step == STEP_DOWNLOADED
  {
    var r := Recovered(d);
    CostBounded(OffsetOf(w, r) < r.bytesWritten, OffsetOf(w, r), DeliveriesOf(content, w, r), 0);
  }

  lemma FirstDecrypts(content: seq<bv8>, n: nat, w: World, ok: bool, log: seq<Event>)
    requires Fetched(content, n, w, ok, log) && w.copied
    ensures log != [] && log[0] == Decrypted(content[..n], w.decrypts)
  {
  }

  // A session that ended well is not repeated: if the power goes before anything has been decrypted, the next call
  // begins with decrypting what had come, whatever the server would deliver this time.
  method FinishedStays(d0: Disk, content: seq<bv8>, least: nat, first: Life, second: Life)
    returns (log1: seq<Event>, log2: seq<Event>)
    requires Sound(content, least, d0) && |content| < 0x8000_0000
    requires Recovered(d0).step == STEP_NONE && Recovered(d0).bytesWritten <= |content|
    requires EndsWell(content, first.world, Recovered(d0), least) && Delivered(content, first.world, Recovered(d0)) > 0
    requires first.power >= InitCost(d0) + SessionAtMost(first.world, Recovered(d0)) && second.power >= 9
    ensures log1 == [] && second.world.copied ==>
              var n := Delivered(content, first.world, Recovered(d0));
              n <= |content| && log2 != [] && log2[0] == Decrypted(content[..n], second.world.decrypts)
  {
    var d1, d2;
    d1, log1 := Live(d0, content, least, first);
    d2, log2 := Live(d1, content, least, second);
    if log1 == [] && second.world.copied {
      KeptFinished(content, least, first.world, d0, first.power, d1);
      ghost var n := Recovered(d1).bytesWritten;
      ghost var ok :| Fetched(content, n, second.world, ok, log2);
      FirstDecrypts(content, n, second.world, ok, log2);
    }
  }

  // Any number of lives. For least 0 the server may end a transfer well whenever it likes, and for the length of the
  // content it never ends one early.
  method Lives(d0: Disk, content: seq<bv8>, least: nat, lives: seq<Life>)
    returns (disks: seq<Disk>, logs: seq<seq<Event>>)
    requires Sound(content, least, d0) && |content| < 0x8000_0000
    ensures |disks| == |lives| + 1 && disks[0] == d0 && |logs| == |lives|
    ensures forall i :: 0 <= i < |lives| ==> Lived(content, least, lives[i], disks[i], disks[i + 1], logs[i])
  {
    disks, logs := [d0], [];
    for i := 0 to |lives|
      invariant |disks| == i + 1 && disks[0] == d0 && |logs| == i && Sound(content, least, disks[i])
      invariant forall j :: 0 <= j < i ==> Lived(content, least, lives[j], disks[j], disks[j + 1], logs[j])
    {
      var d, log := Live(disks[i], content, least, lives[i]);
      disks, logs := disks + [d], logs + [log];
    }
  }

  // So the code reports a proper part of the content as completed, if the server ends a transfer well before the rest.
  method EarlyEnds() returns (ok: bool, log: seq<Event>)
    ensures ok && log == [Decrypted([1], true), Verified(true), Completed]
  {
    var files := new Files(Disk(None, None), 17, 0);
    var w := World(2, 0, [Plan(true, 1, 1, false)], true, true, true, [true], 1);
    assert TWO[..0 + 1] == [1];
    assert Deliver(TWO, 1, []) == [];
    assert DeliveriesOf(TWO, w, INIT) == [Delivery(true, [1], 1, false)];
    assert Delivered(TWO, w, INIT) == 1;
    var dlc;
    ok, dlc := StartDownload(files, TWO, 0, w);
    log := dlc.log;
    assert Completions([Decrypted([1], true), Verified(true)], 1) == [Decrypted([1], true), Verified(true), Completed];
  }
}
