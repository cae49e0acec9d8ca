// A download session of src/ua_download.c: recovery, the receive callback, and the steps up to a verified package.
module Download {
  import opened Common
  import opened Crc32
  import opened Journal
  import opened Storage

  const UA_DL_REPORT_BLK_SIZE := 512 * 1024

  // What decides about the package or says that it is complete, in order: a decryption, a verification, and a download
  // report whose completed-download property is true.
  datatype Event = Decrypted(input: seq<bv8>, ok: bool) | Verified(ok: bool) | Completed

  // One call of the receive callback: the transfer's result, its chunk, how many bytes of it the file system takes,
  // and whether the download is being postponed.
  datatype Delivery = Delivery(ok: bool, chunk: seq<bv8>, written: nat, postponed: bool)

  lemma NextBlock(data: seq<bv8>, pos: nat, n: nat)
    requires pos + n <= |data|
    ensures Crc(0, data[..pos + n]) == Crc(Crc(0, data[..pos]), data[pos..pos + n])
  {
    assert data[..pos + n] == data[..pos] + data[pos..pos + n];
    CrcConcat(0, data[..pos], data[pos..pos + n]);
  }

  // ua_dl_calc_file_crc32
  method CalcFileCrc32(data: seq<bv8>, len: int) returns (r: Option<bv32>)
    ensures r == FileCrc(data, len)
  {
    if len <= 0 {
      return None;
    }
    var remain, pos, crc := len, 0, 0 as bv32;
    while remain > 0
      invariant 0 <= pos <= |data| && remain >= 0 && pos + remain == len
      invariant crc == Crc(0, data[..pos])
    {
      var readLen := if remain <= 1024 then remain else 1024;
      remain := remain - readLen;
      if pos + readLen > |data| {
        return None;
      }
      NextBlock(data, pos, readLen);
      crc := BufCrc32(data[pos..pos + readLen], crc);
      pos := pos + readLen;
    }
    r := Some(crc);
  }

  predicate HasRecs(f: Files)
    reads f
  {
    f.recs.Some? && f.recs.value != []
  }

  ghost function DiskOf(f: Files): Disk
    reads f
  {
    Disk(f.data, f.recs)
  }

  // ----- what a power loss may leave -----

  // A restart resumes at lo bytes or more, unless the record file was just being written.
  ghost predicate Within(d: Disk, lo: nat) {
    d.recs == Some([]) || Recovered(d).bytesWritten >= lo
  }

  // A restart has the record r, unless the record file was just being written.
  ghost predicate RestartsAs(d: Disk, r: Record) {
    d.recs == Some([]) || Recovered(d) == r
  }

  // In the begun-th callback of a session a restart resumes after chunk begun - 2 or later, unless the record file was
  // just being written.
  ghost predicate LosesTwo(d: Disk, start: nat, dls: seq<Delivery>, begun: nat)
    requires begun <= |dls|
  {
    Within(d, Bound(start, dls, if begun >= 2 then begun - 2 else 0))
  }

  // What a power loss leaves: after the data file has been cut to a smaller offset and before the record for that
  // offset is saved, the record is beyond the data file.
  ghost predicate Left(d: Disk, start: nat, dls: seq<Delivery>, begun: nat, window: bool)
    requires begun <= |dls|
  {
    if window then Stale(d) else LosesTwo(d, start, dls, begun)
  }

  // ----- sessions -----

  // The chunk of this delivery is saved and recorded.
  predicate Saves(dl: Delivery) {
    dl.ok && |dl.chunk| > 0 && dl.written == |dl.chunk|
  }

  // The chunk is saved and the transfer goes on.
  predicate GoesOn(dl: Delivery) {
    Saves(dl) && !dl.postponed
  }

  // How many chunks of a session are saved: the first delivery that does not go on ends it.
  function Recorded(dls: seq<Delivery>): (n: nat)
    ensures n <= |dls|
  {
    if dls == [] || !Saves(dls[0]) then 0
    else if dls[0].postponed then 1
    else 1 + Recorded(dls[1..])
  }

  predicate AllGoOn(dls: seq<Delivery>) {
    forall i :: 0 <= i < |dls| ==> GoesOn(dls[i])
  }

  // The end of the first k chunks.
  function Bound(start: nat, dls: seq<Delivery>, k: nat): (b: nat)
    requires k <= |dls|
    ensures b >= start
  {
    if k == 0 then start else Bound(start, dls, k - 1) + |dls[k - 1].chunk|
  }

  // The k-th chunk continues the content, for a session that starts at position pos.
  ghost predicate Continues(content: seq<bv8>, pos: nat, dls: seq<Delivery>, k: nat)
    requires k < |dls|
  {
    && Bound(pos, dls, k) <= |content|
    && content[..Bound(pos, dls, k)] + dls[k].chunk <= content
    && dls[k].written <= |dls[k].chunk|
  }

  ghost predicate Serves(content: seq<bv8>, pos: nat, dls: seq<Delivery>) {
    forall k :: 0 <= k < |dls| ==> Continues(content, pos, dls, k)
  }

  lemma {:induction false} RecordedAt(dls: seq<Delivery>, i: nat)
    requires i <= |dls| && forall k :: 0 <= k < i ==> GoesOn(dls[k])
    ensures i == |dls| ==> Recorded(dls) == i
    ensures i < |dls| && !GoesOn(dls[i]) ==> Recorded(dls) == if Saves(dls[i]) then i + 1 else i
  {
    if i > 0 {
      RecordedAt(dls[1..], i - 1);
    }
  }

  // The record after n chunks of a session.
  ghost predicate AtChunk(r: Record, start: nat, dls: seq<Delivery>, n: nat) {
    && n <= |dls| && r.bytesWritten == Bound(start, dls, n)
    && r.lastBytesWritten == Back(start, dls, n)
  }

  // The chunk boundary before the last of n chunks.
  function Back(start: nat, dls: seq<Delivery>, n: nat): nat
    requires n <= |dls|
  {
    Bound(start, dls, if n > 0 then n - 1 else 0)
  }

  // Where a session starts: the server may go back to a smaller offset with its first delivery.
  function Start(r: Record, offset: nat, dls: seq<Delivery>): nat {
    if dls == [] then r.bytesWritten else offset
  }

  // How many chunks a session saves; a server that goes back to the very beginning gets none of them saved.
  function SessionRecords(r: Record, offset: nat, dls: seq<Delivery>): (n: nat)
    ensures n <= |dls|
  {
    if offset == 0 && r.bytesWritten > 0 then 0 else Recorded(dls)
  }

  predicate SessionSucceeds(r: Record, offset: nat, dls: seq<Delivery>, finalOk: bool) {
    finalOk && AllGoOn(dls) && !(dls != [] && offset == 0 && r.bytesWritten > 0)
  }

  // A session after i callbacks: r0 is the record it began with, r the record now, n the number of saved chunks.
  ghost predicate Progress(r0: Record, offset: nat, dls: seq<Delivery>, i: nat, live: bool, r: Record, negotiated: nat,
                           n: nat)
  {
    && i <= |dls|
    && (i == 0 ==> live && r == r0 && negotiated == r.bytesWritten)
    && (i > 0 ==> negotiated == offset && AtChunk(r, offset, dls, n))
    && (live ==> n == i && (i > 0 ==> offset > 0 || r0.bytesWritten == 0))
    && (live ==> forall k :: 0 <= k < i ==> GoesOn(dls[k]))
    && (!live ==> !SessionSucceeds(r0, offset, dls, true) && n == SessionRecords(r0, offset, dls))
  }

  // How many file operations a delivery takes: an append, and the two of a save if all of the chunk was taken.
  function ChunkCost(dl: Delivery): nat {
    if !dl.ok || dl.chunk == [] then 0 else if dl.written == |dl.chunk| then 3 else 1
  }

  // How many a callback takes; a changed offset takes three, and one of 0 ends the callback.
  function CallbackCost(moves: bool, offset: nat, dl: Delivery): nat {
    if !moves then ChunkCost(dl) else if offset == 0 then 3 else 3 + ChunkCost(dl)
  }

  // How many the callbacks from the i-th on take.
  function CostFrom(moved: bool, offset: nat, dls: seq<Delivery>, i: nat): nat
    requires i <= |dls|
    decreases |dls| - i
  {
    if i == |dls| then 0
    else
      var moves := moved && i == 0;
      CallbackCost(moves, offset, dls[i])
      + if GoesOn(dls[i]) && !(moves && offset == 0) then CostFrom(moved, offset, dls, i + 1) else 0
  }

  function TransferCost(r: Record, offset: nat, dls: seq<Delivery>): nat {
    CostFrom(offset < r.bytesWritten, offset, dls, 0)
  }

  lemma {:induction false} CostBounded(moved: bool, offset: nat, dls: seq<Delivery>, i: nat)
    requires i <= |dls|
    ensures CostFrom(moved, offset, dls, i) <= 3 * (|dls| - i) + if i == 0 then 3 else 0
    decreases |dls| - i
  {
    if i < |dls| {
      CostBounded(moved, offset, dls, i + 1);
    }
  }

  // How many callbacks have begun when the power goes after so many file operations.
  function Begun(moved: bool, power0: nat): (n: nat)
    ensures n > 0
  {
    if !moved then power0 / 3 + 1 else if power0 < 6 then 1 else power0 / 3
  }

  // A power loss during a transfer, after power0 file operations: all deliveries before the callback that it comes in
  // have been saved.
  ghost predicate Lost(d: Disk, offset: nat, dls: seq<Delivery>, moved: bool, power0: nat) {
    var begun := Begun(moved, power0);
    && begun <= |dls| && (forall k :: 0 <= k < begun - 1 ==> GoesOn(dls[k]))
    && Left(d, offset, dls, begun, moved && power0 == 1)
    && (d.recs == Some([]) <==> power0 % 3 == 2)
  }

  function Spent(i: nat, moved: bool): nat {
    3 * if i > 0 && moved then i + 1 else i
  }

  lemma LostAt(d: Disk, offset: nat, dls: seq<Delivery>, i: nat, moved: bool, power0: nat, power: nat)
    requires i < |dls| && forall k :: 0 <= k < i ==> GoesOn(dls[k])
    requires power0 == power + Spent(i, moved) && power < if moved && i == 0 then 6 else 3
    requires Left(d, offset, dls, i + 1, moved && i == 0 && power == 1)
    requires d.recs == Some([]) <==> power == 2 || power == 5
    ensures Lost(d, offset, dls, moved, power0)
  {
    var k := if i > 0 && moved then i + 1 else i;
    assert power0 == power + 3 * k;
    assert Begun(moved, power0) == i + 1;
  }

  // What a power loss in a session leaves: during the transfer, or in the save after it.
  ghost predicate SessionLeaves(d: Disk, r: Record, offset: nat, dls: seq<Delivery>, power0: nat) {
    if power0 < TransferCost(r, offset, dls) then Lost(d, offset, dls, offset < r.bytesWritten, power0)
    else Within(d, Back(Start(r, offset, dls), dls, SessionRecords(r, offset, dls)))
  }

  lemma WindowLoses(content: seq<bv8>, least: nat, d: Disk, start: nat, dls: seq<Delivery>, begun: nat, window: bool)
    requires Sound(content, least, d) && |content| < 0x8000_0000 && 0 < start && begun <= |dls|
    requires Left(d, start, dls, begun, window)
    ensures Recovered(d).bytesWritten == 0 <==> window || d.recs == Some([])
  {
    RestartExact(content, least, d);
  }

  function Cut(r: Record, offset: nat, crc: bv32): Record {
    r.(bytesWritten := offset, lastBytesWritten := offset, crc32 := crc, lastCrc32 := crc)
  }

  // The next callback, by what RecvCb promises of it.
  lemma ProgressStep(r0: Record, offset: nat, dls: seq<Delivery>, i: nat, r: Record, negotiated: nat, n: nat,
                     live': bool, r': Record, n': nat, crc: bv32)
    requires Progress(r0, offset, dls, i, true, r, negotiated, n) && i < |dls|
    requires offset <= r0.bytesWritten == r0.lastBytesWritten
    requires live' <==> GoesOn(dls[i]) && !(offset != negotiated && offset == 0)
    requires offset == negotiated ==> r' == if Saves(dls[i]) then Advanced(r, dls[i].chunk) else r
    requires offset != negotiated ==>
               r' == if offset > 0 && Saves(dls[i]) then Advanced(Cut(r, offset, crc), dls[i].chunk)
                     else Cut(r, offset, crc)
    requires n' == if offset == 0 && r0.bytesWritten > 0 then 0 else if Saves(dls[i]) then i + 1 else i
    ensures Progress(r0, offset, dls, i + 1, live', r', offset, n')
  {
    RecordedAt(dls, i);
    if offset != negotiated {
      assert i == 0;
    }
    assert Bound(offset, dls, i + 1) == Bound(offset, dls, i) + |dls[i].chunk|;
  }

  lemma ProgressEnd(r0: Record, offset: nat, dls: seq<Delivery>, i: nat, live: bool, r: Record, negotiated: nat, n: nat)
    requires Progress(r0, offset, dls, i, live, r, negotiated, n) && (live ==> i == |dls|)
    requires r0.bytesWritten == r0.lastBytesWritten
    ensures n == SessionRecords(r0, offset, dls) && AtChunk(r, Start(r0, offset, dls), dls, n)
    ensures live <==> SessionSucceeds(r0, offset, dls, true)
    ensures live ==> n == |dls|
  {
    if live {
      RecordedAt(dls, i);
    }
  }

  lemma Advancing(content: seq<bv8>, least: nat, r: Record, d: Disk, chunk: seq<bv8>, data: Option<seq<bv8>>, k: nat)
    requires Journaled(content, r, d) && Sound(content, least, d) && |Bytes(d)| == r.bytesWritten
    requires k <= |chunk| && Bytes(d) + chunk <= content && data == Some(Bytes(d) + chunk[..k])
    ensures Sound(content, least, Disk(data, d.recs)) && Journaled(content, r, Disk(data, d.recs))
  {
    LongerJournaled(content, least, r, d, Disk(data, d.recs));
  }

  // The data file still reaches the position of the first record, with its CRC.
  predicate Reached(d: Disk) {
    && d.recs.Some? && d.recs.value != [] && d.data.Some?
    && 0 < d.recs.value[0].lastBytesWritten <= |d.data.value|
    && Crc(0, d.data.value[..d.recs.value[0].lastBytesWritten]) == d.recs.value[0].lastCrc32
  }

  lemma ReachedRecovers(content: seq<bv8>, least: nat, d: Disk)
    requires Sound(content, least, d) && |content| < 0x8000_0000
    ensures Reached(d) ==>
              var was, r := d.recs.value[0], Recovered(d);
              && r.bytesWritten == was.lastBytesWritten && r.crc32 == was.lastCrc32
              && (was.step >= STEP_DOWNLOADED ==> r.step == STEP_DOWNLOADED)
              && (was.step < STEP_DOWNLOADED ==> r.step == was.step)
  {
    if Reached(d) {
      RestartStep(content, least, d);
      RestartExact(content, least, d);
    }
  }

  // How many file operations a restart takes.
  function InitCost(d: Disk): nat {
    if d.recs.None? then 3 else if HasRecord(d) && d.recs.value[0] != Dropped(d.recs.value[0]) then 4 else 2
  }

  class Context {
    const files: Files
    const total: nat
    ghost const content: seq<bv8>  // what the server has
    ghost const least: nat         // how much of it the server delivers before it ends a transfer well
    var rec: Record
    var negotiated: nat
    var downloaded: nat
    var completed: bool
    var bytesToReport: nat
    var log: seq<Event>
    var otherReports: nat

    constructor (files: Files, total: nat, ghost content: seq<bv8>, ghost least: nat)
      ensures this.files == files && this.total == total && this.content == content && this.least == least && log == []
    {
      this.files, this.total, this.content, this.least := files, total, content, least;
      rec, negotiated, downloaded, completed, bytesToReport, log, otherReports := INIT, 0, 0, false, 0, [], 0;
    }

    ghost predicate Safe()
      reads this, files
    {
      Sound(content, least, DiskOf(files))
    }

    // ----- ua_dl_init; a power loss ends each method early -----

    // Start over: the record is appended to the record file and the data file removed.
    method StartOver()
      requires files.on && files.recs.Some? && Safe() && !Resumes(DiskOf(files))
      modifies this`rec, files
      ensures Safe() && RestartsAs(DiskOf(files), INIT)
      ensures files.on <==> old(files.power) >= 2
      ensures files.on ==> files.power == old(files.power) - 2
      ensures files.on ==> rec == Recovered(DiskOf(files)) == INIT && files.data == None && HasRecs(files)
    {
      StartOverKeeps(content, least, DiskOf(files), Some(files.recs.value + [INIT]));
      rec := INIT;
      files.AppendRecord(rec);
      if files.on {
        files.RemoveData();
      }
    }

    // There is no record file: the first record is written and the data file removed.
    method StartFresh()
      requires files.on && files.recs.None? && Safe()
      modifies this`rec, files
      ensures Safe() && RestartsAs(DiskOf(files), INIT)
      ensures files.on <==> old(files.power) >= 3
      ensures files.on ==> files.power == old(files.power) - 3
      ensures files.on ==> rec == Recovered(DiskOf(files)) == INIT && files.data == None && HasRecs(files)
    {
      FreshSound(content, least, DiskOf(files));
      rec := INIT;
      files.SaveRecord(rec);
      if files.on {
        files.RemoveData();
      }
    }

    // "Drop the last package", for a record that could be read.
    method DropLast()
      requires files.on && Safe() && HasRecord(DiskOf(files)) && rec == files.recs.value[0]
      modifies this`rec, files
      ensures Safe() && RestartsAs(DiskOf(files), Recovered(old(DiskOf(files))))
      ensures files.on <==> old(files.power) >= InitCost(old(DiskOf(files))) - 2
      ensures files.on ==> files.power == old(files.power) - (InitCost(old(DiskOf(files))) - 2)
      ensures files.on ==> HasRecord(DiskOf(files)) && rec == Dropped(files.recs.value[0])
      ensures files.on ==> Recovered(DiskOf(files)) == Recovered(old(DiskOf(files)))
      ensures files.on ==> Kept(DiskOf(files)) == Kept(old(DiskOf(files)))
    {
      DropKeeps(content, least, DiskOf(files), Disk(files.data, Some([Dropped(rec)])));
      if rec.lastBytesWritten != rec.bytesWritten || rec.crc32 != rec.lastCrc32 {
        rec := Dropped(rec);
        files.SaveRecord(rec);
      }
    }

    // The data file agrees with the record: go on with it.
    method Accept()
      requires files.on && Safe() && |content| < 0x8000_0000
      requires HasRecord(DiskOf(files)) && rec == Dropped(files.recs.value[0]) && Accepts(files.data.value, rec)
      modifies this`rec, files
      ensures Safe() && RestartsAs(DiskOf(files), Recovered(old(DiskOf(files))))
      ensures files.on <==> old(files.power) >= 2
      ensures files.on ==> files.power == old(files.power) - 2 && HasRecs(files)
      ensures files.on ==> rec == Recovered(old(DiskOf(files))) == Recovered(DiskOf(files))
      ensures files.on ==> Bytes(DiskOf(files)) == Kept(old(DiskOf(files)))
    {
      AcceptKeeps(content, least, DiskOf(files), rec, Some(files.recs.value + [Clamped(rec)]));
      if STEP_DOWNLOADED < rec.step {
        rec := rec.(step := STEP_DOWNLOADED);
      }
      files.AppendRecord(rec);
      if files.on {
        files.TruncateData(rec.bytesWritten);
      }
    }

    // The part of ua_dl_init for a record that could be read and a data file that could be opened.
    method Resume()
      requires files.on && Safe() && |content| < 0x8000_0000
      requires HasRecord(DiskOf(files)) && rec == files.recs.value[0]
      modifies this`rec, files
      ensures Safe() && RestartsAs(DiskOf(files), Recovered(old(DiskOf(files))))
      ensures files.on <==> old(files.power) >= InitCost(old(DiskOf(files)))
      ensures files.on ==> files.power == old(files.power) - InitCost(old(DiskOf(files))) && HasRecs(files)
      ensures files.on ==> rec == Recovered(old(DiskOf(files))) == Recovered(DiskOf(files))
      ensures files.on ==> Bytes(DiskOf(files)) == Kept(old(DiskOf(files)))
    {
      DropLast();
      if files.on {
        var crc := CalcFileCrc32(files.data.value, ToInt(rec.bytesWritten));
        if crc != Some(rec.crc32) {
          StartOver();
        } else {
          Accept();
        }
      }
    }

    method Init()
      requires files.on && Safe() && |content| < 0x8000_0000
      modifies this, files
      ensures Safe() && RestartsAs(DiskOf(files), Recovered(old(DiskOf(files))))
      ensures files.on <==> old(files.power) >= InitCost(old(DiskOf(files)))
      ensures files.on ==> files.power == old(files.power) - InitCost(old(DiskOf(files))) && HasRecs(files)
      ensures files.on ==> rec == Recovered(old(DiskOf(files))) == Recovered(DiskOf(files))
      ensures files.on ==> Bytes(DiskOf(files)) == Kept(old(DiskOf(files)))
      ensures files.on ==> Consistent(content, least, rec, Bytes(DiskOf(files)))
      ensures files.on && Reached(old(DiskOf(files))) ==>
                var was := old(files.recs).value[0];
                && rec.bytesWritten == was.lastBytesWritten && rec.crc32 == was.lastCrc32
                && (was.step >= STEP_DOWNLOADED ==> rec.step == STEP_DOWNLOADED)
                && (was.step < STEP_DOWNLOADED ==> rec.step == was.step)
      ensures downloaded == rec.bytesWritten && !completed && bytesToReport == 0 && log == old(log)
    {
      RestartConsistent(content, least, DiskOf(files));
      ReachedRecovers(content, least, DiskOf(files));
      if files.recs.None? {
        StartFresh();
      } else if files.recs.value == [] {
        StartOver();
      } else {
        rec := files.recs.value[0];
        if files.data.None? {
          StartOver();
        } else {
          Resume();
        }
      }
      downloaded, completed, bytesToReport := rec.bytesWritten, false, 0;
    }

    // ----- the receive callback -----

    ghost predicate InSession()
      reads this, files
    {
      downloaded == rec.bytesWritten && HasRecs(files) && Journaled(content, rec, DiskOf(files))
    }

    // ua_dl_save_data, for a chunk that continues the content.
    method SaveData(data: seq<bv8>, written: nat) returns (ok: bool)
      requires files.on && Safe() && Journaled(content, rec, DiskOf(files))
      requires |Bytes(DiskOf(files))| == rec.bytesWritten && written <= |data|
      requires Bytes(DiskOf(files)) + data <= content
      modifies files
      ensures Safe() && Journaled(content, rec, DiskOf(files)) && files.recs == old(files.recs)
      ensures files.on <==> old(files.power) >= 1
      ensures files.on ==> files.power == old(files.power) - 1
      ensures files.on ==> (ok <==> written == |data|)
      ensures files.on && ok ==> files.data == Some(old(Bytes(DiskOf(files))) + data)
    {
      ghost var d := DiskOf(files);
      forall k | 0 <= k <= written
        ensures Sound(content, least, Disk(Some(Bytes(d) + data[..k]), d.recs))
        ensures Journaled(content, rec, Disk(Some(Bytes(d) + data[..k]), d.recs))
      {
        Advancing(content, least, rec, d, data, Some(Bytes(d) + data[..k]), k);
      }
      ok := files.AppendData(data, written);
      assert data[..|data|] == data;
    }

    // send_dl_report: completed-download is completed_download && is_done; reports that do not say it are only counted.
    method SendReport(isDone: bool)
      modifies this`log, this`otherReports
      ensures log == if completed && isDone then old(log) + [Completed] else old(log)
      ensures otherReports == if completed && isDone then old(otherReports) else old(otherReports) + 1
    {
      if completed && isDone {
        log := log + [Completed];
      } else {
        otherReports := otherReports + 1;
      }
    }

    // The counters of dmc_recv_cb after the data has been saved.
    method Advance(data: seq<bv8>)
      requires downloaded == rec.bytesWritten
      modifies this`rec, this`downloaded, this`completed, this`bytesToReport
      ensures downloaded == rec.bytesWritten && rec == Advanced(old(rec), data)
      ensures completed == (downloaded >= total) && bytesToReport == old(bytesToReport) + |data|
    {
      downloaded := downloaded + |data|;
      completed := downloaded >= total;
      bytesToReport := bytesToReport + |data|;
      var crc := BufCrc32(data, rec.crc32);
      rec := rec.(lastBytesWritten := rec.bytesWritten, bytesWritten := downloaded,
                  lastCrc32 := rec.crc32, crc32 := crc);
    }

    // A report for each UA_DL_REPORT_BLK_SIZE bytes, and one at the end; is_done is 0.
    method ReportProgress()
      modifies this`log, this`bytesToReport, this`otherReports
      ensures log == old(log)
      ensures var due := old(bytesToReport) >= 524_288 || completed;
              && otherReports == old(otherReports) + (if due then 1 else 0)
              && bytesToReport == if due then 0 else old(bytesToReport)
    {
      if bytesToReport >= UA_DL_REPORT_BLK_SIZE || completed {
        SendReport(false);
        bytesToReport := 0;
      }
    }

    // The part of dmc_recv_cb after the data has been saved; d is the disk before that.
    method Record(data: seq<bv8>, ghost d: Disk)
      requires files.on && Safe() && downloaded == rec.bytesWritten && HasRecs(files)
      requires Journaled(content, rec, d) && |Bytes(d)| == rec.bytesWritten && Bytes(d) + data <= content
      requires DiskOf(files) == Disk(Some(Bytes(d) + data), d.recs) && Journaled(content, rec, DiskOf(files))
      modifies this`rec, this`downloaded, this`completed, this`bytesToReport, this`log, this`otherReports, files
      ensures Safe() && log == old(log) && files.data == old(files.data)
      ensures files.on <==> old(files.power) >= 2
      ensures files.on ==> files.power == old(files.power) - 2
      ensures !files.on ==> Within(DiskOf(files), old(rec).lastBytesWritten)
      ensures !files.on ==> (files.recs == Some([]) <==> old(files.power) == 1)
      ensures files.on ==> InSession() && rec == Advanced(old(rec), data)
      ensures files.on ==>
                var due := old(bytesToReport) + |data| >= 524_288 || downloaded >= total;
                && otherReports == old(otherReports) + (if due then 1 else 0)
                && bytesToReport == if due then 0 else old(bytesToReport) + |data|
    {
      AdvancedJournaled(content, least, rec, d, Disk(files.data, Some([Advanced(rec, data)])), data);
      Advance(data);
      files.SaveRecord(rec);
      if files.on {
        ReportProgress();
      }
    }

    // The part of dmc_recv_cb for a chunk that arrived well.
    method SaveAndRecord(data: seq<bv8>, written: nat) returns (ok: bool)
      requires files.on && Safe() && InSession() && |Bytes(DiskOf(files))| == rec.bytesWritten
      requires Bytes(DiskOf(files)) + data <= content && written <= |data|
      modifies this`rec, this`downloaded, this`completed, this`bytesToReport, this`log, this`otherReports, files
      ensures Safe() && log == old(log)
      ensures files.on <==> old(files.power) >= if written == |data| then 3 else 1
      ensures files.on ==> files.power == old(files.power) - if written == |data| then 3 else 1
      ensures !files.on ==> Within(DiskOf(files), old(rec).lastBytesWritten)
      ensures !files.on ==> (files.recs == Some([]) <==> old(files.power) == 2)
      ensures files.on ==> InSession() && (ok <==> written == |data|)
      ensures files.on ==> rec == if ok then Advanced(old(rec), data) else old(rec)
      ensures files.on && ok ==> |Bytes(DiskOf(files))| == rec.bytesWritten
      ensures files.on && ok ==>
                var due := old(bytesToReport) + |data| >= 524_288 || downloaded >= total;
                && otherReports == old(otherReports) + (if due then 1 else 0)
                && bytesToReport == if due then 0 else old(bytesToReport) + |data|
    {
      ghost var d := DiskOf(files);
      ok := SaveData(data, written);
      if files.on && ok {
        Record(data, d);
      }
    }

    // The part of dmc_recv_cb for an unchanged offset.
    method ReceiveData(dl: Delivery) returns (ok: bool)
      requires files.on && Safe() && InSession() && |Bytes(DiskOf(files))| == rec.bytesWritten
      requires Bytes(DiskOf(files)) + dl.chunk <= content && dl.written <= |dl.chunk|
      modifies this`rec, this`downloaded, this`completed, this`bytesToReport, this`log, this`otherReports, files
      ensures Safe() && log == old(log)
      ensures files.on <==> old(files.power) >= ChunkCost(dl)
      ensures files.on ==> files.power == old(files.power) - ChunkCost(dl)
      ensures !files.on ==> Within(DiskOf(files), old(rec).lastBytesWritten)
      ensures !files.on ==> (files.recs == Some([]) <==> old(files.power) == 2)
      ensures files.on ==> InSession() && (ok <==> GoesOn(dl))
      ensures files.on ==> (ok <==> dl.ok && |dl.chunk| > 0 && dl.written == |dl.chunk| && !dl.postponed)
      ensures !dl.ok ==> otherReports == old(otherReports) + 1
      ensures files.on && Saves(dl) ==>
                var due := old(bytesToReport) + |dl.chunk| >= 524_288 || downloaded >= total;
                && otherReports == old(otherReports) + (if due then 1 else 0)
                && bytesToReport == if due then 0 else old(bytesToReport) + |dl.chunk|
      ensures files.on ==> rec == if Saves(dl) then Advanced(old(rec), dl.chunk) else old(rec)
      ensures files.on && Saves(dl) ==> |Bytes(DiskOf(files))| == rec.bytesWritten
    {
      ok := false;
      if !dl.ok {
        SendReport(false);
      } else if |dl.chunk| > 0 {
        ok := SaveAndRecord(dl.chunk, dl.written);
      }
      if dl.postponed {
        ok := false;
      }
    }

    // The CRC part of a changed offset.
    method TakeFileCrc(offset: nat) returns (ok: bool)
      requires |Bytes(DiskOf(files))| == offset < 0x8000_0000 && rec.crc32 == 0
      modifies this`rec
      ensures rec == old(rec).(crc32 := Crc(0, Bytes(DiskOf(files))), lastCrc32 := Crc(0, Bytes(DiskOf(files))))
      ensures ok <==> offset > 0
    {
      CrcEmpty();
      ToIntExact(offset);
      assert Bytes(DiskOf(files))[..offset] == Bytes(DiskOf(files));
      ok := true;
      if files.data.Some? {
        var crc := CalcFileCrc32(files.data.value, ToInt(offset));
        if crc.None? {
          ok := false;
        } else {
          rec := rec.(crc32 := crc.value);
        }
      } else {
        ok := false;
      }
      rec := rec.(lastCrc32 := rec.crc32);
    }

    // The record for a changed offset, after the data file has been cut.
    method SaveMoved(offset: nat) returns (ok: bool)
      requires files.on && offset < |content| < 0x8000_0000
      requires Bytes(DiskOf(files)) == content[..offset] && rec.crc32 == 0
      modifies this`rec, files
      ensures rec == old(rec).(crc32 := Crc(0, content[..offset]), lastCrc32 := Crc(0, content[..offset]))
      ensures files.data == old(files.data) && (ok <==> offset > 0)
      ensures files.on <==> old(files.power) >= 2
      ensures files.power == if files.on then old(files.power) - 2 else 0
      ensures files.recs == if files.on then Some([rec])
                            else if old(files.power) == 1 then Some([]) else old(files.recs)
    {
      ok := TakeFileCrc(offset);
      files.SaveRecord(rec);
    }

    // The data file is cut to a changed offset.
    method CutData(offset: nat)
      requires files.on && files.data.Some? && offset <= |files.data.value|
      requires downloaded == negotiated && offset < negotiated
      modifies this`rec, this`downloaded, this`negotiated, files
      ensures downloaded == negotiated == offset && rec == Cut(old(rec), offset, 0)
      ensures files.on <==> old(files.power) >= 1
      ensures files.power == if files.on then old(files.power) - 1 else 0
      ensures files.recs == old(files.recs)
      ensures files.data == if files.on then Some(old(files.data).value[..offset]) else old(files.data)
    {
      downloaded := downloaded - (negotiated - offset);
      negotiated := offset;
      rec := rec.(bytesWritten := offset, lastBytesWritten := offset, crc32 := 0, lastCrc32 := 0);
      files.TruncateData(offset);
    }

    // The part of dmc_recv_cb for a changed offset. An offset of 0 fails, because the CRC of an empty file is an error.
    // The data file is cut before the record for the new offset is saved.
    method ChangeOffset(offset: nat) returns (ok: bool)
      requires files.on && Safe() && InSession()
      requires |Bytes(DiskOf(files))| == rec.bytesWritten == rec.lastBytesWritten == negotiated && offset < negotiated
      modifies this`rec, this`downloaded, this`negotiated, files
      ensures Safe()
      ensures files.on <==> old(files.power) >= 3
      ensures files.on ==> files.power == old(files.power) - 3
      ensures old(files.power) == 0 ==> DiskOf(files) == old(DiskOf(files))
      ensures old(files.power) == 1 ==>
                DiskOf(files) == Disk(Some(content[..offset]), old(files.recs)) && Stale(DiskOf(files))
      ensures old(files.power) == 2 ==> DiskOf(files) == Disk(Some(content[..offset]), Some([]))
      ensures files.on ==> InSession() && Bytes(DiskOf(files)) == content[..offset]
      ensures files.on ==> rec == Cut(old(rec), offset, Crc(0, content[..offset]))
      ensures files.on ==> negotiated == offset && (ok <==> offset > 0)
    {
      CutJournaled(content, least, rec, DiskOf(files), offset, Cut(rec, offset, Crc(0, content[..offset])),
                   Some(Truncated(Bytes(DiskOf(files)), offset)));
      assert files.data.value[..offset] == content[..offset];
      CutData(offset);
      ok := false;
      if files.on {
        ok := SaveMoved(offset);
      }
    }

    // dmc_recv_cb when the server has gone back to a smaller offset. A power loss right after the data file has been
    // cut costs everything.
    method ReceiveMoved(offset: nat, dl: Delivery) returns (ok: bool)
      requires files.on && Safe() && InSession()
      requires |Bytes(DiskOf(files))| == rec.bytesWritten == rec.lastBytesWritten == negotiated && offset < negotiated
      requires content[..offset] + dl.chunk <= content && dl.written <= |dl.chunk|
      modifies this, files
      ensures Safe() && log == old(log)
      ensures files.on <==> old(files.power) >= CallbackCost(true, offset, dl)
      ensures files.on ==> files.power == old(files.power) - CallbackCost(true, offset, dl)
      ensures !files.on ==> if old(files.power) == 1 then Stale(DiskOf(files)) else Within(DiskOf(files), offset)
      ensures !files.on ==> (files.recs == Some([]) <==> old(files.power) == 2 || old(files.power) == 5)
      ensures files.on ==> InSession() && negotiated == offset
      ensures files.on ==> (ok <==> GoesOn(dl) && offset > 0)
      ensures files.on && ok ==> |Bytes(DiskOf(files))| == rec.bytesWritten
      ensures files.on ==>
                var r := Cut(old(rec), offset, Crc(0, content[..offset]));
                rec == if offset > 0 && Saves(dl) then Advanced(r, dl.chunk) else r
    {
      assert Recovered(DiskOf(files)).bytesWritten >= offset;
      ok := ChangeOffset(offset);
      if files.on && ok {
        ok := ReceiveData(dl);
      }
    }

    // dmc_recv_cb. A power loss costs at most the chunk before, unless the offset changes.
    method RecvCb(offset: nat, dl: Delivery) returns (ok: bool)
      requires files.on && Safe() && InSession() && |Bytes(DiskOf(files))| == rec.bytesWritten
      requires offset == negotiated || offset < negotiated == rec.bytesWritten == rec.lastBytesWritten
      requires content[..if offset == negotiated then rec.bytesWritten else offset] + dl.chunk <= content
      requires dl.written <= |dl.chunk|
      modifies this, files
      ensures Safe() && log == old(log)
      ensures files.on <==> old(files.power) >= CallbackCost(offset != old(negotiated), offset, dl)
      ensures files.on ==> files.power == old(files.power) - CallbackCost(offset != old(negotiated), offset, dl)
      ensures !files.on ==>
                if offset != old(negotiated) && old(files.power) == 1 then Stale(DiskOf(files))
                else Within(DiskOf(files), if offset == old(negotiated) then old(rec).lastBytesWritten else offset)
      ensures !files.on ==> (files.recs == Some([]) <==> old(files.power) == 2 || old(files.power) == 5)
      ensures files.on ==> InSession() && negotiated == offset
      ensures files.on ==> (ok <==> GoesOn(dl) && !(offset != old(negotiated) && offset == 0))
      ensures files.on && ok ==> |Bytes(DiskOf(files))| == rec.bytesWritten
      ensures files.on && offset == old(negotiated) ==>
                rec == if Saves(dl) then Advanced(old(rec), dl.chunk) else old(rec)
      ensures files.on && offset != old(negotiated) ==>
                var r := Cut(old(rec), offset, Crc(0, content[..offset]));
                rec == if offset > 0 && Saves(dl) then Advanced(r, dl.chunk) else r
    {
      assert Bytes(DiskOf(files)) == content[..rec.bytesWritten];
      if negotiated != offset {
        ok := ReceiveMoved(offset, dl);
      } else {
        ok := ReceiveData(dl);
      }
    }

    // ----- ua_dl_step_download -----

    // A session that began with the record rec0 and the given power, after i callbacks, n chunks of which are saved.
    ghost predicate Going(rec0: Record, power0: nat, offset: nat, dls: seq<Delivery>, i: nat, live: bool, n: nat)
      reads this, files
    {
      var moved := offset < rec0.bytesWritten;
      && InSession() && Progress(rec0, offset, dls, i, live, rec, negotiated, n)
      && (live ==> |Bytes(DiskOf(files))| == rec.bytesWritten && power0 == files.power + Spent(i, moved))
      && power0 + (if live then CostFrom(moved, offset, dls, i) else 0) == files.power + TransferCost(rec0, offset, dls)
    }

    // The i-th callback of a session.
    method Callback(offset: nat, dls: seq<Delivery>, i: nat, ghost rec0: Record, ghost n0: nat, ghost power0: nat)
      returns (live: bool, ghost n: nat)
      requires files.on && Safe() && Going(rec0, power0, offset, dls, i, true, n0) && i < |dls|
      requires offset <= rec0.bytesWritten == rec0.lastBytesWritten && Serves(content, offset, dls)
      modifies this, files
      ensures Safe() && log == old(log)
      ensures !files.on ==> power0 < TransferCost(rec0, offset, dls)
      ensures !files.on ==> Lost(DiskOf(files), offset, dls, offset < rec0.bytesWritten, power0)
      ensures files.on ==> Going(rec0, power0, offset, dls, i + 1, live, n)
    {
      ghost var r, was, power := rec, negotiated, files.power;
      assert Continues(content, offset, dls, i);
      n := if offset == 0 && rec0.bytesWritten > 0 then 0 else if Saves(dls[i]) then i + 1 else i;
      live := RecvCb(offset, dls[i]);
      if files.on {
        ProgressStep(rec0, offset, dls, i, r, was, n0, live, rec, n, Crc(0, content[..offset]));
      } else {
        LostAt(DiskOf(files), offset, dls, i, offset < rec0.bytesWritten, power0, power);
      }
    }

    // dmclient_download: the callbacks in turn; one that fails ends the transfer. A power loss in callback begun leaves
    // what a restart resumes after chunk begun - 2 or later, unless it comes inside a save of the record or right after
    // the data file has been cut to a smaller offset: then, and only then, everything is lost.
    method Transfer(offset: nat, dls: seq<Delivery>) returns (live: bool, ghost n: nat)
      requires files.on && Safe() && InSession()
      requires |Bytes(DiskOf(files))| == rec.bytesWritten == rec.lastBytesWritten == negotiated
      requires offset <= rec.bytesWritten && Serves(content, Start(rec, offset, dls), dls)
      modifies this, files
      ensures Safe() && log == old(log)
      ensures files.on <==> old(files.power) >= TransferCost(old(rec), offset, dls)
      ensures files.on ==> files.power == old(files.power) - TransferCost(old(rec), offset, dls)
      ensures !files.on ==> Lost(DiskOf(files), offset, dls, offset < old(rec).bytesWritten, old(files.power))
      ensures !files.on && 0 < offset < old(rec).bytesWritten ==>
                (Recovered(DiskOf(files)).bytesWritten == 0 <==> old(files.power) == 1 || old(files.power) % 3 == 2)
      ensures files.on ==> InSession() && n == SessionRecords(old(rec), offset, dls)
      ensures files.on ==> AtChunk(rec, Start(old(rec), offset, dls), dls, n)
      ensures files.on ==> (live <==> SessionSucceeds(old(rec), offset, dls, true))
      ensures files.on && live ==> n == |dls| && |Bytes(DiskOf(files))| == rec.bytesWritten
    {
      ghost var rec0, power0 := rec, files.power;
      live, n := true, 0;
      var i := 0;
      while files.on && i < |dls| && live
        invariant 0 <= i <= |dls| && Safe() && log == old(log)
        invariant files.on ==> Going(rec0, power0, offset, dls, i, live, n)
        invariant !files.on ==> power0 < TransferCost(rec0, offset, dls)
        invariant !files.on ==> Lost(DiskOf(files), offset, dls, offset < rec0.bytesWritten, power0)
        decreases |dls| - i
      {
        live, n := Callback(offset, dls, i, rec0, n, power0);
        i := i + 1;
      }
      if files.on {
        ProgressEnd(rec0, offset, dls, i, live, rec, negotiated, n);
      } else if 0 < offset < rec0.bytesWritten {
        WindowLoses(content, least, DiskOf(files), offset, dls, Begun(true, power0), power0 == 1);
      }
    }

    // The end of a successful session.
    method Finish()
      requires files.on && Safe() && InSession() && |Bytes(DiskOf(files))| == rec.bytesWritten >= least
      modifies this`rec, files
      ensures Safe() && files.data == old(files.data)
      ensures files.on <==> old(files.power) >= 2
      ensures files.on ==> files.power == old(files.power) - 2
      ensures !files.on ==> Within(DiskOf(files), old(rec).lastBytesWritten)
      ensures files.on ==> rec == Finished(old(rec)) && Consistent(content, least, rec, Bytes(DiskOf(files)))
      ensures files.on ==> Recovered(DiskOf(files)).bytesWritten == rec.bytesWritten
      ensures files.on && rec.bytesWritten > 0 ==> Recovered(DiskOf(files)).step == STEP_DOWNLOADED
    {
      FinishedSound(content, least, rec, DiskOf(files), Disk(files.data, Some([Finished(rec)])));
      rec := rec.(lastBytesWritten := rec.bytesWritten, lastCrc32 := rec.crc32, step := STEP_DOWNLOADED);
      files.SaveRecord(rec);
    }

    // The end of a failed session: back to the chunk boundary before the last.
    method RollBack()
      requires files.on && Safe() && InSession()
      modifies this`rec, this`downloaded, files
      ensures Safe() && files.data == old(files.data)
      ensures files.on <==> old(files.power) >= 2
      ensures !files.on ==> Within(DiskOf(files), old(rec).lastBytesWritten)
      ensures files.on ==> rec.step == STEP_NONE && Kept(DiskOf(files)) == content[..old(rec).lastBytesWritten]
      ensures files.on ==> Recovered(DiskOf(files)).bytesWritten == old(rec).lastBytesWritten
      ensures rec == Dropped(old(rec)) && downloaded == rec.bytesWritten
      ensures files.on ==> files.recs == Some([rec])
    {
      RolledBack(content, least, rec, DiskOf(files), Disk(files.data, Some([Dropped(rec)])));
      downloaded := rec.lastBytesWritten;
      rec := rec.(bytesWritten := rec.lastBytesWritten, crc32 := rec.lastCrc32);
      files.SaveRecord(rec);
    }

    // The two ends of ua_dl_step_download, after n saved chunks.
    method EndSession(ok: bool, ghost start: nat, ghost dls: seq<Delivery>, ghost n: nat)
      requires files.on && Safe() && InSession() && AtChunk(rec, start, dls, n)
      requires ok ==> n == |dls| && |Bytes(DiskOf(files))| == rec.bytesWritten >= least
      modifies this`rec, this`downloaded, files
      ensures Safe()
      ensures files.on <==> old(files.power) >= 2
      ensures !files.on ==> Within(DiskOf(files), Back(start, dls, n))
      ensures files.on && ok ==> files.power == old(files.power) - 2
      ensures files.on && ok ==> Consistent(content, least, rec, Bytes(DiskOf(files))) && rec.step == STEP_DOWNLOADED
      ensures files.on && ok ==> rec.bytesWritten == Bound(start, dls, |dls|) == Recovered(DiskOf(files)).bytesWritten
      ensures files.on && ok && rec.bytesWritten > 0 ==> Recovered(DiskOf(files)).step == STEP_DOWNLOADED
      ensures files.on && !ok ==> rec.step == STEP_NONE && Back(start, dls, n) <= |content|
      ensures files.on && !ok ==> Kept(DiskOf(files)) == content[..Back(start, dls, n)]
      ensures files.on && !ok ==> Recovered(DiskOf(files)).bytesWritten == Back(start, dls, n)
    {
      if ok {
        Finish();
      } else {
        RollBack();
      }
    }

    // ua_dl_step_download. A session that fails after n >= 1 saved chunks keeps the first n - 1 of them. The transfer
    // that ends well counts as the whole download, however many bytes have come.
    method StepDownload(offset: nat, dls: seq<Delivery>, finalOk: bool) returns (ok: bool)
      requires files.on && Safe() && InSession()
      requires |Bytes(DiskOf(files))| == rec.bytesWritten == rec.lastBytesWritten
      requires offset <= rec.bytesWritten && Serves(content, Start(rec, offset, dls), dls)
      requires finalOk ==> least <= Bound(Start(rec, offset, dls), dls, |dls|)
      modifies this, files
      ensures Safe() && log == old(log)
      ensures files.on <==> old(files.power) >= TransferCost(old(rec), offset, dls) + 2
      ensures !files.on ==> SessionLeaves(DiskOf(files), old(rec), offset, dls, old(files.power))
      ensures files.on && ok ==> files.power == old(files.power) - TransferCost(old(rec), offset, dls) - 2
      ensures files.on ==> (ok <==> SessionSucceeds(old(rec), offset, dls, finalOk))
      ensures files.on && ok ==> Consistent(content, least, rec, Bytes(DiskOf(files))) && rec.step == STEP_DOWNLOADED
      ensures files.on && ok ==>
                rec.bytesWritten == Bound(Start(old(rec), offset, dls), dls, |dls|)
                    == Recovered(DiskOf(files)).bytesWritten
      ensures files.on && ok && rec.bytesWritten > 0 ==> Recovered(DiskOf(files)).step == STEP_DOWNLOADED
      ensures files.on && !ok ==> rec.step == STEP_NONE
      ensures files.on && !ok ==>
                var kept := Back(Start(old(rec), offset, dls), dls, SessionRecords(old(rec), offset, dls));
                && kept <= |content| && Kept(DiskOf(files)) == content[..kept]
                && Recovered(DiskOf(files)).bytesWritten == kept
    {
      negotiated := rec.bytesWritten;
      ghost var start := Start(rec, offset, dls);
      var live;
      ghost var n;
      live, n := Transfer(offset, dls);
      ok := live && finalOk;
      if files.on {
        EndSession(ok, start, dls, n);
      }
    }
  }

  // ----- the window is reached -----

  const TWO: seq<bv8> := [1, 2]
  const BOTH := Disk(Some(TWO), Some([Record(2, STEP_NONE, Crc(0, TWO), 2, Crc(0, TWO))]))
  const SECOND := [Delivery(true, [2], 1, false)]

  lemma BothRecovers()
    ensures Sound(TWO, 0, BOTH) && InitCost(BOTH) == 2
    ensures Recovered(BOTH).bytesWritten == 2 && Recovered(BOTH).step == STEP_NONE
  {
    assert TWO[..2] == TWO;
    assert Honest(TWO, 0, BOTH.recs.value[0]);
    RestartExact(TWO, 0, BOTH);
  }

  lemma SecondServes()
    ensures Serves(TWO, 1, SECOND) && Bound(1, SECOND, 1) == 2
  {
    assert TWO[..1] + SECOND[0].chunk == TWO;
    assert Bound(1, SECOND, 0) == 1;
  }

  // A restart goes on with both bytes of the content, the server goes back to the second one, and the power lasts for
  // the restart and one more file operation: the next restart has nothing.
  method WindowReached() returns (d: Disk)
    ensures Recovered(BOTH).bytesWritten == 2 && Stale(d) && Recovered(d) == INIT
  {
    BothRecovers();
    var files := new Files(BOTH, 3, 0);
    var dlc := new Context(files, 2, TWO, 0);
    dlc.Init();
    assert files.on && files.power == 1 && dlc.rec == Recovered(BOTH) == Recovered(DiskOf(files));
    BeginsJournaled(TWO, 0, DiskOf(files));
    SecondServes();
    assert Start(dlc.rec, 1, SECOND) == 1;
    assert TransferCost(dlc.rec, 1, SECOND) >= 3 && Begun(true, 1) == 1;
    var _ := dlc.StepDownload(1, SECOND, true);
    assert !files.on && Stale(DiskOf(files));
    d := Disk(files.data, files.recs);
    RestartExact(TWO, 0, d);
  }
}
