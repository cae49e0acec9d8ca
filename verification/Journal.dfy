// The two files of a download in src/ua_download.c, the data file and the record file, and what a restart makes of
// them. A crash may leave any state that lies between two file operations, and any part of a data append.
module Journal {
  import opened Common
  import opened Crc32

  // enum ua_dl_step
  const STEP_NONE := 0
  const STEP_DOWNLOADED := 1
  const STEP_ENCRYPTED := 2
  const STEP_VERIFIED := 3
  const STEP_DONE := 4

  // ua_dl_record_t without the e_tag
  datatype Record = Record(bytesWritten: nat, step: int, crc32: bv32, lastBytesWritten: nat, lastCrc32: bv32)

  const INIT := Record(0, STEP_NONE, 0, 0, 0)

  // The record file holds whole records; only its first one is ever read.
  datatype Disk = Disk(data: Option<seq<bv8>>, recs: Option<seq<Record>>)

  // (int) of an uint64_t
  function ToInt(n: nat): int {
    var m := n % 0x1_0000_0000;
    if m < 0x8000_0000 then m else m - 0x1_0000_0000
  }

  // truncate(2): cuts the file or pads it with zeros.
  function Truncated(data: seq<bv8>, n: nat): seq<bv8> {
    if n <= |data| then data[..n] else data + seq(n - |data|, i => 0)
  }

  // ----- recovery -----

  // "Drop the last package": back to the previous chunk boundary.
  function Dropped(r: Record): Record {
    r.(bytesWritten := r.lastBytesWritten, crc32 := r.lastCrc32)
  }

  // The file's CRC, as ua_dl_calc_file_crc32 computes it: an error for an empty or too short file.
  function FileCrc(data: seq<bv8>, len: int): Option<bv32> {
    if 0 < len <= |data| then Some(Crc(0, data[..len])) else None
  }

  predicate Accepts(data: seq<bv8>, r: Record) {
    FileCrc(data, ToInt(r.bytesWritten)) == Some(r.crc32)
  }

  predicate HasRecord(d: Disk) {
    d.recs.Some? && d.recs.value != [] && d.data.Some?
  }

  // A restart goes on with the record on disk, not from the beginning.
  predicate Resumes(d: Disk) {
    HasRecord(d) && Accepts(d.data.value, Dropped(d.recs.value[0]))
  }

  // The record in memory after a restart.
  function Recovered(d: Disk): Record {
    if Resumes(d) then
      var r := Dropped(d.recs.value[0]);
      r.(step := if STEP_DOWNLOADED < r.step then STEP_DOWNLOADED else r.step)
    else INIT
  }

  // The bytes in the data file after a restart.
  function Kept(d: Disk): seq<bv8> {
    if Resumes(d) then Truncated(d.data.value, Recovered(d).bytesWritten) else []
  }

  function Bytes(d: Disk): seq<bv8> {
    if d.data.Some? then d.data.value else []
  }

  // ----- what every run keeps -----

  // A record's earlier position lies on the content with its CRC, and the record of a finished download has only one
  // position, at least bytes long: so many the server delivers before it ends a transfer well, 0 for any server.
  ghost predicate Honest(content: seq<bv8>, least: nat, r: Record) {
    && r.lastBytesWritten <= |content| && r.lastCrc32 == Crc(0, content[..r.lastBytesWritten])
    && (r.step >= STEP_DOWNLOADED ==>
          r.bytesWritten == r.lastBytesWritten && r.crc32 == r.lastCrc32 && least <= r.bytesWritten)
  }

  ghost predicate Sound(content: seq<bv8>, least: nat, d: Disk) {
    && Bytes(d) <= content
    && (d.recs.Some? ==> forall i :: 0 <= i < |d.recs.value| ==> Honest(content, least, d.recs.value[i]))
  }

  // What a restart promises: the length of the data file is the recorded one, the recorded CRC is that of the whole
  // file, the file is a prefix of the content, and a download that counts as finished has what the server delivers.
  ghost predicate Consistent(content: seq<bv8>, least: nat, r: Record, data: seq<bv8>) {
    && |data| == r.bytesWritten == r.lastBytesWritten
    && r.crc32 == r.lastCrc32 == Crc(0, data)
    && data <= content
    && r.step <= STEP_DOWNLOADED
    && (r.step == STEP_DOWNLOADED ==> least <= |data|)
  }

  lemma ToIntExact(n: nat)
    ensures ToInt(n) == n <==> n < 0x8000_0000
    ensures 0x8000_0000 <= n < 0x1_0000_0000 ==> ToInt(n) < 0
    ensures ToInt(n) > 0 ==> ToInt(n) == n % 0x1_0000_0000
  {
  }

  lemma CrcEmpty()
    ensures Crc(0, []) == 0
  {
  }

  lemma PrefixOf(data: seq<bv8>, content: seq<bv8>, n: nat)
    requires data <= content && n <= |data|
    ensures data[..n] == content[..n]
  {
  }

  // The exact condition, for a file of any size: the record's earlier position, taken as an int, is positive and within
  // the file, and the CRC of so many bytes is the recorded one.
  lemma ResumesExactly(content: seq<bv8>, least: nat, d: Disk)
    requires Sound(content, least, d) && HasRecord(d)
    ensures var last := d.recs.value[0].lastBytesWritten;
            var n := ToInt(last);
            Resumes(d) <==> 0 < n <= |Bytes(d)| && Crc(0, content[..n]) == Crc(0, content[..last])
  {
    var r := d.recs.value[0];
    assert Honest(content, least, r);
    var n := ToInt(r.lastBytesWritten);
    if 0 < n <= |Bytes(d)| {
      PrefixOf(Bytes(d), content, n);
    }
  }

  // So a position below 4 GiB that the file covers is resumed if and only if it is below 2 GiB: from there on its
  // length is negative in the CRC check.
  lemma LargeNeverResumes(content: seq<bv8>, least: nat, d: Disk)
    requires Sound(content, least, d) && HasRecord(d)
    requires 0 < d.recs.value[0].lastBytesWritten <= |Bytes(d)| && d.recs.value[0].lastBytesWritten < 0x1_0000_0000
    ensures Resumes(d) <==> d.recs.value[0].lastBytesWritten < 0x8000_0000
  {
    ToIntExact(d.recs.value[0].lastBytesWritten);
    ResumesExactly(content, least, d);
  }

  // A record whose earlier position is beyond the data file.
  predicate Stale(d: Disk) {
    HasRecord(d) && |d.data.value| < d.recs.value[0].lastBytesWritten
  }

  // Below 2 GiB a restart comes back to the record's earlier position exactly if the data file still reaches it, and to
  // nothing otherwise.
  lemma RestartExact(content: seq<bv8>, least: nat, d: Disk)
    requires Sound(content, least, d) && |content| < 0x8000_0000
    ensures Recovered(d).bytesWritten == if HasRecord(d) && !Stale(d) then d.recs.value[0].lastBytesWritten else 0
    ensures Resumes(d) <==> HasRecord(d) && !Stale(d) && d.recs.value[0].lastBytesWritten > 0
  {
    if HasRecord(d) {
      assert Honest(content, least, d.recs.value[0]);
      ToIntExact(d.recs.value[0].lastBytesWritten);
      ResumesExactly(content, least, d);
    }
  }

  // The step a restart comes back with: a finished download stays finished, and whatever had been done with the file
  // after that is done again.
  lemma RestartStep(content: seq<bv8>, least: nat, d: Disk)
    requires Sound(content, least, d) && |content| < 0x8000_0000 && d.recs.Some? && d.recs.value != [] && d.data.Some?
    requires 0 < d.recs.value[0].lastBytesWritten <= |d.data.value|
    ensures d.recs.value[0].step >= STEP_DOWNLOADED ==> Recovered(d).step == STEP_DOWNLOADED
    ensures d.recs.value[0].step < STEP_DOWNLOADED ==> Recovered(d).step == d.recs.value[0].step
  {
    RestartExact(content, least, d);
  }

  lemma RestartConsistent(content: seq<bv8>, least: nat, d: Disk)
    requires Sound(content, least, d) && |content| < 0x8000_0000
    ensures Consistent(content, least, Recovered(d), Kept(d))
  {
    CrcEmpty();
    RestartExact(content, least, d);
    if Resumes(d) {
      var r := d.recs.value[0];
      assert Honest(content, least, r);
      PrefixOf(Bytes(d), content, r.lastBytesWritten);
      assert Kept(d) == content[..r.lastBytesWritten];
    }
  }

  // A longer data file changes nothing for a restart that could already resume.
  lemma LongerRecovers(content: seq<bv8>, least: nat, d: Disk, d': Disk)
    requires |content| < 0x8000_0000 && d.recs == d'.recs && Bytes(d) <= Bytes(d') <= content && d'.data.Some?
    requires Sound(content, least, d)
    ensures Sound(content, least, d') && Recovered(d').bytesWritten >= Recovered(d).bytesWritten
  {
    RestartExact(content, least, d);
    RestartExact(content, least, d');
  }

  // A saved record brings a restart back to the chunk boundary before the last.
  lemma SavedRecovers(content: seq<bv8>, least: nat, d: Disk, r: Record)
    requires d.recs == Some([r]) && Honest(content, least, r) && Bytes(d) <= content && |content| < 0x8000_0000
    requires r.lastBytesWritten <= |Bytes(d)|
    ensures Sound(content, least, d) && Sound(content, least, Disk(d.data, Some([])))
    ensures Recovered(d).bytesWritten == r.lastBytesWritten
  {
    RestartExact(content, least, d);
  }

  // ----- the states that recovery itself writes -----

  function Clamped(r: Record): Record {
    r.(step := if STEP_DOWNLOADED < r.step then STEP_DOWNLOADED else r.step)
  }

  lemma DropKeeps(content: seq<bv8>, least: nat, d: Disk, d': Disk)
    requires HasRecord(d) && Sound(content, least, d) && d' == Disk(d.data, Some([Dropped(d.recs.value[0])]))
    ensures Sound(content, least, d') && Sound(content, least, Disk(d.data, Some([])))
    ensures Recovered(d') == Recovered(d) && Kept(d') == Kept(d)
  {
    assert Honest(content, least, d.recs.value[0]);
  }

  lemma AcceptKeeps(content: seq<bv8>, least: nat, d: Disk, r: Record, recs: Option<seq<Record>>)
    requires HasRecord(d) && Sound(content, least, d) && |content| < 0x8000_0000
    requires r == Dropped(d.recs.value[0]) && Accepts(d.data.value, r)
    requires recs == Some(d.recs.value + [Clamped(r)])
    ensures Sound(content, least, Disk(d.data, recs)) && Recovered(d) == Clamped(r)
    ensures Sound(content, least, Disk(Some(Kept(d)), recs)) && Kept(d) == Truncated(d.data.value, r.bytesWritten)
    ensures Recovered(Disk(Some(Kept(d)), recs)) == Recovered(Disk(d.data, recs)) == Clamped(r)
  {
    RestartExact(content, least, d);
    assert Honest(content, least, d.recs.value[0]);
    var n := r.bytesWritten;
    assert d.data.value[..n][..n] == d.data.value[..n];
  }

  lemma FreshSound(content: seq<bv8>, least: nat, d: Disk)
    requires Sound(content, least, d)
    ensures Sound(content, least, Disk(d.data, Some([]))) && Sound(content, least, Disk(d.data, Some([INIT])))
    ensures Sound(content, least, Disk(None, Some([INIT])))
    ensures Recovered(Disk(d.data, Some([INIT]))) == Recovered(Disk(None, Some([INIT]))) == INIT
  {
    assert content[..0] == [];
    CrcEmpty();
  }

  lemma StartOverKeeps(content: seq<bv8>, least: nat, d: Disk, recs: Option<seq<Record>>)
    requires d.recs.Some? && Sound(content, least, d) && recs == Some(d.recs.value + [INIT]) && !Resumes(d)
    ensures Sound(content, least, Disk(d.data, recs)) && Sound(content, least, Disk(None, recs))
    ensures Recovered(Disk(d.data, recs)) == Recovered(Disk(None, recs)) == INIT
  {
    assert content[..0] == [];
    CrcEmpty();
  }

  // ----- a session -----

  // The record in memory against the disk during a download: both of its positions lie on the content with their
  // CRCs, the data file holds at least the recorded bytes, and a restart would not fall behind the previous chunk.
  ghost predicate Journaled(content: seq<bv8>, r: Record, d: Disk) {
    && r.lastBytesWritten <= r.bytesWritten <= |content| < 0x8000_0000
    && r.crc32 == Crc(0, content[..r.bytesWritten]) && r.lastCrc32 == Crc(0, content[..r.lastBytesWritten])
    && r.step == STEP_NONE
    && content[..r.bytesWritten] <= Bytes(d) <= content
    && Recovered(d).bytesWritten >= r.lastBytesWritten
  }

  // The record after a chunk.
  function Advanced(r: Record, chunk: seq<bv8>): Record {
    Record(r.bytesWritten + |chunk|, r.step, Crc(r.crc32, chunk), r.bytesWritten, r.crc32)
  }

  lemma LongerJournaled(content: seq<bv8>, least: nat, r: Record, d: Disk, d': Disk)
    requires Journaled(content, r, d) && Sound(content, least, d)
    requires d'.recs == d.recs && d'.data.Some? && Bytes(d) <= Bytes(d') <= content
    ensures Journaled(content, r, d') && Sound(content, least, d')
  {
    LongerRecovers(content, least, d, d');
  }

  lemma ChunkCrc(content: seq<bv8>, n: nat, chunk: seq<bv8>)
    requires n <= |content| && content[..n] + chunk <= content
    ensures Crc(0, content[..n + |chunk|]) == Crc(Crc(0, content[..n]), chunk)
  {
    CrcConcat(0, content[..n], chunk);
    assert content[..n + |chunk|] == content[..n] + chunk;
  }

  lemma AdvancedJournaled(content: seq<bv8>, least: nat, r: Record, d: Disk, d': Disk, chunk: seq<bv8>)
    requires Journaled(content, r, d) && |Bytes(d)| == r.bytesWritten && Bytes(d) + chunk <= content
    requires d' == Disk(Some(Bytes(d) + chunk), Some([Advanced(r, chunk)]))
    ensures Journaled(content, Advanced(r, chunk), d') && Sound(content, least, d')
    ensures Recovered(d').bytesWritten == r.bytesWritten
    ensures Sound(content, least, Disk(d'.data, Some([])))
  {
    var n := r.bytesWritten;
    assert Bytes(d) == content[..n] && Bytes(d') == content[..n + |chunk|];
    ChunkCrc(content, n, chunk);
    SavedRecovers(content, least, d', Advanced(r, chunk));
  }

  // After a restart without a finished download a session can begin.
  lemma BeginsJournaled(content: seq<bv8>, least: nat, d: Disk)
    requires Consistent(content, least, Recovered(d), Bytes(d)) && |content| < 0x8000_0000
    requires Recovered(d).step == STEP_NONE
    ensures Journaled(content, Recovered(d), d)
  {
    assert Bytes(d) == content[..Recovered(d).bytesWritten];
  }

  // Back to the previous chunk boundary at the end of a failed session.
  lemma RolledBack(content: seq<bv8>, least: nat, r: Record, d: Disk, d': Disk)
    requires Journaled(content, r, d) && d' == Disk(d.data, Some([Dropped(r)]))
    ensures Journaled(content, Dropped(r), d') && Sound(content, least, d')
            && Sound(content, least, Disk(d.data, Some([])))
    ensures Recovered(d').bytesWritten == r.lastBytesWritten && Kept(d') == content[..r.lastBytesWritten]
  {
    SavedRecovers(content, least, d', Dropped(r));
    PrefixOf(Bytes(d'), content, r.lastBytesWritten);
  }

  // The record of a finished download.
  function Finished(r: Record): Record {
    r.(lastBytesWritten := r.bytesWritten, lastCrc32 := r.crc32, step := STEP_DOWNLOADED)
  }

  lemma FinishedSound(content: seq<bv8>, least: nat, r: Record, d: Disk, d': Disk)
    requires Journaled(content, r, d) && |Bytes(d)| == r.bytesWritten >= least
    requires d' == Disk(d.data, Some([Finished(r)]))
    ensures Sound(content, least, d') && Sound(content, least, Disk(d.data, Some([])))
    ensures Consistent(content, least, Finished(r), Bytes(d')) && Bytes(d') == content[..r.bytesWritten]
    ensures Recovered(d').bytesWritten == r.bytesWritten
    ensures r.bytesWritten > 0 ==> Recovered(d').step == STEP_DOWNLOADED
  {
    assert Bytes(d') == content[..r.bytesWritten];
    SavedRecovers(content, least, d', Finished(r));
  }

  // The data file is cut to a smaller offset and a record for it saved.
  lemma CutJournaled(content: seq<bv8>, least: nat, r: Record, d: Disk, n: nat, r': Record, cut: Option<seq<bv8>>)
    requires Journaled(content, r, d) && Sound(content, least, d) && n < r.lastBytesWritten == r.bytesWritten
    requires cut == Some(Truncated(Bytes(d), n))
    requires r' == Record(n, STEP_NONE, Crc(0, content[..n]), n, Crc(0, content[..n]))
    ensures d.data.Some? && Bytes(Disk(cut, d.recs)) == content[..n]
    ensures Sound(content, least, Disk(cut, d.recs)) && Stale(Disk(cut, d.recs))
    ensures Sound(content, least, Disk(cut, Some([]))) && Sound(content, least, Disk(cut, Some([r'])))
    ensures Journaled(content, r', Disk(cut, Some([r'])))
  {
    RestartExact(content, least, d);
    assert cut.value == content[..n];
    SavedRecovers(content, least, Disk(cut, Some([r'])), r');
  }
}
