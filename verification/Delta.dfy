// delta_reconstruct of src/delta.c: a new package from the old one and a package of differences. Directories are maps
// from paths to contents; the hash and the patch tools are arbitrary functions. Nested squashfs images are left out.
module Delta {
  import opened Common

  type Content = seq<bv8>
  type Dir = map<string, Content>

  const MANIFEST := "manifest.xml"

  datatype DiffType = DT_ADDED | DT_UNCHANGED | DT_CHANGED

  // diff_info_t: an entry of the manifest of differences, with its patch tools.
  datatype DiffInfo = DiffInfo(name: string, oldName: Option<string>, type_: DiffType, shaOld: string, shaNew: string,
                               format: string, compression: string)

  // Where the entry's old file is.
  function OldPath(e: DiffInfo): string {
    if e.oldName.Some? then e.oldName.value else e.name
  }

  predicate NeedsOld(e: DiffInfo) {
    e.type_ != DT_ADDED
  }

  predicate NeedsDiff(e: DiffInfo) {
    e.type_ != DT_UNCHANGED
  }

  // The hash the entry's new file is checked against.
  function Expected(e: DiffInfo): string {
    if e.type_ == DT_UNCHANGED then e.shaOld else e.shaNew
  }

  // The tools that made and read an archive: a hash in hex, and the patch for a format and compression.
  datatype Tools = Tools(sha: Content -> string, patch: (DiffInfo, Content, Content) -> Option<Content>)

  // verify_file
  predicate Verifies(t: Tools, dir: Dir, path: string, sha: string) {
    path in dir && t.sha(dir[path]) == sha
  }

  // ----- what one entry alone yields -----

  // The new file that the entry makes of these directories, if every check passes.
  function Made(t: Tools, e: DiffInfo, old_: Dir, diff: Dir): Option<Content> {
    match e.type_
    case DT_ADDED => if Verifies(t, diff, e.name, e.shaNew) then Some(diff[e.name]) else None
    case DT_UNCHANGED => if Verifies(t, old_, OldPath(e), e.shaOld) then Some(old_[OldPath(e)]) else None
    case DT_CHANGED =>
      if Verifies(t, old_, OldPath(e), e.shaOld) && e.name in diff then
        var made := t.patch(e, old_[OldPath(e)], diff[e.name]);
        if made.Some? && t.sha(made.value) == e.shaNew then made else None
      else None
  }

  lemma MadeVerified(t: Tools, e: DiffInfo, old_: Dir, diff: Dir)
    ensures Made(t, e, old_, diff).Some? ==> t.sha(Made(t, e, old_, diff).value) == Expected(e)
  {
  }

  // An old file is used only if it is there with the recorded hash, also where it is patched.
  lemma OldVerified(t: Tools, e: DiffInfo, old_: Dir, diff: Dir)
    ensures Made(t, e, old_, diff).Some? && e.type_ != DT_ADDED ==>
              var path := if e.oldName.Some? then e.oldName.value else e.name;
              path in old_ && t.sha(old_[path]) == e.shaOld
    ensures Made(t, e, old_, diff).Some? && e.type_ != DT_UNCHANGED ==> e.name in diff
  {
  }

  // ----- all entries in turn -----

  // No earlier entry has used up what this one needs: each entry removes its old file and its difference.
  ghost predicate Available(entries: seq<DiffInfo>, i: nat)
    requires i < |entries|
  {
    && (NeedsOld(entries[i]) ==> forall j :: 0 <= j < i ==> OldPath(entries[j]) != OldPath(entries[i]))
    && (NeedsDiff(entries[i]) ==> forall j :: 0 <= j < i ==> entries[j].name != entries[i].name)
  }

  ghost predicate EntryDone(t: Tools, entries: seq<DiffInfo>, i: nat, old_: Dir, diff: Dir)
    requires i < |entries|
  {
    Available(entries, i) && Made(t, entries[i], old_, diff).Some?
  }

  // The new directory after the first n entries; a later entry of the same name wins.
  ghost function NewDir(t: Tools, entries: seq<DiffInfo>, n: nat, old_: Dir, diff: Dir): Dir
    requires n <= |entries| && forall i :: 0 <= i < n ==> EntryDone(t, entries, i, old_, diff)
  {
    if n == 0 then map[]
    else
      assert EntryDone(t, entries, n - 1, old_, diff);
      NewDir(t, entries, n - 1, old_, diff)[entries[n - 1].name := Made(t, entries[n - 1], old_, diff).value]
  }

  // What is left of a directory after files have been removed.
  ghost predicate Remains(left: Dir, all: Dir, gone: set<string>) {
    forall p :: (p in left <==> p in all && p !in gone) && (p in left ==> left[p] == all[p])
  }

  ghost function OldPaths(entries: seq<DiffInfo>, n: nat): set<string>
    requires n <= |entries|
  {
    set j | 0 <= j < n :: OldPath(entries[j])
  }

  ghost function Names(entries: seq<DiffInfo>, n: nat): set<string>
    requires n <= |entries|
  {
    set j | 0 <= j < n :: entries[j].name
  }

  // What an entry makes of the directories at its turn.
  lemma MadeInTurn(t: Tools, entries: seq<DiffInfo>, i: nat, old_: Dir, diff: Dir, oldLeft: Dir, diffLeft: Dir)
    requires i < |entries| && Remains(oldLeft, old_, OldPaths(entries, i)) && Remains(diffLeft, diff, Names(entries, i))
    ensures Made(t, entries[i], oldLeft, diffLeft)
            == if EntryDone(t, entries, i, old_, diff) then Made(t, entries[i], old_, diff) else None
  {
    var e := entries[i];
    assert OldPath(e) in OldPaths(entries, i) <==> exists j :: 0 <= j < i && OldPath(entries[j]) == OldPath(e);
    assert e.name in Names(entries, i) <==> exists j :: 0 <= j < i && entries[j].name == e.name;
  }

  // The checks and copies for one entry.
  method MakeEntry(t: Tools, e: DiffInfo, old_: Dir, diff: Dir, new0: Dir) returns (err: bool, new_: Dir)
    ensures err <==> Made(t, e, old_, diff).None?
    ensures !err ==> new_ == new0[e.name := Made(t, e, old_, diff).value]
  {
    err, new_ := false, new0;
    var oldFile := OldPath(e);
    if e.type_ == DT_ADDED {
      if !Verifies(t, diff, e.name, e.shaNew) {
        err := true;
      } else {
        new_ := new_[e.name := diff[e.name]];
      }
    } else if e.type_ == DT_UNCHANGED {
      if !Verifies(t, old_, oldFile, e.shaOld) {
        err := true;
      } else {
        new_ := new_[e.name := old_[oldFile]];
      }
    } else {
      if !Verifies(t, old_, oldFile, e.shaOld) || e.name !in diff {
        err := true;
      } else {
        var made := t.patch(e, old_[oldFile], diff[e.name]);
        if made.None? {
          err := true;
        } else {
          new_ := new_[e.name := made.value];
          if !Verifies(t, new_, e.name, e.shaNew) {
            err := true;
          }
        }
      }
    }
  }

  // The directories when it is the turn of entry i.
  ghost predicate InTurn(t: Tools, entries: seq<DiffInfo>, i: nat, old0: Dir, diff0: Dir, old_: Dir, diff: Dir,
                         new_: Dir)
    requires i <= |entries|
  {
    && Remains(old_, old0, OldPaths(entries, i)) && Remains(diff, diff0, Names(entries, i))
    && (forall k :: 0 <= k < i ==> EntryDone(t, entries, k, old0, diff0))
    && new_ == NewDir(t, entries, i, old0, diff0)
  }

  // One entry: it is made, and its files leave the directories.
  method Turn(t: Tools, entries: seq<DiffInfo>, i: nat, ghost old0: Dir, ghost diff0: Dir, old1: Dir, diff1: Dir,
              new1: Dir)
    returns (err: bool, old_: Dir, diff: Dir, new_: Dir)
    requires i < |entries| && InTurn(t, entries, i, old0, diff0, old1, diff1, new1)
    ensures err <==> !EntryDone(t, entries, i, old0, diff0)
    ensures !err ==> InTurn(t, entries, i + 1, old0, diff0, old_, diff, new_)
  {
    var e := entries[i];
    MadeInTurn(t, entries, i, old0, diff0, old1, diff1);
    err, new_ := MakeEntry(t, e, old1, diff1, new1);
    assert OldPaths(entries, i + 1) == OldPaths(entries, i) + {OldPath(e)};
    assert Names(entries, i + 1) == Names(entries, i) + {e.name};
    old_ := old1 - {OldPath(e)};
    diff := diff1 - {e.name};
  }

  // delta_reconstruct: it succeeds exactly when every entry can be made from the files that no earlier entry has
  // removed, and the manifest of the differences is still there; then the new package is what the entries make.
  method Reconstruct(t: Tools, old0: Dir, diff0: Dir, entries: seq<DiffInfo>) returns (err: bool, pkg: Dir)
    ensures !err <==> (forall i :: 0 <= i < |entries| ==> EntryDone(t, entries, i, old0, diff0))
                      && MANIFEST in diff0 && MANIFEST !in Names(entries, |entries|)
    ensures !err ==> pkg == NewDir(t, entries, |entries|, old0, diff0)[MANIFEST := diff0[MANIFEST]]
  {
    var old_, diff, new_ := old0, diff0, map[];
    err, pkg := false, map[];
    for i := 0 to |entries|
      invariant !err <==> forall k :: 0 <= k < i ==> EntryDone(t, entries, k, old0, diff0)
      invariant !err ==> InTurn(t, entries, i, old0, diff0, old_, diff, new_)
    {
      if !err {
        err, old_, diff, new_ := Turn(t, entries, i, old0, diff0, old_, diff, new_);
      }
    }
    if !err {
      if MANIFEST !in diff {
        err := true;
      } else {
        pkg := new_[MANIFEST := diff[MANIFEST]];
      }
    }
  }

  ghost predicate DistinctNames(entries: seq<DiffInfo>) {
    forall i, j :: 0 <= i < j < |entries| ==> entries[i].name != entries[j].name
  }

  ghost predicate AllDone(t: Tools, entries: seq<DiffInfo>, old_: Dir, diff: Dir) {
    forall i :: 0 <= i < |entries| ==> EntryDone(t, entries, i, old_, diff)
  }

  lemma {:induction false} NewDirAt(t: Tools, entries: seq<DiffInfo>, n: nat, old_: Dir, diff: Dir, i: nat)
    requires AllDone(t, entries, old_, diff) && DistinctNames(entries) && i < n <= |entries|
    ensures entries[i].name in NewDir(t, entries, n, old_, diff)
    ensures t.sha(NewDir(t, entries, n, old_, diff)[entries[i].name]) == Expected(entries[i])
    decreases n
  {
    assert EntryDone(t, entries, n - 1, old_, diff);
    if i == n - 1 {
      MadeVerified(t, entries[i], old_, diff);
    } else {
      NewDirAt(t, entries, n - 1, old_, diff, i);
    }
  }

  lemma {:induction false} NewDirKeys(t: Tools, entries: seq<DiffInfo>, n: nat, old_: Dir, diff: Dir)
    requires AllDone(t, entries, old_, diff) && n <= |entries|
    ensures NewDir(t, entries, n, old_, diff).Keys == Names(entries, n)
    decreases n
  {
    if n > 0 {
      assert EntryDone(t, entries, n - 1, old_, diff);
      NewDirKeys(t, entries, n - 1, old_, diff);
      assert Names(entries, n) == Names(entries, n - 1) + {entries[n - 1].name};
    }
  }

  // The entries describe the target: one for each of its files but the manifest, with its hash; and no other content
  // has the hash of one of its files.
  ghost predicate Describes(t: Tools, entries: seq<DiffInfo>, target: Dir) {
    && DistinctNames(entries) && target.Keys == Names(entries, |entries|) + {MANIFEST}
    && (forall i :: 0 <= i < |entries| ==>
        entries[i].name in target && t.sha(target[entries[i].name]) == Expected(entries[i]))
    && (forall p, c: Content :: p in target && t.sha(c) == t.sha(target[p]) ==> c == target[p])
  }

  // A reconstruction that succeeds yields exactly the target, whatever the patch tools did.
  lemma YieldsTarget(t: Tools, entries: seq<DiffInfo>, old_: Dir, diff: Dir, target: Dir)
    requires AllDone(t, entries, old_, diff) && Describes(t, entries, target)
    requires MANIFEST in diff && MANIFEST !in Names(entries, |entries|) && diff[MANIFEST] == target[MANIFEST]
    ensures NewDir(t, entries, |entries|, old_, diff)[MANIFEST := diff[MANIFEST]] == target
  {
    var n := |entries|;
    var pkg := NewDir(t, entries, n, old_, diff)[MANIFEST := diff[MANIFEST]];
    NewDirKeys(t, entries, n, old_, diff);
    assert pkg.Keys == target.Keys;
    forall p | p in target ensures pkg[p] == target[p] {
      if p != MANIFEST {
        assert p in Names(entries, n);
        var i :| 0 <= i < n && entries[i].name == p;
        NewDirAt(t, entries, n, old_, diff, i);
      }
    }
  }

  // ----- what a tool that makes differences needs of the patch -----

  // The differences were made by mk: an added file is in them as it is, a changed one as what mk makes of its old and
  // its new content, in this order; an unchanged one is the old file. The hashes are those of these files.
  ghost predicate MadeBy(t: Tools, mk: (DiffInfo, Content, Content) -> Content, e: DiffInfo, old_: Dir, diff: Dir,
                         target: Dir)
  {
    var path := if e.oldName.Some? then e.oldName.value else e.name;
    && e.name in target
    && (e.type_ != DT_ADDED ==> path in old_ && e.shaOld == t.sha(old_[path]))
    && (e.type_ != DT_UNCHANGED ==> e.name in diff && e.shaNew == t.sha(target[e.name]))
    && (e.type_ == DT_ADDED ==> diff[e.name] == target[e.name])
    && (e.type_ == DT_UNCHANGED ==> old_[path] == target[e.name])
    && (e.type_ == DT_CHANGED ==> diff[e.name] == mk(e, old_[path], target[e.name]))
  }

  ghost predicate Inverse(t: Tools, mk: (DiffInfo, Content, Content) -> Content) {
    forall e, o, n :: t.patch(e, o, mk(e, o, n)) == Some(n)
  }

  lemma MadeIsTarget(t: Tools, mk: (DiffInfo, Content, Content) -> Content, e: DiffInfo, old_: Dir, diff: Dir,
                     target: Dir)
    requires Inverse(t, mk) && MadeBy(t, mk, e, old_, diff, target)
    ensures Made(t, e, old_, diff) == Some(target[e.name])
  {
  }

  lemma {:induction false} NewDirIsTarget(t: Tools, entries: seq<DiffInfo>, n: nat, old_: Dir, diff: Dir, target: Dir)
    requires AllDone(t, entries, old_, diff) && n <= |entries|
    requires forall i :: 0 <= i < n ==>
               entries[i].name in target && Made(t, entries[i], old_, diff) == Some(target[entries[i].name])
    ensures forall p :: p in NewDir(t, entries, n, old_, diff) ==>
              p in target && NewDir(t, entries, n, old_, diff)[p] == target[p]
    decreases n
  {
    if n > 0 {
      assert EntryDone(t, entries, n - 1, old_, diff);
      NewDirIsTarget(t, entries, n - 1, old_, diff, target);
    }
  }

  // A package of differences made by the inverse of the patch is always reconstructed, if no two entries use the same
  // file up.
  method ReconstructsMade(t: Tools, ghost mk: (DiffInfo, Content, Content) -> Content, old_: Dir, diff: Dir,
                          entries: seq<DiffInfo>, ghost target: Dir) returns (err: bool, pkg: Dir)
    requires Inverse(t, mk) && forall i :: 0 <= i < |entries| ==> MadeBy(t, mk, entries[i], old_, diff, target)
    requires forall i :: 0 <= i < |entries| ==> Available(entries, i)
    requires target.Keys == Names(entries, |entries|) + {"manifest.xml"} && "manifest.xml" in diff
    requires "manifest.xml" !in Names(entries, |entries|) && diff["manifest.xml"] == target["manifest.xml"]
    ensures !err && pkg == target
  {
    var n := |entries|;
    forall i | 0 <= i < n ensures EntryDone(t, entries, i, old_, diff)
                                  && Made(t, entries[i], old_, diff) == Some(target[entries[i].name]) {
      MadeIsTarget(t, mk, entries[i], old_, diff, target);
    }
    NewDirKeys(t, entries, n, old_, diff);
    NewDirIsTarget(t, entries, n, old_, diff, target);
    err, pkg := Reconstruct(t, old_, diff, entries);
    assert pkg.Keys == target.Keys;
    assert forall p :: p in pkg ==> pkg[p] == target[p];
  }

  // Two entries that come from the same old file: the later one can never be made, because the earlier one, whatever
  // its kind, has removed that file. So a target that keeps a file and has a copy of it under another name is out of
  // reach.
  lemma SharedSourceFails(t: Tools, entries: seq<DiffInfo>, old_: Dir, diff: Dir, i: nat, j: nat)
    requires i < j < |entries| && OldPath(entries[i]) == OldPath(entries[j]) && NeedsOld(entries[j])
    ensures !AllDone(t, entries, old_, diff)
  {
    assert !EntryDone(t, entries, j, old_, diff);
  }
}
