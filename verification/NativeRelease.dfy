/** The native release installer and its recovery (internal/mgsctl/native_release.go). */
module NativeRelease {
  import opened Wrappers
  import opened CrashDisk
  import opened NativeReleaseFiles
  import opened NativeReleaseProtocol

  /** A verified archive: its checksum and the hashes of the files it holds. */
  datatype Release = Release(digest: string, files: Hashes)
  {
    predicate Valid() {
      files != map[] && ValidDigest(digest) && ValidHashes(files)
    }
  }

  ghost predicate Ready(d: Disk<Store>)
    reads d
  {
    d.Valid() && d.rule == Step
  }

  twostate predicate Continues(d: Disk<Store>)
    reads d
  {
    Ready(d) && d.Continued() && (Inv(old(d.store)) ==> Inv(d.store))
  }

  method Do(d: Disk<Store>, next: Store) returns (ok: bool)
    requires Ready(d) && Step(d.store, next)
    modifies d
    ensures Continues(d)
    ensures d.store == old(d.store) || d.store == next
    ensures ok ==> d.store == next
    ensures d.Failures() == old(d.Failures()) - (if !ok && d.alive then 1 else 0)
    ensures old(d.Quiet()) ==> ok
  {
    if Inv(d.store) {
      StepKeepsInv(d.store, next);
    }
    ok := d.Attempt(next);
  }

  // ---------- comparing directories ----------

  datatype Match = Match(present: bool, matches: bool)

  /** Whether a directory is there, and whether it is the expected one. An empty expectation is
      matched by no directory. */
  function DirectoryMatches(dirs: map<Top, Hashes>, t: Top, expected: Hashes): (r: Match)
    ensures r.present <==> t in dirs
    ensures r.matches <==> expected != map[] && Get(dirs, t) == Some(expected)
  {
    if t !in dirs then Match(false, false)
    else if expected == map[] then Match(true, false)
    else
      EqualStringMapsDecides(dirs[t], expected);
      Match(true, EqualStringMaps(dirs[t], expected))
  }

  /** The tree check accepts exactly the directories of the release. */
  method ValidateTree(dirs: map<Top, Hashes>, expected: Hashes) returns (valid: bool)
    ensures valid <==> IsTree(dirs, expected)
  {
    hide ForTop;
    for i := 0 to 3
      invariant forall t :: Index(t) < i ==> HasPart(dirs, expected, t)
    {
      var t := Nth(i);
      var wanted := ForTop(expected, t);
      var m := DirectoryMatches(dirs, t, wanted);
      if !(wanted == map[] && !m.present) && (!m.present || !m.matches) {
        assert !HasPart(dirs, expected, t);
        return false;
      }
    }
    return true;
  }

  // ---------- recovery ----------

  /** How a recovery ends: the previous release is back, the directories were not recognised, or
      something failed on the way. */
  datatype Recovery = Restored | Refused | Interrupted

  ghost predicate AllRecognised(s: Store, j: Journal) {
    forall t :: Recognised(s, j, t)
  }

  /** The previous release is in place and everything but the directories is as it was. */
  ghost predicate BackTo(s: Store, t: Store, j: Journal) {
    t == s.(target := t.target, backup := map[]) && IsTree(t.target, j.previousFiles)
  }

  /** The recovery of a first installation: there is no previous release, so whatever is verified to
      be of the pending one is removed. */
  method RecoverFirstInstall(d: Disk<Store>, j: Journal) returns (r: Recovery)
    requires Ready(d) && d.store.pending == Some(j) && d.store.marker != Some(j.digest)
    requires ValidJournal(j) && j.previousDigest == ""
    modifies d
    ensures Continues(d) && d.store == old(d.store).(target := d.store.target, backup := d.store.backup)
    ensures r == Refused || !AllRecognised(old(d.store), j) ==> r != Restored && d.store == old(d.store)
    ensures r == Restored ==> BackTo(old(d.store), d.store, j)
    ensures r == Refused ==> !AllRecognised(old(d.store), j)
    ensures d.Accounts(r != Interrupted)
    ensures old(d.Quiet()) ==> (r == Restored <==> AllRecognised(old(d.store), j))
  {
    hide ForTop;
    hide Inv;
    hide Step;
    hide BackTo;
    NoPreviousParts(j);
    for i := 0 to 3
      invariant Continues(d) && d.store == old(d.store) && d.Failures() == old(d.Failures())
      invariant forall t :: Index(t) < i ==> Recognised(d.store, j, t)
    {
      var t := Nth(i);
      var ok := d.Read();
      if !ok {
        return Interrupted;
      }
      if t in d.store.backup {
        assert !Recognised(d.store, j, t);
        return Refused;
      }
      var m := DirectoryMatches(d.store.target, t, j.Next(t));
      if m.present && !m.matches {
        assert !Recognised(d.store, j, t);
        return Refused;
      }
    }
    assert AllRecognised(d.store, j);
    var ok := RemoveVerified(d, j);
    return if ok then Restored else Interrupted;
  }

  /** Removes every directory of the pending release. */
  method RemoveVerified(d: Disk<Store>, j: Journal) returns (ok: bool)
    requires Ready(d) && d.store.pending == Some(j) && d.store.marker != Some(j.digest)
    requires AllRecognised(d.store, j) && j.previousFiles == map[]
    modifies d
    ensures Continues(d) && d.store == old(d.store).(target := d.store.target)
    ensures ok ==> BackTo(old(d.store), d.store, j)
    ensures d.Accounts(ok)
    ensures old(d.Quiet()) ==> ok
  {
    hide ForTop;
    hide Inv;
    hide Step;
    NoPreviousParts(j);
    assert d.store.backup == map[] by {
      assert forall t :: Recognised(d.store, j, t) ==> t !in d.store.backup;
    }
    assert forall t :: Recognised(d.store, j, t) ==> t !in d.store.target || Swapped(d.store, j, t);
    for i := 0 to 3
      invariant Continues(d) && d.Failures() == old(d.Failures())
      invariant d.store == old(d.store).(target := d.store.target)
      invariant forall t :: t in d.store.target ==> i <= Index(t) && Swapped(d.store, j, t)
    {
      var t := Nth(i);
      if t in d.store.target {
        SwapIsStep(d.store, d.store.(target := d.store.target - {t}), t);
        ok := Do(d, d.store.(target := d.store.target - {t}));
        if !ok {
          return;
        }
      }
    }
    assert forall t :: j.Previous(t) == map[] ==> HasPart(d.store.target, j.previousFiles, t);
    ok := true;
  }

  lemma SwapIsStep(s: Store, t: Store, top: Top)
    requires SwapStep(s, t, top)
    ensures Step(s, t)
  {
  }

  lemma NoPreviousParts(j: Journal)
    requires j.previousFiles == map[]
    ensures forall t :: j.Previous(t) == map[]
  {
  }

  /** What the classification of one directory has found. */
  datatype Finding = Finding(targetIsNext: bool, backupExists: bool)

  /** What the classification says about a recognised directory. */
  ghost predicate Describes(found: Finding, s: Store, j: Journal, t: Top) {
    && Recognised(s, j, t) && found.backupExists == (t in s.backup)
    && (found.targetIsNext <==> Swapped(s, j, t) && !Waiting(s, j, t))
  }

  /** One directory against the two releases of the journal; nothing if it is inconsistent. */
  method Classify(s: Store, j: Journal, t: Top) returns (found: Option<Finding>)
    ensures found.Some? <==> Recognised(s, j, t)
    ensures found.Some? ==> Describes(found.value, s, j, t)
  {
    hide ForTop;
    var previous := j.Previous(t);
    var target := DirectoryMatches(s.target, t, previous);
    var next := DirectoryMatches(s.target, t, j.Next(t));
    var backup := DirectoryMatches(s.backup, t, previous);
    if backup.present && (previous == map[] || !backup.matches) {
      return None;
    }
    if previous == map[] {
      if backup.present || (target.present && !next.matches) {
        return None;
      }
      return Some(Finding(target.present, backup.present));
    }
    if backup.present {
      if target.present && !next.matches {
        return None;
      }
      return Some(Finding(target.present, backup.present));
    }
    if !target.present || !target.matches {
      return None;
    }
    return Some(Finding(false, backup.present));
  }

  /** Classifies all three directories and changes nothing. */
  method ClassifyAll(d: Disk<Store>, j: Journal) returns (r: Recovery, found: map<Top, Finding>)
    requires Ready(d) && d.store.pending == Some(j)
    modifies d
    ensures Continues(d) && d.store == old(d.store)
    ensures r == Restored ==>
              AllRecognised(d.store, j) && forall t :: t in found && Describes(found[t], d.store, j, t)
    ensures r == Refused ==> !AllRecognised(d.store, j)
    ensures d.Accounts(r != Interrupted)
    ensures old(d.Quiet()) ==> r != Interrupted
  {
    hide ForTop;
    hide Step;
    hide Inv;
    found := map[];
    for i := 0 to 3
      invariant Continues(d) && d.store == old(d.store) && d.Failures() == old(d.Failures())
      invariant forall t :: t in found <==> Index(t) < i
      invariant forall t :: t in found ==> Describes(found[t], d.store, j, t)
    {
      var t := Nth(i);
      var ok := d.Read();
      if !ok {
        return Interrupted, found;
      }
      var finding := Classify(d.store, j, t);
      if finding.None? {
        return Refused, found;
      }
      found := found[t := finding.value];
    }
    return Restored, found;
  }

  /** The recovery of an update: all three directories are classified before any is touched, and
      then each goes back to the previous release. */
  method RecoverUpdate(d: Disk<Store>, j: Journal) returns (r: Recovery)
    requires Ready(d) && d.store.pending == Some(j) && d.store.marker != Some(j.digest)
    requires ValidJournal(j) && j.previousDigest != ""
    modifies d
    ensures Continues(d) && d.store == old(d.store).(target := d.store.target, backup := d.store.backup)
    ensures r == Refused || !AllRecognised(old(d.store), j) ==> r != Restored && d.store == old(d.store)
    ensures r == Restored ==> BackTo(old(d.store), d.store, j)
    ensures r == Refused ==> !AllRecognised(old(d.store), j)
    ensures d.Accounts(r != Interrupted)
    ensures old(d.Quiet()) ==> (r == Restored <==> AllRecognised(old(d.store), j))
  {
    hide ForTop;
    hide Step;
    hide Inv;
    hide Waiting;
    hide Recognised;
    hide Swapped;
    var found;
    r, found := ClassifyAll(d, j);
    if r != Restored {
      return;
    }
    for i := 0 to 3
      invariant Continues(d) && d.Failures() == old(d.Failures())
      invariant d.store == old(d.store).(target := d.store.target, backup := d.store.backup)
      invariant forall t :: Index(t) < i ==> Waiting(d.store, j, t)
      invariant forall t :: i <= Index(t) ==> Describes(found[t], d.store, j, t)
    {
      ghost var before := d.store;
      var t := Nth(i);
      var ok := RestoreDirectory(d, j, t, found[t]);
      if !ok {
        return Interrupted;
      }
      OthersAsBefore(before, d.store, j, t);
    }
    WaitingIsPrevious(d.store, j);
    var ok := d.Read();
    var valid := ValidateTree(d.store.target, j.previousFiles);
    return if ok && valid then Restored else Interrupted;
  }

  lemma OthersAsBefore(s: Store, after: Store, j: Journal, t: Top)
    requires forall o :: o != t ==> Get(after.target, o) == Get(s.target, o) && Get(after.backup, o) == Get(s.backup, o)
    ensures forall o :: o != t ==> (Waiting(after, j, o) <==> Waiting(s, j, o))
    ensures forall o, found :: o != t ==> (Describes(found, after, j, o) <==> Describes(found, s, j, o))
  {
    hide ForTop;
  }

  lemma WaitingIsPrevious(s: Store, j: Journal)
    requires forall t :: Waiting(s, j, t)
    ensures IsTree(s.target, j.previousFiles) && s.backup == map[]
  {
    hide ForTop;
    assert forall t :: Waiting(s, j, t) ==> HasPart(s.target, j.previousFiles, t) && t !in s.backup;
  }

  /** Takes one recognised directory back to the previous release. */
  method RestoreDirectory(d: Disk<Store>, j: Journal, t: Top, found: Finding) returns (ok: bool)
    requires Ready(d) && d.store.pending == Some(j) && d.store.marker != Some(j.digest)
    requires Describes(found, d.store, j, t)
    modifies d
    ensures Continues(d)
    ensures d.store == old(d.store).(target := d.store.target, backup := d.store.backup)
    ensures forall o :: o != t ==>
              Get(d.store.target, o) == Get(old(d.store).target, o) && Get(d.store.backup, o) == Get(old(d.store).backup, o)
    ensures ok ==> Waiting(d.store, j, t)
    ensures d.Accounts(ok)
    ensures old(d.Quiet()) ==> ok
  {
    hide ForTop;
    hide Step;
    hide Inv;
    if found.targetIsNext {
      ok := RemovePublication(d, j, t);
      if !ok {
        return;
      }
    }
    if found.backupExists {
      ok := RestoreBackup(d, j, t);
    } else {
      ok := d.Read();
    }
  }

  /** Removes a published directory. */
  method RemovePublication(d: Disk<Store>, j: Journal, t: Top) returns (ok: bool)
    requires Ready(d) && d.store.pending == Some(j) && d.store.marker != Some(j.digest) && Swapped(d.store, j, t)
    modifies d
    ensures Continues(d)
    ensures d.store == old(d.store) || d.store == old(d.store).(target := old(d.store).target - {t})
    ensures ok ==> d.store == old(d.store).(target := old(d.store).target - {t})
    ensures d.Accounts(ok)
    ensures old(d.Quiet()) ==> ok
  {
    hide ForTop;
    hide Step;
    hide Inv;
    SwapIsStep(d.store, d.store.(target := d.store.target - {t}), t);
    ok := Do(d, d.store.(target := d.store.target - {t}));
  }

  /** Renames a backup to its own name. */
  method RestoreBackup(d: Disk<Store>, j: Journal, t: Top) returns (ok: bool)
    requires Ready(d) && d.store.pending == Some(j) && d.store.marker != Some(j.digest) && BackedUp(d.store, j, t)
    modifies d
    ensures Continues(d)
    ensures d.store == old(d.store).(target := d.store.target, backup := d.store.backup)
    ensures forall o :: o != t ==>
              Get(d.store.target, o) == Get(old(d.store).target, o) && Get(d.store.backup, o) == Get(old(d.store).backup, o)
    ensures ok ==> Waiting(d.store, j, t)
    ensures d.Accounts(ok)
    ensures old(d.Quiet()) ==> ok
  {
    hide ForTop;
    hide Step;
    hide Inv;
    var restored := d.store.(target := d.store.target[t := d.store.backup[t]], backup := d.store.backup - {t});
    SwapIsStep(d.store, restored, t);
    ok := Do(d, restored);
  }

  /** Recovery from a pending journal, on any store that has it and is not committed to it: it puts
      the previous release back exactly when every directory is recognised, and otherwise leaves the
      store as it found it. */
  method RecoverPendingNativeRelease(d: Disk<Store>, j: Journal) returns (r: Recovery)
    requires Ready(d) && d.store.pending == Some(j) && d.store.marker != Some(j.digest) && ValidJournal(j)
    modifies d
    ensures Continues(d) && d.store == old(d.store).(target := d.store.target, backup := d.store.backup)
    ensures r == Refused || !AllRecognised(old(d.store), j) ==> r != Restored && d.store == old(d.store)
    ensures r == Restored ==> BackTo(old(d.store), d.store, j)
    ensures r == Refused ==> !AllRecognised(old(d.store), j)
    ensures d.Accounts(r != Interrupted)
    ensures old(d.Quiet()) ==> (r == Restored <==> AllRecognised(old(d.store), j))
  {
    if j.previousDigest == "" {
      r := RecoverFirstInstall(d, j);
    } else {
      r := RecoverUpdate(d, j);
    }
  }

  // ---------- backups ----------

  /** Every backup is the directory of the previous release. */
  ghost predicate BackupsMatch(backup: map<Top, Hashes>, previousFiles: Hashes) {
    forall t :: t in backup ==> BackupMatches(backup, previousFiles, t)
  }

  ghost predicate BackupMatches(backup: map<Top, Hashes>, previousFiles: Hashes, t: Top) {
    ForTop(previousFiles, t) != map[] && Get(backup, t) == Some(ForTop(previousFiles, t))
  }

  /** Removes the backups of an update after verifying all of them. */
  method RemoveBackups(d: Disk<Store>, previousFiles: Hashes) returns (ok: bool)
    requires Ready(d) && d.store.pending.Some? && !Swapping(d.store)
    modifies d
    ensures Continues(d) && d.store == old(d.store).(backup := d.store.backup)
    ensures !BackupsMatch(old(d.store).backup, previousFiles) ==> !ok && d.store == old(d.store)
    ensures ok ==> d.store.backup == map[]
    ensures BackupsMatch(old(d.store).backup, previousFiles) ==> d.Accounts(ok)
    ensures old(d.Quiet()) ==> (ok <==> BackupsMatch(old(d.store).backup, previousFiles))
  {
    hide Step;
    hide Inv;
    hide BackupsMatch;
    ok := VerifyBackups(d, previousFiles);
    if !ok {
      return;
    }
    for i := 0 to 3
      invariant Continues(d) && d.Failures() == old(d.Failures()) && d.store == old(d.store).(backup := d.store.backup)
      invariant forall t :: t in d.store.backup ==> i <= Index(t)
    {
      var t := Nth(i);
      if t in d.store.backup {
        SwapIsStep(d.store, d.store.(backup := d.store.backup - {t}), t);
        ok := Do(d, d.store.(backup := d.store.backup - {t}));
        if !ok {
          return;
        }
      }
    }
    ok := true;
  }

  lemma BackupIsMatched(backup: map<Top, Hashes>, previousFiles: Hashes, t: Top)
    ensures BackupMatches(backup, previousFiles, t) <==>
            DirectoryMatches(backup, t, ForTop(previousFiles, t)).matches
  {
    hide ForTop;
  }

  /** Looks at all backups before any is removed. */
  method VerifyBackups(d: Disk<Store>, previousFiles: Hashes) returns (ok: bool)
    requires Ready(d)
    modifies d
    ensures Continues(d) && d.store == old(d.store)
    ensures ok ==> BackupsMatch(d.store.backup, previousFiles)
    ensures ok ==> d.Failures() == old(d.Failures())
    ensures !ok && d.alive && BackupsMatch(d.store.backup, previousFiles) ==> d.Failures() < old(d.Failures())
    ensures old(d.Quiet()) ==> (ok <==> BackupsMatch(d.store.backup, previousFiles))
  {
    hide ForTop;
    hide Step;
    hide Inv;
    hide BackupMatches;
    for i := 0 to 3
      invariant Continues(d) && d.store == old(d.store) && d.Failures() == old(d.Failures())
      invariant forall t :: Index(t) < i && t in d.store.backup ==> BackupMatches(d.store.backup, previousFiles, t)
    {
      var t := Nth(i);
      BackupIsMatched(d.store.backup, previousFiles, t);
      ok := d.Read();
      if !ok {
        return;
      }
      var m := DirectoryMatches(d.store.backup, t, ForTop(previousFiles, t));
      if m.present && !m.matches {
        return false;
      }
    }
    ok := true;
  }

  // ---------- what a release must hold ----------

  /** Every required file of the plan is in one of the directories. */
  predicate Present(dirs: map<Top, Hashes>, required: set<string>) {
    forall path :: path in required ==> Holds(dirs, Bin, path) || Holds(dirs, Web, path) || Holds(dirs, Api, path)
  }

  predicate Holds(dirs: map<Top, Hashes>, t: Top, path: string) {
    Prefix(t) <= path && t in dirs && path[|Prefix(t)|..] in dirs[t]
  }

  /** The required files lie below the three directories. */
  ghost predicate BelowTops(required: set<string>) {
    forall path :: path in required ==> exists t :: Prefix(t) <= path
  }

  lemma TreeHoldsRequired(dirs: map<Top, Hashes>, files: Hashes, required: set<string>)
    requires IsTree(dirs, files) && required <= files.Keys && BelowTops(required)
    ensures Present(dirs, required)
  {
    forall path | path in required
      ensures exists t :: Holds(dirs, t, path)
    {
      var t :| Prefix(t) <= path;
      assert HasPart(dirs, files, t);
      assert path == Prefix(t) + path[|Prefix(t)|..];
      assert path[|Prefix(t)|..] in ForTop(files, t);
      assert Holds(dirs, t, path);
    }
  }

  /** What extracting the archive leaves under one name of the staging directory. */
  function ExtractedEntry(files: Hashes, t: Top): Option<Entry> {
    if Name(t) in files then Some(RegularFile)
    else if ForTop(files, t) != map[] then Some(Directory(ForTop(files, t)))
    else None
  }

  function Extracted(files: Hashes): map<Top, Entry> {
    map t: Top | t in {Bin, Web, Api} && ExtractedEntry(files, t).Some? :: ExtractedEntry(files, t).value
  }

  function GetEntry(stage: map<Top, Entry>, t: Top): Option<Entry> {
    if t in stage then Some(stage[t]) else None
  }

  // ---------- publishing ----------

  /** The directory of the next release is in place and the previous one, if any, is the backup. */
  ghost predicate Exchanged(s: Store, j: Journal, t: Top) {
    HasPart(s.target, j.files, t) && Get(s.backup, t) == Wanted(j.Previous(t))
  }

  /** Nothing of this directory has been touched since staging. */
  ghost predicate Untouched(s: Store, j: Journal, t: Top) {
    Waiting(s, j, t) && GetEntry(s.stage, t) == ExtractedEntry(j.files, t)
  }

  /** All directories but one are as they were. */
  ghost predicate OthersSame(s: Store, t: Store, top: Top) {
    && t == s.(target := t.target, backup := t.backup, stage := t.stage)
    && forall o :: o != top ==>
         && Get(t.target, o) == Get(s.target, o) && Get(t.backup, o) == Get(s.backup, o)
         && GetEntry(t.stage, o) == GetEntry(s.stage, o)
  }

  /** The installed directory becomes the backup. */
  method BackUpDirectory(d: Disk<Store>, j: Journal, t: Top) returns (ok: bool)
    requires Ready(d) && d.store.pending == Some(j) && Swapping(d.store) && Waiting(d.store, j, t)
    requires j.previousDigest == "" ==> j.previousFiles == map[]
    modifies d
    ensures Continues(d) && OthersSame(old(d.store), d.store, t) && d.store.stage == old(d.store).stage
    ensures ok ==> t !in d.store.target && Get(d.store.backup, t) == Wanted(j.Previous(t))
    ensures ok ==> BackedUp(d.store, j, t) || Waiting(d.store, j, t)
    ensures d.Accounts(ok)
    ensures old(d.Quiet()) ==> ok
  {
    hide ForTop;
    hide Step;
    hide Inv;
    if j.previousDigest != "" && t in d.store.target {
      var backedUp := d.store.(target := d.store.target - {t}, backup := d.store.backup[t := d.store.target[t]]);
      SwapIsStep(d.store, backedUp, t);
      ok := Do(d, backedUp);
    } else {
      NothingBelow(t);
      ok := d.Read();
    }
  }

  lemma StagedEntry(s: Store, j: Journal, t: Top)
    requires GetEntry(s.stage, t) == ExtractedEntry(j.files, t)
    ensures Name(t) in j.files <==> t in s.stage && s.stage[t].RegularFile?
    ensures t in s.stage && s.stage[t].Directory? ==>
              j.Next(t) != map[] && GetEntry(s.stage, t) == Some(Directory(j.Next(t)))
    ensures t !in s.stage ==> j.Next(t) == map[]
  {
    hide ForTop;
  }

  /** Swaps one directory: the installed one becomes the backup, the staged one takes its place. */
  method ExchangeDirectory(d: Disk<Store>, j: Journal, t: Top) returns (ok: bool)
    requires Ready(d) && d.store.pending == Some(j) && Swapping(d.store) && Untouched(d.store, j, t)
    requires j.previousDigest == "" ==> j.previousFiles == map[]
    modifies d
    ensures Continues(d) && OthersSame(old(d.store), d.store, t)
    ensures ok ==> Exchanged(d.store, j, t) && Name(t) !in j.files
    ensures if Name(t) in j.files then !ok else d.Accounts(ok)
    ensures old(d.Quiet()) ==> (ok <==> Name(t) !in j.files)
  {
    hide ForTop;
    hide Step;
    hide Inv;
    hide ExtractedEntry;
    StagedEntry(d.store, j, t);
    ok := d.Read();
    if !ok || (t in d.store.stage && d.store.stage[t].RegularFile?) {
      return false;
    }
    var staged := t in d.store.stage;
    ok := BackUpDirectory(d, j, t);
    if !ok {
      return;
    }
    if staged {
      ok := PublishDirectory(d, j, t);
    }
  }

  /** The staged directory is renamed into place. */
  method PublishDirectory(d: Disk<Store>, j: Journal, t: Top) returns (ok: bool)
    requires Ready(d) && d.store.pending == Some(j) && Swapping(d.store)
    requires t !in d.store.target && (BackedUp(d.store, j, t) || Waiting(d.store, j, t))
    requires j.Next(t) != map[] && GetEntry(d.store.stage, t) == Some(Directory(j.Next(t)))
    modifies d
    ensures Continues(d) && OthersSame(old(d.store), d.store, t) && d.store.backup == old(d.store).backup
    ensures ok ==> Get(d.store.target, t) == Some(j.Next(t))
    ensures d.Accounts(ok)
    ensures old(d.Quiet()) ==> ok
  {
    hide ForTop;
    hide Step;
    hide Inv;
    var published := d.store.(target := d.store.target[t := d.store.stage[t].files], stage := d.store.stage - {t});
    SwapIsStep(d.store, published, t);
    ok := Do(d, published);
  }

  method ExchangeDirectories(d: Disk<Store>, j: Journal) returns (ok: bool)
    requires Ready(d) && d.store.pending == Some(j) && Swapping(d.store)
    requires forall t :: Untouched(d.store, j, t)
    requires j.previousDigest == "" ==> j.previousFiles == map[]
    modifies d
    ensures Continues(d)
    ensures d.store == old(d.store).(target := d.store.target, backup := d.store.backup, stage := d.store.stage)
    ensures ok ==> NoBareTop(j.files) && forall t :: Exchanged(d.store, j, t)
    ensures if NoBareTop(j.files) then d.Accounts(ok) else !ok
    ensures old(d.Quiet()) ==> (ok <==> NoBareTop(j.files))
  {
    hide ForTop;
    hide Step;
    hide Inv;
    for i := 0 to 3
      invariant Continues(d) && d.Failures() == old(d.Failures())
      invariant d.store == old(d.store).(target := d.store.target, backup := d.store.backup, stage := d.store.stage)
      invariant forall t :: Index(t) < i ==> Exchanged(d.store, j, t) && Name(t) !in j.files
      invariant forall t :: i <= Index(t) ==> Untouched(d.store, j, t)
    {
      var t := Nth(i);
      ok := ExchangeDirectory(d, j, t);
      if !ok {
        return;
      }
    }
    assert Name(Bin) !in j.files && Name(Web) !in j.files && Name(Api) !in j.files;
    ok := true;
  }

  // ---------- the command ----------

  /** Whatever is on disk under the archive's digest holds the archive's files. */
  ghost predicate DigestNames(s: Store, release: Release) {
    && (s.pending.Some? && s.pending.value.digest == release.digest ==> s.pending.value.files == release.files)
    && (s.manifest.Some? && s.manifest.value.digest == release.digest ==> s.manifest.value.files == release.files)
  }

  /** No update to another archive is pending. */
  ghost predicate Mine(s: Store, release: Release) {
    s.pending.Some? ==> s.pending.value.digest == release.digest
  }

  /** The release is installed and nothing is left to recover. */
  ghost predicate Complete(s: Store, release: Release) {
    && s.marker == Some(release.digest) && s.manifest == Some(Manifest(release.digest, release.files))
    && IsTree(s.target, release.files) && s.pending.None? && s.backup == map[]
  }

  /** What the run insists on before it touches the leftovers of a marked release. */
  ghost predicate Verified(s: Store, release: Release, required: set<string>) {
    && Present(s.target, required) && s.manifest.Some?
    && s.manifest.value == Manifest(release.digest, s.manifest.value.files) && IsTree(s.target, s.manifest.value.files)
    && (s.pending.Some? ==>
          s.pending.value.digest == release.digest && BackupsMatch(s.backup, s.pending.value.previousFiles))
  }

  /** The marker names this archive already: its tree is verified and the leftovers of its update are
      removed. Nothing is touched unless everything has been verified. */
  method FinishInstalled(d: Disk<Store>, release: Release, required: set<string>) returns (ok: bool)
    requires Ready(d) && d.store.marker == Some(release.digest)
    modifies d
    ensures Continues(d) && d.store == old(d.store).(pending := d.store.pending, backup := d.store.backup)
    ensures d.store.pending == old(d.store).pending || d.store.pending.None?
    ensures !Verified(old(d.store), release, required) ==> !ok && d.store == old(d.store)
    ensures ok ==> d.store.pending.None? && (old(d.store).pending.Some? ==> d.store.backup == map[])
    ensures Verified(old(d.store), release, required) ==> d.Accounts(ok)
    ensures old(d.Quiet()) ==> (ok <==> Verified(old(d.store), release, required))
  {
    hide ForTop;
    hide Step;
    hide Inv;
    ok := d.Read();
    if !ok || !Present(d.store.target, required) {
      return false;
    }
    ok := d.Read();
    if !ok || d.store.manifest.None? || d.store.manifest.value != Manifest(release.digest, d.store.manifest.value.files) {
      return false;
    }
    var valid := ValidateTree(d.store.target, d.store.manifest.value.files);
    if !valid {
      return false;
    }
    if d.store.pending.Some? {
      var j := d.store.pending.value;
      if j.digest != release.digest {
        return false;
      }
      ok := RemoveBackups(d, j.previousFiles);
      if !ok {
        return;
      }
      ok := RemovePending(d);
    }
  }

  /** In a store the protocol can reach, the leftovers of this archive's own update are verified. */
  lemma MarkedIsVerified(s: Store, release: Release, required: set<string>)
    requires Inv(s) && s.marker == Some(release.digest)
    ensures s.pending.None? ==> s.backup == map[]
    ensures Mine(s, release) && Present(s.target, required) ==> Verified(s, release, required)
  {
    hide ForTop;
    assert forall t :: t in s.backup && s.pending.Some? && s.backup[t] == s.pending.value.Previous(t)
                       && s.pending.value.Previous(t) != map[] ==>
        BackupMatches(s.backup, s.pending.value.previousFiles, t);
  }

  method RemovePending(d: Disk<Store>) returns (ok: bool)
    requires Ready(d) && d.store.pending.Some? && !Swapping(d.store) && d.store.backup == map[]
    modifies d
    ensures Continues(d) && d.store == old(d.store).(pending := d.store.pending)
    ensures d.store.pending == old(d.store).pending || d.store.pending.None?
    ensures ok ==> d.store.pending.None?
    ensures d.Accounts(ok)
    ensures old(d.Quiet()) ==> ok
  {
    assert PendingRemoved(d.store, d.store.(pending := None));
    ok := Do(d, d.store.(pending := None));
  }

  /** What the run insists on before an update: with a journal, that it is of this archive and that every
      directory is recognised; with a marker, that the manifest names it, the tree matches and no backup
      lies about; with neither, that there is nothing at all. */
  ghost predicate Updatable(s: Store, release: Release) {
    match s.pending
    case Some(j) => j.digest == release.digest && ValidJournal(j) && AllRecognised(s, j)
    case None =>
      if s.marker.Some? then
        && s.manifest.Some? && s.manifest.value == Manifest(s.marker.value, s.manifest.value.files)
        && ValidJournal(s.manifest.value) && IsTree(s.target, s.manifest.value.files) && s.backup == map[]
      else Blank(s)
  }

  /** The release to go back to: the one restored from a pending journal, the installed one, or none.
      The result is what the next journal records as previous. Anything else is refused and left alone. */
  method EstablishPrevious(d: Disk<Store>, release: Release) returns (previous: Option<Release>)
    requires Ready(d) && d.store.marker != Some(release.digest)
    modifies d
    ensures Continues(d) && d.store == old(d.store).(target := d.store.target, backup := d.store.backup)
    ensures !Updatable(old(d.store), release) ==> previous.None? && d.store == old(d.store)
    ensures previous.Some? ==> d.store.backup == map[] && IsTree(d.store.target, previous.value.files)
    ensures previous.Some? && d.store.pending.Some? ==>
              && d.store.pending.value.digest == release.digest
              && previous.value == Release(d.store.pending.value.previousDigest, d.store.pending.value.previousFiles)
    ensures previous.Some? && d.store.pending.None? ==>
              if d.store.marker.None? then Blank(d.store) && previous.value == Release("", map[])
              else Installed(d.store, previous.value.digest, previous.value.files)
    ensures Updatable(old(d.store), release) ==> d.Accounts(previous.Some?)
    ensures old(d.Quiet()) ==> (previous.Some? <==> Updatable(old(d.store), release))
  {
    hide ForTop;
    hide Step;
    hide Inv;
    var ok := d.Read();
    if !ok {
      return None;
    }
    if d.store.pending.Some? {
      var j := d.store.pending.value;
      if j.digest != release.digest || !ValidJournal(j) {
        return None;
      }
      var r := RecoverPendingNativeRelease(d, j);
      return if r == Restored then Some(Release(j.previousDigest, j.previousFiles)) else None;
    }
    if d.store.marker.Some? {
      ok := CheckInstalled(d);
      return if ok then Some(Release(d.store.marker.value, d.store.manifest.value.files)) else None;
    }
    ok := d.Read();
    if !ok || d.store.manifest.Some? || d.store.backup != map[] || d.store.target != map[] {
      return None;
    }
    NoTree(d.store.target);
    return Some(Release("", map[]));
  }

  /** The checks of an installed release before it is updated. */
  method CheckInstalled(d: Disk<Store>) returns (ok: bool)
    requires Ready(d) && d.store.pending.None? && d.store.marker.Some?
    modifies d
    ensures Continues(d) && d.store == old(d.store)
    ensures ok ==> Installed(d.store, d.store.marker.value, if d.store.manifest.Some? then d.store.manifest.value.files else map[])
    ensures ok ==> d.store.backup == map[] && d.Failures() == old(d.Failures())
    ensures forall release :: Updatable(d.store, release) ==> d.Accounts(ok)
    ensures forall release :: ok ==> Updatable(d.store, release)
    ensures old(d.Quiet()) ==> forall release :: ok <==> Updatable(d.store, release)
  {
    hide ForTop;
    hide Step;
    hide Inv;
    ok := d.Read();
    if !ok || d.store.manifest.None? || d.store.manifest.value != Manifest(d.store.marker.value, d.store.manifest.value.files)
       || !ValidJournal(d.store.manifest.value) {
      return false;
    }
    var valid := ValidateTree(d.store.target, d.store.manifest.value.files);
    if !valid || d.store.backup != map[] {
      return false;
    }
    ok := d.Read();
  }

  /** A reachable store may be updated to an archive unless an update to another one is pending. */
  lemma ReachableIsUpdatable(s: Store, release: Release)
    requires Inv(s) && s.marker != Some(release.digest) && Mine(s, release)
    ensures Updatable(s, release)
  {
    hide ForTop;
  }

  lemma NoTree(dirs: map<Top, Hashes>)
    requires dirs == map[]
    ensures IsTree(dirs, map[])
  {
  }

  /** Manifest first, then the marker that commits, then the leftovers. */
  method Commit(d: Disk<Store>, j: Journal) returns (ok: bool)
    requires Ready(d) && Inv(d.store) && d.store.pending == Some(j) && Swapping(d.store)
    requires IsTree(d.store.target, j.files)
    modifies d
    ensures Continues(d)
    ensures d.store == old(d.store).(manifest := d.store.manifest, marker := d.store.marker,
                                     backup := d.store.backup, pending := d.store.pending)
    ensures d.store.manifest == old(d.store).manifest || d.store.manifest == Some(Manifest(j.digest, j.files))
    ensures d.store.pending == Some(j) || d.store.pending.None?
    ensures ok ==> Complete(d.store, Release(j.digest, j.files))
    ensures d.Accounts(ok)
    ensures old(d.Quiet()) ==> ok
  {
    hide ForTop;
    ok := Do(d, d.store.(manifest := Some(Manifest(j.digest, j.files))));
    if !ok {
      return;
    }
    ok := Do(d, d.store.(marker := Some(j.digest)));
    if !ok {
      return;
    }
    ok := RemoveBackups(d, j.previousFiles);
    if !ok {
      return;
    }
    ok := RemovePending(d);
  }

  method ClearStage(d: Disk<Store>) returns (ok: bool)
    requires Ready(d)
    modifies d
    ensures Continues(d) && d.store == old(d.store).(stage := d.store.stage)
    ensures ok ==> d.store.stage == map[]
    ensures d.Failures() == old(d.Failures()) - (if !ok && d.alive then 1 else 0)
    ensures old(d.Quiet()) ==> ok
  {
    ok := Do(d, d.store.(stage := map[]));
  }

  /** The journal that the update of a release starts with. */
  function NewPending(release: Release, previous: Release): Journal {
    Journal(release.digest, release.files, previous.digest, previous.files)
  }

  /** Stages the archive and makes sure that the journal on disk is the one of this update. */
  method StageAndRecord(d: Disk<Store>, release: Release, required: set<string>, previous: Release) returns (ok: bool)
    requires Ready(d) && Inv(d.store) && release.Valid() && d.store.marker != Some(release.digest)
    requires d.store.backup == map[] && IsTree(d.store.target, previous.files)
    requires d.store.pending.Some? ==> d.store.pending.value.digest == release.digest
    requires d.store.pending.Some? ==>
               previous == Release(d.store.pending.value.previousDigest, d.store.pending.value.previousFiles)
    requires d.store.pending.None? ==>
               if d.store.marker.None? then Blank(d.store) && previous == Release("", map[])
               else Installed(d.store, previous.digest, previous.files)
    modifies d
    ensures Continues(d) && d.store == old(d.store).(stage := d.store.stage, pending := d.store.pending)
    ensures d.store.pending == old(d.store).pending || d.store.pending == Some(NewPending(release, previous))
    ensures ok ==> required <= release.files.Keys
    ensures ok ==> d.store.stage == Extracted(release.files) && d.store.pending == Some(NewPending(release, previous))
    ensures ok ==> d.Failures() == old(d.Failures())
    ensures old(d.Quiet()) && required <= release.files.Keys && DigestNames(old(d.store), release) ==> ok
  {
    hide ForTop;
    ok := Do(d, d.store.(stage := Extracted(release.files)));
    if !ok || !(required <= release.files.Keys) {
      return false;
    }
    if d.store.pending.Some? {
      ok := EqualStringMaps(release.files, d.store.pending.value.files);
      EqualStringMapsDecides(release.files, d.store.pending.value.files);
    } else {
      var j := NewPending(release, previous);
      assert Begun(d.store, d.store.(pending := Some(j)));
      ok := Do(d, d.store.(pending := Some(j)));
    }
  }

  /** Everything from the staging to the end. */
  method Update(d: Disk<Store>, release: Release, required: set<string>, previous: Release) returns (ok: bool)
    requires Ready(d) && Inv(d.store) && release.Valid() && d.store.marker != Some(release.digest)
    requires d.store.backup == map[] && IsTree(d.store.target, previous.files)
    requires d.store.pending.Some? ==> d.store.pending.value.digest == release.digest
    requires d.store.pending.Some? ==>
               previous == Release(d.store.pending.value.previousDigest, d.store.pending.value.previousFiles)
    requires d.store.pending.None? ==>
               if d.store.marker.None? then Blank(d.store) && previous == Release("", map[])
               else Installed(d.store, previous.digest, previous.files)
    requires DigestNames(d.store, release)
    modifies d
    ensures Continues(d) && DigestNames(d.store, release) && Mine(d.store, release)
    ensures ok ==> required <= release.files.Keys && d.Failures() == old(d.Failures())
    ensures ok ==> Complete(d.store, release)
    ensures !NoBareTop(release.files) ==> !ok && d.store.marker == old(d.store).marker
    ensures old(d.Quiet()) ==> (ok <==> required <= release.files.Keys && NoBareTop(release.files))
  {
    hide ForTop;
    hide Step;
    hide Inv;
    ok := StageAndRecord(d, release, required, previous);
    if !ok {
      return;
    }
    var j := d.store.pending.value;
    PendingIsValid(d.store);
    StagedIsUntouched(d.store, j);
    ok := ExchangeDirectories(d, j);
    if !ok {
      return;
    }
    ExchangedIsTree(d.store, j);
    ok := Commit(d, j);
  }

  lemma PendingIsValid(s: Store)
    requires Inv(s) && s.pending.Some?
    ensures ValidJournal(s.pending.value)
  {
  }

  lemma StagedIsUntouched(s: Store, j: Journal)
    requires IsTree(s.target, j.previousFiles) && s.backup == map[] && s.stage == Extracted(j.files)
    ensures forall t :: Untouched(s, j, t)
  {
    hide ForTop;
    assert forall t :: HasPart(s.target, j.previousFiles, t) ==> Untouched(s, j, t);
  }

  lemma ExchangedIsTree(s: Store, j: Journal)
    requires forall t :: Exchanged(s, j, t)
    ensures IsTree(s.target, j.files)
  {
    hide ForTop;
    assert forall t :: Exchanged(s, j, t) ==> HasPart(s.target, j.files, t);
  }

  /** Installs a release over whatever an earlier run has left. An archive that lacks a required file is
      never installed, one that is installed already is only checked and cleaned up. */
  method Install(d: Disk<Store>, release: Release, required: set<string>) returns (ok: bool)
    requires Ready(d) && Inv(d.store) && release.Valid() && DigestNames(d.store, release)
    requires BelowTops(required)
    modifies d
    ensures Continues(d) && DigestNames(d.store, release)
    ensures Mine(old(d.store), release) ==> Mine(d.store, release)
    ensures ok ==> Complete(d.store, release)
    ensures ok ==> if old(d.store).marker == Some(release.digest) then Present(d.store.target, required)
                   else required <= release.files.Keys
    ensures !NoBareTop(release.files) && old(d.store).marker != Some(release.digest) ==>
              !ok && d.store.marker == old(d.store).marker
    ensures old(d.Quiet()) && Mine(old(d.store), release) && old(d.store).marker != Some(release.digest) ==>
              (ok <==> required <= release.files.Keys && NoBareTop(release.files))
    ensures old(d.Quiet()) && old(d.store).marker == Some(release.digest) ==>
              (ok <==> Mine(old(d.store), release) && Present(old(d.store).target, required))
    ensures old(d.Quiet()) && Mine(old(d.store), release) && required <= release.files.Keys ==>
              (ok <==> old(d.store).marker == Some(release.digest) || NoBareTop(release.files))
    ensures ok ==> old(d.Failures()) <= d.Failures() + 1
    ensures old(d.Quiet()) ==> d.store.stage == map[]
  {
    hide Step;
    hide Inv;
    ok := ClearStage(d);
    if !ok {
      return;
    }
    if d.store.marker == Some(release.digest) {
      ok := InstallMarked(d, release, required);
      return;
    }
    ok := InstallUpdate(d, release, required);
    // What is left of the staging directory is the next run's business.
    var _ := ClearStage(d);
  }

  /** The marker names this archive. */
  method InstallMarked(d: Disk<Store>, release: Release, required: set<string>) returns (ok: bool)
    requires Ready(d) && Inv(d.store) && DigestNames(d.store, release) && BelowTops(required)
    requires d.store.marker == Some(release.digest)
    modifies d
    ensures Continues(d) && DigestNames(d.store, release)
    ensures Mine(old(d.store), release) ==> Mine(d.store, release)
    ensures ok ==> Complete(d.store, release) && Present(d.store.target, required)
    ensures ok ==> d.Failures() == old(d.Failures())
    ensures d.store == old(d.store).(pending := d.store.pending, backup := d.store.backup)
    ensures old(d.Quiet()) ==> (ok <==> Mine(old(d.store), release) && Present(old(d.store).target, required))
    ensures old(d.Quiet()) && Mine(old(d.store), release) && required <= release.files.Keys ==> ok
  {
    hide ForTop;
    hide Step;
    MarkedIsVerified(d.store, release, required);
    if required <= release.files.Keys && Mine(d.store, release) {
      TreeHoldsRequired(d.store.target, release.files, required);
    }
    ok := FinishInstalled(d, release, required);
  }

  /** It names another archive or none. */
  method InstallUpdate(d: Disk<Store>, release: Release, required: set<string>) returns (ok: bool)
    requires Ready(d) && Inv(d.store) && release.Valid() && DigestNames(d.store, release)
    requires d.store.marker != Some(release.digest)
    modifies d
    ensures Continues(d) && DigestNames(d.store, release)
    ensures Mine(old(d.store), release) ==> Mine(d.store, release)
    ensures ok ==> Complete(d.store, release) && required <= release.files.Keys
    ensures ok ==> d.Failures() == old(d.Failures())
    ensures !NoBareTop(release.files) ==> !ok && d.store.marker == old(d.store).marker
    ensures old(d.Quiet()) && Mine(old(d.store), release) ==>
              (ok <==> required <= release.files.Keys && NoBareTop(release.files))
  {
    hide ForTop;
    hide Step;
    if Mine(d.store, release) {
      ReachableIsUpdatable(d.store, release);
    }
    hide Inv;
    hide Updatable;
    var previous := EstablishPrevious(d, release);
    if previous.None? {
      return false;
    }
    ok := Update(d, release, required, previous.value);
  }

  // ---------- whole runs ----------

  ghost predicate Underway(d: Disk<Store>, release: Release)
    reads d
  {
    Ready(d) && 0 < |d.trace| && Inv(d.trace[0]) && Inv(d.store) && DigestNames(d.store, release) && Mine(d.store, release)
  }

  /** Any number of runs of one archive, each failing and dying wherever its script says, recovery
      included, and then one that nothing interrupts: it ends with the release installed and nothing
      left over, provided the archive is publishable. On the way nothing was ever lost. */
  method InstallAfterAnyRuns(d: Disk<Store>, release: Release, required: set<string>, scripts: seq<seq<Fault>>)
    requires Underway(d, release) && release.Valid() && BelowTops(required) && required <= release.files.Keys
    requires NoBareTop(release.files)
    modifies d
    ensures Underway(d, release) && old(d.trace) <= d.trace
    ensures Complete(d.store, release) && d.store.stage == map[]
    ensures forall i :: 0 <= i < |d.trace| ==> NothingLost(d.trace[i])
  {
    hide Step;
    hide Inv;
    for i := 0 to |scripts|
      invariant Underway(d, release) && old(d.trace) <= d.trace
    {
      d.Boot(scripts[i]);
      var _ := Install(d, release, required);
    }
    d.Boot([]);
    var ok := Install(d, release, required);
    EveryReachableStoreLosesNothing(d.trace);
  }

  /** No number of runs, however they go, installs an archive with a bare top-level file. */
  method BareTopIsNeverInstalled(d: Disk<Store>, release: Release, required: set<string>, scripts: seq<seq<Fault>>)
    returns (installed: bool)
    requires Underway(d, release) && release.Valid() && BelowTops(required)
    requires !NoBareTop(release.files) && d.store.marker != Some(release.digest)
    modifies d
    ensures Underway(d, release) && d.store.marker == old(d.store).marker
    ensures !installed
  {
    hide Step;
    hide Inv;
    installed := false;
    for i := 0 to |scripts|
      invariant Underway(d, release) && d.store.marker == old(d.store).marker && !installed
    {
      d.Boot(scripts[i]);
      installed := Install(d, release, required);
    }
  }

  /** The program that every plan requires. */
  const DB_MIGRATE := "bin/" + "mikiko-gallery-studio-db-migrate"

  lemma DbMigrateLiesInBin()
    ensures FirstSegment(DB_MIGRATE) == "bin" && Prefix(Bin) <= DB_MIGRATE
    ensures FirstSegment("web") == "web"
  {
    var rest := "/" + "mikiko-gallery-studio-db-migrate";
    SegmentOf("bin", rest);
    SegmentOf("web", "");
    assert "bin" + rest == DB_MIGRATE && "web" + "" == "web";
  }

  /** An archive whose web entry is a regular file holds what a plan requires and passes every check made
      before the journal is written. */
  lemma BareTopIsAccepted(digest: string, hash: Digest)
    requires ValidDigest(digest) && ValidDigest(hash)
    ensures var release := Release(digest, map[DB_MIGRATE := hash, "web" := hash]);
            && release.Valid() && !NoBareTop(release.files)
            && {DB_MIGRATE} <= release.files.Keys && BelowTops({DB_MIGRATE})
  {
    DbMigrateLiesInBin();
    hide FirstSegment;
    hide Prefix;
    var files: Hashes := map[DB_MIGRATE := hash, "web" := hash];
    assert "web" in files && DB_MIGRATE in files;
  }

  /** That archive on an empty machine: no run of any series installs it, not even one that nothing
      interrupts. */
  method BareTopOnEmptyMachine(digest: string, hash: Digest, scripts: seq<seq<Fault>>) returns (installed: bool)
    requires ValidDigest(digest) && ValidDigest(hash)
    ensures !installed
  {
    hide ValidHashes;
    BareTopIsAccepted(digest, hash);
    var d := new Disk(Step, Store(map[], map[], map[], None, None, None));
    installed := BareTopIsNeverInstalled(d, Release(digest, map[DB_MIGRATE := hash, "web" := hash]), {DB_MIGRATE}, scripts);
  }

  lemma {:induction false} SegmentOf(name: string, rest: string)
    requires '/' !in name && (rest == "" || rest[0] == '/')
    ensures FirstSegment(name + rest) == name
  {
    if name == "" {
      assert name + rest == rest;
    } else {
      SegmentOf(name[1..], rest);
      assert (name + rest)[1..] == name[1..] + rest;
    }
  }
}
