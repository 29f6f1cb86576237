/** The directory-swap protocol of the native release publisher (internal/mgsctl/native_release.go):
    the steps it may take and what every run of such steps keeps. */
module NativeReleaseProtocol {
  import opened Wrappers
  import opened CrashDisk
  import opened NativeReleaseFiles

  /** The pending journal; with no previous release it also serves as the installed manifest. */
  datatype Journal = Journal(digest: string, files: Hashes, previousDigest: string, previousFiles: Hashes)
  {
    function Previous(t: Top): Hashes {
      ForTop(previousFiles, t)
    }

    function Next(t: Top): Hashes {
      ForTop(files, t)
    }
  }

  /** What lies under a name in the staging directory. */
  datatype Entry = Directory(files: Hashes) | RegularFile

  datatype Store = Store(target: map<Top, Hashes>, backup: map<Top, Hashes>, stage: map<Top, Entry>,
                         pending: Option<Journal>, manifest: Option<Journal>, marker: Option<string>)

  /** The manifest of an installed release. */
  function Manifest(digest: string, files: Hashes): Journal {
    Journal(digest, files, "", map[])
  }

  /** What a journal read from disk has to satisfy. */
  predicate ValidJournal(j: Journal) {
    && j.files != map[] && ValidDigest(j.digest) && ValidHashes(j.files)
    && (j.previousDigest != "" <==> j.previousFiles != map[])
    && (j.previousDigest != "" ==> ValidDigest(j.previousDigest) && ValidHashes(j.previousFiles))
  }

  function Get(m: map<Top, Hashes>, t: Top): Option<Hashes> {
    if t in m then Some(m[t]) else None
  }

  /** A release has a directory exactly for the names it has files under. */
  function Wanted(files: Hashes): Option<Hashes> {
    if files == map[] then None else Some(files)
  }

  /** The three directories are those of the release, and no others exist. */
  ghost predicate IsTree(dirs: map<Top, Hashes>, files: Hashes) {
    forall t :: HasPart(dirs, files, t)
  }

  ghost predicate HasPart(dirs: map<Top, Hashes>, files: Hashes, t: Top) {
    Get(dirs, t) == Wanted(ForTop(files, t))
  }

  // ---------- the states of one directory during an update ----------

  /** Not swapped yet: the previous directory is in place. */
  ghost predicate Waiting(s: Store, j: Journal, t: Top) {
    Get(s.target, t) == Wanted(j.Previous(t)) && t !in s.backup
  }

  /** Backed up and not published yet. */
  ghost predicate BackedUp(s: Store, j: Journal, t: Top) {
    t !in s.target && j.Previous(t) != map[] && Get(s.backup, t) == Some(j.Previous(t))
  }

  /** Published: the next directory is in place and the previous one, if any, is the backup. */
  ghost predicate Swapped(s: Store, j: Journal, t: Top) {
    && j.Next(t) != map[] && Get(s.target, t) == Some(j.Next(t))
    && Get(s.backup, t) == Wanted(j.Previous(t))
  }

  /** One of the states recovery recognises. */
  ghost predicate Recognised(s: Store, j: Journal, t: Top) {
    Waiting(s, j, t) || BackedUp(s, j, t) || Swapped(s, j, t)
  }

  // ---------- invariant ----------

  ghost predicate Blank(s: Store) {
    s.marker.None? && s.manifest.None? && s.target == map[] && s.backup == map[]
  }

  ghost predicate Installed(s: Store, digest: string, files: Hashes) {
    && s.marker == Some(digest) && s.manifest == Some(Manifest(digest, files))
    && ValidJournal(Manifest(digest, files)) && IsTree(s.target, files)
  }

  ghost predicate BackupsArePrevious(s: Store, j: Journal) {
    forall t :: t in s.backup ==> j.Previous(t) != map[] && s.backup[t] == j.Previous(t)
  }

  /** Marker and manifest as they were before the update of the journal. */
  ghost predicate BeforeCommit(s: Store, j: Journal) {
    && s.marker == (if j.previousDigest == "" then None else Some(j.previousDigest))
    && (s.manifest == Some(Manifest(j.digest, j.files))
        || s.manifest == (if j.previousDigest == "" then None else Some(Manifest(j.previousDigest, j.previousFiles))))
  }

  ghost predicate Inv(s: Store) {
    match s.pending
    case None =>
      Blank(s) || (s.marker.Some? && s.manifest.Some? && s.backup == map[] &&
                   Installed(s, s.marker.value, s.manifest.value.files))
    case Some(j) =>
      && ValidJournal(j) && j.digest != j.previousDigest
      && (if s.marker == Some(j.digest)
          then Installed(s, j.digest, j.files) && BackupsArePrevious(s, j)
          else BeforeCommit(s, j) && forall t :: Recognised(s, j, t))
  }

  // ---------- steps ----------

  ghost predicate StageChanged(s: Store, t: Store) {
    t == s.(stage := t.stage)
  }

  ghost predicate Begun(s: Store, t: Store) {
    && s.pending.None? && t.pending.Some? && t == s.(pending := t.pending)
    && var j := t.pending.value;
       && ValidJournal(j) && s.marker != Some(j.digest)
       && (if j.previousDigest == "" then Blank(s)
           else Installed(s, j.previousDigest, j.previousFiles) && s.backup == map[])
  }

  ghost predicate Swapping(s: Store) {
    s.pending.Some? && s.marker != Some(s.pending.value.digest)
  }

  ghost predicate BackupMade(s: Store, t: Store, top: Top) {
    && Swapping(s) && Waiting(s, s.pending.value, top) && top in s.target
    && t == s.(target := s.target - {top}, backup := s.backup[top := s.target[top]])
  }

  ghost predicate DirectoryPublished(s: Store, t: Store, top: Top) {
    && Swapping(s)
    && var j := s.pending.value;
       && (BackedUp(s, j, top) || (Waiting(s, j, top) && top !in s.target)) && j.Next(top) != map[]
       && t == s.(target := s.target[top := j.Next(top)], stage := s.stage - {top})
  }

  ghost predicate ManifestWritten(s: Store, t: Store) {
    && Swapping(s) && t == s.(manifest := Some(Manifest(s.pending.value.digest, s.pending.value.files)))
  }

  ghost predicate MarkerWritten(s: Store, t: Store) {
    && Swapping(s) && IsTree(s.target, s.pending.value.files)
    && s.manifest == Some(Manifest(s.pending.value.digest, s.pending.value.files))
    && t == s.(marker := Some(s.pending.value.digest))
  }

  ghost predicate BackupRemoved(s: Store, t: Store, top: Top) {
    s.pending.Some? && !Swapping(s) && t == s.(backup := s.backup - {top})
  }

  ghost predicate PendingRemoved(s: Store, t: Store) {
    s.pending.Some? && !Swapping(s) && s.backup == map[] && t == s.(pending := None)
  }

  /** Recovery removes a published directory; its backup is still there if it has a previous one. */
  ghost predicate PublicationRemoved(s: Store, t: Store, top: Top) {
    Swapping(s) && Swapped(s, s.pending.value, top) && t == s.(target := s.target - {top})
  }

  ghost predicate BackupRestored(s: Store, t: Store, top: Top) {
    && Swapping(s) && BackedUp(s, s.pending.value, top)
    && t == s.(target := s.target[top := s.backup[top]], backup := s.backup - {top})
  }

  ghost predicate Step(s: Store, t: Store) {
    || StageChanged(s, t) || Begun(s, t) || ManifestWritten(s, t) || MarkerWritten(s, t) || PendingRemoved(s, t)
    || exists top :: SwapStep(s, t, top)
  }

  ghost predicate SwapStep(s: Store, t: Store, top: Top) {
    || BackupMade(s, t, top) || DirectoryPublished(s, t, top) || BackupRemoved(s, t, top)
    || PublicationRemoved(s, t, top) || BackupRestored(s, t, top)
  }

  /** One directory changed hands and is still recognised; the others are as they were. */
  lemma OneDirectoryKeepsInv(s: Store, t: Store, top: Top)
    requires Inv(s) && Swapping(s)
    requires t == s.(target := t.target, backup := t.backup, stage := t.stage)
    requires forall o :: o != top ==> Get(t.target, o) == Get(s.target, o) && Get(t.backup, o) == Get(s.backup, o)
    requires Recognised(t, s.pending.value, top)
    ensures Inv(t)
  {
    var j := s.pending.value;
    forall o
      ensures Recognised(t, j, o)
    {
      if o != top {
        assert Recognised(s, j, o);
      }
    }
  }

  lemma BackupMadeKeepsInv(s: Store, t: Store, top: Top)
    requires Inv(s) && BackupMade(s, t, top)
    ensures Inv(t)
  {
    assert BackedUp(t, s.pending.value, top);
    OneDirectoryKeepsInv(s, t, top);
  }

  lemma DirectoryPublishedKeepsInv(s: Store, t: Store, top: Top)
    requires Inv(s) && DirectoryPublished(s, t, top)
    ensures Inv(t)
  {
    assert Swapped(t, s.pending.value, top);
    OneDirectoryKeepsInv(s, t, top);
  }

  lemma PublicationRemovedKeepsInv(s: Store, t: Store, top: Top)
    requires Inv(s) && PublicationRemoved(s, t, top)
    ensures Inv(t)
  {
    assert Waiting(t, s.pending.value, top) || BackedUp(t, s.pending.value, top);
    OneDirectoryKeepsInv(s, t, top);
  }

  lemma BackupRestoredKeepsInv(s: Store, t: Store, top: Top)
    requires Inv(s) && BackupRestored(s, t, top)
    ensures Inv(t)
  {
    assert Waiting(t, s.pending.value, top);
    OneDirectoryKeepsInv(s, t, top);
  }

  lemma SwapStepKeepsInv(s: Store, t: Store, top: Top)
    requires Inv(s) && SwapStep(s, t, top)
    ensures Inv(t)
  {
    if BackupMade(s, t, top) {
      BackupMadeKeepsInv(s, t, top);
    } else if DirectoryPublished(s, t, top) {
      DirectoryPublishedKeepsInv(s, t, top);
    } else if PublicationRemoved(s, t, top) {
      PublicationRemovedKeepsInv(s, t, top);
    } else if BackupRestored(s, t, top) {
      BackupRestoredKeepsInv(s, t, top);
    }
  }

  lemma NothingBelow(t: Top)
    ensures ForTop(map[], t) == map[]
  {
  }

  lemma BegunKeepsInv(s: Store, t: Store)
    requires Inv(s) && Begun(s, t)
    ensures Inv(t)
  {
    hide ForTop;
    var j := t.pending.value;
    forall o
      ensures Recognised(t, j, o)
    {
      if j.previousDigest == "" {
        NothingBelow(o);
      } else {
        assert HasPart(s.target, j.previousFiles, o);
      }
    }
  }

  lemma MarkerWrittenKeepsInv(s: Store, t: Store)
    requires Inv(s) && MarkerWritten(s, t)
    ensures Inv(t)
  {
    var j := s.pending.value;
    forall o | o in t.backup
      ensures j.Previous(o) != map[] && t.backup[o] == j.Previous(o)
    {
      assert Recognised(s, j, o);
    }
  }

  lemma StageOrManifestKeepsInv(s: Store, t: Store)
    requires Inv(s) && (StageChanged(s, t) || ManifestWritten(s, t))
    ensures Inv(t)
  {
    if Swapping(s) {
      assert forall o :: Recognised(s, s.pending.value, o) ==> Recognised(t, s.pending.value, o);
    }
  }

  lemma StepKeepsInv(s: Store, t: Store)
    requires Inv(s) && Step(s, t)
    ensures Inv(t)
  {
    if top :| SwapStep(s, t, top) {
      SwapStepKeepsInv(s, t, top);
    } else if StageChanged(s, t) || ManifestWritten(s, t) {
      StageOrManifestKeepsInv(s, t);
    } else if Begun(s, t) {
      BegunKeepsInv(s, t);
    } else if MarkerWritten(s, t) {
      MarkerWrittenKeepsInv(s, t);
    }
  }

  lemma RunKeepsInv(trace: seq<Store>, n: nat)
    requires IsRun(Step, trace) && n < |trace| && Inv(trace[0])
    ensures Inv(trace[n])
  {
    forall s, t | Inv(s) && Step(s, t)
      ensures Inv(t)
    {
      StepKeepsInv(s, t);
    }
    hide Inv;
    hide Step;
    RunKeeps(Step, Inv, trace, n);
  }

  // ---------- what every run keeps ----------

  /** Some release is wholly on disk: the installed one, or during an update the previous one, each
      directory of it in place or in its backup, until the marker commits the next one. */
  ghost predicate NothingLost(s: Store) {
    if Swapping(s) then
      forall t :: PreviousOnDisk(s, s.pending.value, t)
    else
      s.marker.Some? ==>
        s.manifest.Some? && s.manifest.value.digest == s.marker.value && IsTree(s.target, s.manifest.value.files)
  }

  ghost predicate PreviousOnDisk(s: Store, j: Journal, t: Top) {
    j.Previous(t) != map[] ==>
      Get(s.target, t) == Some(j.Previous(t)) || Get(s.backup, t) == Some(j.Previous(t))
  }

  lemma InvLosesNothing(s: Store)
    requires Inv(s)
    ensures NothingLost(s)
  {
    if Swapping(s) {
      forall t
        ensures PreviousOnDisk(s, s.pending.value, t)
      {
        assert Recognised(s, s.pending.value, t);
      }
    }
  }

  lemma EveryReachableStoreLosesNothing(trace: seq<Store>)
    requires IsRun(Step, trace) && 0 < |trace| && Inv(trace[0])
    ensures forall i :: 0 <= i < |trace| ==> NothingLost(trace[i])
  {
    forall i | 0 <= i < |trace|
      ensures NothingLost(trace[i])
    {
      RunKeepsInv(trace, i);
      InvLosesNothing(trace[i]);
    }
  }
}
