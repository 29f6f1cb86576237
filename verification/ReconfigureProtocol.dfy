/** The public-URL reconfigure transaction (internal/mgsctl/reconfigure.go): its records, the steps
    it may take, and what every run of such steps keeps.

    Four records change together without a shared transaction: the setup binding in the database,
    runtime.env, the commit proof in the install state, and deployment.json. A journal and a
    stop-intent file make an interrupted change recoverable. */
module ReconfigureProtocol {
  import opened Wrappers
  import opened Decimal
  import opened CrashDisk

  /** runtime.env after parsing: the settings the transaction looks at, and all the others. */
  datatype Runtime = Runtime(installation: string, revision: string, url: string, settings: map<string, string>)

  /** The keyed hash of the settings and an administrator: equal for equal arguments only. */
  datatype Digest = Hmac(runtime: Runtime, email: string)

  /** The fields that an upgrade may change without a new digest. */
  const RELEASE_FIELDS := {"APPLICATION_VERSION", "IMAGE_REGISTRY", "IMAGE_TAG", "RELEASE_VERSION"}

  function RequestDigest(r: Runtime, email: string): Digest {
    Hmac(r.(settings := r.settings - RELEASE_FIELDS), email)
  }

  datatype Binding = Binding(operation: string, installation: string, admin: int, email: string,
                             revision: int, digest: Digest)

  datatype Proof = Proof(operation: string, installation: string, schema: int, revision: int, digest: Digest)

  /** deployment.json: identity, public URL, the rest of the plan, and hashes of managed assets. */
  datatype Manifest = Manifest(installation: string, url: string, plan: string, assets: map<string, string>)

  datatype Records = Records(binding: Binding, runtime: Runtime, proof: Proof, manifest: Manifest)

  datatype Journal = Journal(committed: bool, before: Records, newProof: Proof, newRuntime: Runtime, newManifest: Manifest)
  {
    /** The records once everything the journal announces is published. */
    function New(): Records {
      Records(before.binding.(revision := newProof.revision, digest := newProof.digest), newRuntime, newProof, newManifest)
    }
  }

  datatype Services = Running | Partial | Stopped

  /** withdrawn is a history variable that the code never reads: a rollback has taken the
      journal's revision out of the binding again. */
  datatype Store = Store(records: Records, journal: Option<Journal>, stopIntent: bool, services: Services,
                         withdrawn: bool)

  // ---------- what the records mean ----------

  /** The four records name one revision, one digest, one installation and one URL. */
  ghost predicate Agree(r: Records) {
    && 0 < r.proof.revision <= MAX_INT && r.proof.schema == 1
    && r.binding.revision == r.proof.revision && r.runtime.revision == Itoa(r.proof.revision)
    && r.binding.digest == r.proof.digest == RequestDigest(r.runtime, r.binding.email)
    && r.binding.operation == r.proof.operation
    && r.binding.installation == r.proof.installation == r.runtime.installation == r.manifest.installation
    && r.manifest.url == r.runtime.url
  }

  /** Each record is the old or the new one of the journal. */
  ghost predicate Recorded(r: Records, j: Journal) {
    && (r.binding == j.before.binding || r.binding == j.New().binding)
    && (r.runtime == j.before.runtime || r.runtime == j.newRuntime)
    && (r.proof == j.before.proof || r.proof == j.newProof)
    && (r.manifest == j.before.manifest || r.manifest == j.newManifest)
  }

  /** A journal of this tool: from agreeing records to the agreeing records of the next revision,
      with nothing changed but the URL, the revision and the digest. */
  ghost predicate Sound(j: Journal) {
    && Agree(j.before) && Agree(j.New())
    && j.newProof == j.before.proof.(revision := j.before.proof.revision + 1, digest := j.newProof.digest)
    && j.newRuntime == j.before.runtime.(revision := j.newRuntime.revision, url := j.newRuntime.url)
    && j.newManifest == j.before.manifest.(url := j.newManifest.url)
  }

  ghost predicate Inv(s: Store) {
    match s.journal
    case None =>
      Agree(s.records) && (s.services != Running ==> s.stopIntent)
    case Some(j) =>
      && Sound(j) && Recorded(s.records, j)
      && (s.services != Stopped ==> s.records == j.before || s.records == j.New())
      && (j.committed ==> s.records == j.New() && s.services == Running)
      && (s.withdrawn ==> !j.committed && s.records.binding == j.before.binding)
  }

  // ---------- the steps ----------

  ghost predicate Uncommitted(s: Store) {
    s.journal.Some? ==> !s.journal.value.committed
  }

  /** The container runtime takes services down or brings them up, wholly or in part. */
  ghost predicate ServicesChange(s: Store, t: Store) {
    && t == s.(services := t.services)
    && Uncommitted(s) && (s.stopIntent || s.journal.Some?)
    && (t.services != Stopped ==> Agree(s.records))
  }

  ghost predicate StopIntentChange(s: Store, t: Store) {
    && t == s.(stopIntent := t.stopIntent)
    && (if t.stopIntent then s.journal.None? else s.services == Running)
  }

  /** Refreshing managed assets rewrites their hashes in deployment.json. */
  ghost predicate AssetsChange(s: Store, t: Store) {
    && s.journal.None?
    && t == s.(records := s.records.(manifest := s.records.manifest.(assets := t.records.manifest.assets)))
  }

  ghost predicate JournalWritten(s: Store, t: Store) {
    && s.journal.None? && s.services == Stopped
    && t.journal.Some? && !t.journal.value.committed && Sound(t.journal.value) && t.journal.value.before == s.records
    && t == s.(journal := t.journal, withdrawn := false)
  }

  /** The forward order: binding, runtime, proof, manifest. */
  ghost predicate Published(s: Store, t: Store) {
    && s.journal.Some? && !s.journal.value.committed && s.services == Stopped && !s.withdrawn
    && var j := s.journal.value;
       var b := j.before.(binding := j.New().binding);
       var r := b.(runtime := j.newRuntime);
       var p := r.(proof := j.newProof);
       || (s.records == j.before && t == s.(records := b))
       || (s.records == b && t == s.(records := r))
       || (s.records == r && t == s.(records := p))
       || (s.records == p && t == s.(records := j.New()))
  }

  /** The backward order: binding, proof, runtime, manifest, whatever had been published. */
  ghost predicate Restored(s: Store, t: Store) {
    && s.journal.Some? && !s.journal.value.committed && s.services == Stopped
    && var before := s.journal.value.before;
       || t == s.(records := s.records.(binding := before.binding), withdrawn := true)
       || (s.records.binding == before.binding
           && (t == s.(records := s.records.(proof := before.proof))
               || (s.records.proof == before.proof
                   && (t == s.(records := s.records.(runtime := before.runtime))
                       || (s.records.runtime == before.runtime && t == s.(records := before))))))
  }

  ghost predicate Committed(s: Store, t: Store) {
    && s.journal.Some? && !s.withdrawn && s.services == Running && s.records == s.journal.value.New()
    && t == s.(journal := Some(s.journal.value.(committed := true)))
  }

  ghost predicate JournalRemoved(s: Store, t: Store) {
    && s.journal.Some? && s.services == Running
    && (s.journal.value.committed || s.records == s.journal.value.before)
    && t == s.(journal := None)
  }

  ghost predicate Step(s: Store, t: Store) {
    || s == t
    || ServicesChange(s, t) || StopIntentChange(s, t) || AssetsChange(s, t) || JournalWritten(s, t)
    || Published(s, t) || Restored(s, t) || Committed(s, t) || JournalRemoved(s, t)
  }

  lemma PublishingKeepsInv(s: Store, t: Store)
    requires Inv(s) && Published(s, t)
    ensures Inv(t)
  {
  }

  lemma RestoringKeepsInv(s: Store, t: Store)
    requires Inv(s) && Restored(s, t)
    ensures Inv(t)
  {
  }

  lemma StepKeepsInv(s: Store, t: Store)
    requires Inv(s) && Step(s, t)
    ensures Inv(t)
  {
    if Published(s, t) {
      PublishingKeepsInv(s, t);
    } else if Restored(s, t) {
      RestoringKeepsInv(s, t);
    } else if ServicesChange(s, t) {
    } else if StopIntentChange(s, t) {
    } else if AssetsChange(s, t) {
    } else if JournalWritten(s, t) {
    } else if Committed(s, t) {
    } else if JournalRemoved(s, t) {
    }
  }

  lemma RunKeepsInv(trace: seq<Store>, n: nat)
    requires IsRun(Step, trace) && n < |trace| && Inv(trace[0])
    ensures Inv(trace[n])
  {
    forall s, t | Inv(s) && Step(s, t)
      ensures Inv(t)
    {
      StepKeepsInv(s, t);
    }
    hide Inv;
    hide Step;
    RunKeeps(Step, Inv, trace, n);
  }

  // ---------- what every run keeps ----------

  /** The records disagree only while a journal is on disk, the application runs only while they
      agree, and whenever it is not wholly running a stop intent or a journal says so. */
  ghost predicate Safe(s: Store) {
    && (!Agree(s.records) ==> s.journal.Some?)
    && (s.services != Stopped ==> Agree(s.records))
    && (s.services != Running ==> s.stopIntent || s.journal.Some?)
  }

  lemma EveryReachableStoreIsSafe(trace: seq<Store>)
    requires IsRun(Step, trace) && 0 < |trace| && Inv(trace[0])
    ensures forall i :: 0 <= i < |trace| ==> Safe(trace[i])
  {
    forall i | 0 <= i < |trace|
      ensures Safe(trace[i])
    {
      RunKeepsInv(trace, i);
    }
  }

  /** One journal is on disk from store n to store m: nowhere between is there none. */
  ghost predicate JournalKept(trace: seq<Store>, n: nat, m: nat) {
    n <= m < |trace| && forall i :: n <= i <= m ==> trace[i].journal.Some?
  }

  /** What the later of two stores under the same journal owes to the earlier one. */
  ghost predicate Holds(s: Store, t: Store) {
    && s.journal.Some? && t.journal.Some?
    && t.journal.value.(committed := false) == s.journal.value.(committed := false)
    && (s.journal.value.committed ==> t.journal.value.committed && t.records == s.journal.value.New())
    && (s.withdrawn ==>
          t.withdrawn && !t.journal.value.committed && t.records.binding == s.journal.value.before.binding)
  }

  lemma StepHolds(s: Store, t: Store)
    requires Inv(s) && Inv(t) && s.journal.Some? && t.journal.Some? && Step(s, t)
    ensures Holds(s, t)
  {
  }

  /** The outcome of a journal never reverses: once committed, the new records stay; once a
      rollback has taken the revision out of the binding, no run puts it back. */
  lemma {:induction false} OutcomeNeverReverses(trace: seq<Store>, n: nat, m: nat)
    requires IsRun(Step, trace) && JournalKept(trace, n, m) && Inv(trace[0])
    ensures trace[m].journal.value.(committed := false) == trace[n].journal.value.(committed := false)
    ensures trace[n].journal.value.committed ==>
              trace[m].journal.value.committed && trace[m].records == trace[n].journal.value.New()
    ensures trace[n].withdrawn ==>
              trace[m].withdrawn && !trace[m].journal.value.committed
              && trace[m].records.binding == trace[n].journal.value.before.binding
  {
    hide Step;
    hide Inv;
    RunKeepsInv(trace, m);
    if n < m {
      OutcomeNeverReverses(trace, n, m - 1);
      RunKeepsInv(trace, m - 1);
      HoldsThrough(trace[n], trace[m - 1], trace[m]);
    } else {
      InvHolds(trace[m]);
    }
  }

  lemma InvHolds(s: Store)
    requires Inv(s) && s.journal.Some?
    ensures Holds(s, s)
  {
  }

  lemma HoldsThrough(s: Store, t: Store, u: Store)
    requires Inv(t) && Inv(u) && Holds(s, t) && u.journal.Some? && Step(t, u)
    ensures Holds(s, u)
  {
    hide Step;
    hide Inv;
    StepHolds(t, u);
  }

  /** The only step that takes the binding of a journal from new to old is a rollback's. */
  lemma RestoringWithdraws(s: Store, t: Store)
    requires Inv(s) && Step(s, t) && s.journal.Some? && t.journal.Some?
    requires s.records.binding == s.journal.value.New().binding && t.records.binding == s.journal.value.before.binding
    ensures t.withdrawn
  {
  }

  /** Under one journal, a store whose binding is old again after it had been new is withdrawn. */
  lemma {:induction false} OldAgainIsWithdrawn(trace: seq<Store>, i: nat, n: nat)
    requires IsRun(Step, trace) && JournalKept(trace, i, n) && Inv(trace[0])
    requires trace[i].records.binding == trace[i].journal.value.New().binding
    requires trace[n].records.binding == trace[i].journal.value.before.binding
    ensures trace[n].withdrawn
  {
    hide Inv;
    hide Step;
    RunKeepsInv(trace, i);
    BindingsDiffer(trace[i]);
    if i < n {
      RunKeepsInv(trace, n - 1);
      SameJournal(trace, i, n - 1);
      SameJournal(trace, i, n);
      BindingIsOldOrNew(trace[n - 1]);
      if trace[n - 1].records.binding == trace[i].journal.value.before.binding {
        OldAgainIsWithdrawn(trace, i, n - 1);
        OutcomeNeverReverses(trace, n - 1, n);
      } else {
        assert Step(trace[n - 1], trace[n]);
        RestoringWithdraws(trace[n - 1], trace[n]);
      }
    }
  }

  lemma SameJournal(trace: seq<Store>, i: nat, n: nat)
    requires IsRun(Step, trace) && JournalKept(trace, i, n) && Inv(trace[0])
    ensures trace[n].journal.value.before == trace[i].journal.value.before
    ensures trace[n].journal.value.New() == trace[i].journal.value.New()
  {
    hide Inv;
    hide Step;
    OutcomeNeverReverses(trace, i, n);
    var j, k := trace[i].journal.value, trace[n].journal.value;
    assert j.(committed := false).New() == j.New() && k.(committed := false).New() == k.New();
    assert j.(committed := false).before == j.before && k.(committed := false).before == k.before;
  }

  lemma BindingIsOldOrNew(s: Store)
    requires Inv(s) && s.journal.Some?
    ensures s.records.binding == s.journal.value.before.binding || s.records.binding == s.journal.value.New().binding
  {
  }

  lemma BindingsDiffer(s: Store)
    requires Inv(s) && s.journal.Some?
    ensures s.journal.value.before.binding != s.journal.value.New().binding
  {
  }

  /** Once the binding has gone from new back to old under a journal, it stays old and the journal is never
      committed, whatever runs follow while the journal is there. */
  lemma RestoredBindingStaysOld(trace: seq<Store>, i: nat, n: nat, m: nat)
    requires IsRun(Step, trace) && i <= n <= m && JournalKept(trace, i, m) && Inv(trace[0])
    requires trace[i].records.binding == trace[i].journal.value.New().binding
    requires trace[n].records.binding == trace[i].journal.value.before.binding
    ensures trace[m].records.binding == trace[i].journal.value.before.binding
    ensures !trace[m].journal.value.committed
  {
    hide Inv;
    hide Step;
    OldAgainIsWithdrawn(trace, i, n);
    SameJournal(trace, i, n);
    OutcomeNeverReverses(trace, n, m);
  }

  /** The revision that is settled whatever becomes of the journal: the one before it, unless it is
      committed. */
  ghost function SettledRevision(s: Store): int {
    match s.journal
    case None => s.records.binding.revision
    case Some(j) => j.before.binding.revision + (if j.committed then 1 else 0)
  }

  ghost predicate Commits(s: Store, t: Store) {
    t.journal.Some? && t.journal.value.committed && Uncommitted(s)
  }

  lemma OtherStepsKeepJournal(s: Store, t: Store)
    requires Step(s, t) && !Committed(s, t) && !JournalWritten(s, t) && !JournalRemoved(s, t)
    ensures t.journal == s.journal
    ensures s.journal.None? ==> t.records.binding == s.records.binding
  {
  }

  lemma JournalStepSettles(s: Store, t: Store)
    requires Inv(s) && (Committed(s, t) || JournalWritten(s, t) || JournalRemoved(s, t))
    ensures SettledRevision(t) == SettledRevision(s) + (if Commits(s, t) then 1 else 0)
  {
  }

  lemma StepSettles(s: Store, t: Store)
    requires Inv(s) && Inv(t) && Step(s, t)
    ensures SettledRevision(t) == SettledRevision(s) + (if Commits(s, t) then 1 else 0)
  {
    if Committed(s, t) || JournalWritten(s, t) || JournalRemoved(s, t) {
      JournalStepSettles(s, t);
    } else {
      OtherStepsKeepJournal(s, t);
    }
  }

  lemma JournalOpensAndCloses(s: Store, t: Store)
    requires Inv(s) && Step(s, t) && s.journal.Some? != t.journal.Some?
    ensures t.journal.Some? ==> t.journal.value.before == s.records && Sound(t.journal.value)
    ensures s.journal.Some? ==>
              t.records == s.records && t.services == Running &&
              (s.records == s.journal.value.before || (s.journal.value.committed && s.records == s.journal.value.New()))
  {
    if JournalWritten(s, t) {
    } else {
      assert JournalRemoved(s, t);
    }
  }

  /** How many journals were committed up to store n. */
  ghost function CommitCount(trace: seq<Store>, n: nat): nat
    requires n < |trace|
  {
    if n == 0 then 0
    else CommitCount(trace, n - 1) + (if Commits(trace[n - 1], trace[n]) then 1 else 0)
  }

  /** The settled revision counts the committed journals: it never falls, and an abandoned journal
      leaves it where it was. */
  lemma {:induction false} RevisionCountsCommits(trace: seq<Store>, n: nat)
    requires IsRun(Step, trace) && n < |trace| && Inv(trace[0])
    ensures SettledRevision(trace[n]) == SettledRevision(trace[0]) + CommitCount(trace, n)
  {
    hide Inv;
    hide SettledRevision;
    hide Commits;
    hide Step;
    if n > 0 {
      RevisionCountsCommits(trace, n - 1);
      RunKeepsInv(trace, n - 1);
      RunKeepsInv(trace, n);
      StepSettles(trace[n - 1], trace[n]);
    }
  }

  /** A journal leaves a store without journal at its old revision or the next one, and the
      settings other than URL and revision as they were. */
  lemma JournalEndsOldOrNext(trace: seq<Store>, n: nat, m: nat)
    requires 0 < n && JournalKept(trace, n, m) && m + 1 < |trace|
    requires IsRun(Step, trace) && Inv(trace[0])
    requires trace[n - 1].journal.None? && trace[m + 1].journal.None?
    ensures trace[m + 1].records == trace[m].journal.value.before
         || (trace[m].journal.value.committed && trace[m + 1].records == trace[m].journal.value.New())
    ensures trace[m + 1].records.binding.revision - trace[n - 1].records.binding.revision in {0, 1}
    ensures trace[m + 1].records.runtime.settings == trace[n - 1].records.runtime.settings
    ensures trace[m + 1].services == Running
  {
    RunKeepsInv(trace, n - 1);
    RunKeepsInv(trace, n);
    RunKeepsInv(trace, m);
    OutcomeNeverReverses(trace, n, m);
    hide Step;
    hide Inv;
    hide Agree;
    JournalOpensAndCloses(trace[n - 1], trace[n]);
    JournalOpensAndCloses(trace[m], trace[m + 1]);
  }

  /** No step touches a setting other than the URL and the revision. */
  lemma StepKeepsSettings(s: Store, t: Store)
    requires Inv(s) && Step(s, t)
    ensures t.records.runtime.settings == s.records.runtime.settings
  {
    if Published(s, t) {
    } else if Restored(s, t) {
    }
  }

  lemma {:induction false} RunKeepsSettings(trace: seq<Store>, n: nat)
    requires IsRun(Step, trace) && n < |trace| && Inv(trace[0])
    ensures trace[n].records.runtime.settings == trace[0].records.runtime.settings
  {
    hide Inv;
    hide Step;
    if n > 0 {
      RunKeepsSettings(trace, n - 1);
      RunKeepsInv(trace, n - 1);
      StepKeepsSettings(trace[n - 1], trace[n]);
    }
  }
}
