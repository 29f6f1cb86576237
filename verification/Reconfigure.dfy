/** The reconfigure command itself (internal/mgsctl/reconfigure.go): its forward path, rollback,
    journal retry and stop intent, taking only steps of the protocol. */
module Reconfigure {
  import opened Wrappers
  import opened Decimal
  import opened CrashDisk
  import opened ReconfigureProtocol

  datatype Outcome = Configured(revision: int, url: string) | Failure(reason: string)

  const SCHEMA_KEY := "RUNTIME_SCHEMA_VERSION"
  const SCHEMA_VERSION := "1"

  // ---------- the journal ----------

  /** Printing a runtime adds the default of every schema key that is missing, and the version. */
  function Rendered(defaults: map<string, string>, r: Runtime): Runtime {
    r.(settings := defaults + r.settings + map[SCHEMA_KEY := SCHEMA_VERSION])
  }

  /** The runtime lists every key of the schema, with the current version. */
  predicate Complete(defaults: map<string, string>, r: Runtime) {
    && defaults.Keys <= r.settings.Keys
    && SCHEMA_KEY in r.settings && r.settings[SCHEMA_KEY] == SCHEMA_VERSION
  }

  /** The journal of a change to a new URL. */
  function NewJournal(defaults: map<string, string>, r: Records, url: string): Journal
    requires 0 < r.proof.revision < MAX_INT
  {
    var values := r.runtime.(url := url, revision := Itoa(r.proof.revision + 1));
    Journal(false, r,
            r.proof.(revision := r.proof.revision + 1, digest := RequestDigest(values, r.binding.email)),
            Rendered(defaults, values),
            r.manifest.(url := url))
  }

  predicate ValidProof(p: Proof) {
    0 < p.revision && p.schema == 1
  }

  predicate MatchesProof(r: Runtime, p: Proof, email: string) {
    p.digest == RequestDigest(r, email) && r.installation == p.installation
    && 0 <= p.revision && r.revision == Itoa(p.revision)
  }

  /** The checks a journal found on disk has to pass before anything is restored from it. */
  predicate ValidateConfigurationJournal(j: Journal, installation: string) {
    var p, q := j.before.proof, j.newProof;
    var b := j.before.binding;
    && ValidProof(p) && ValidProof(q)
    && p.operation == q.operation && p.installation == installation == q.installation
    && q.revision == p.revision + 1
    && MatchesProof(j.before.runtime, p, b.email) && MatchesProof(j.newRuntime, q, b.email)
    && b.operation == p.operation && b.installation == p.installation
    && b.digest == p.digest && b.revision == p.revision
    && |j.before.runtime.settings| == |j.newRuntime.settings|
    && j.before.manifest.installation == p.installation && j.newManifest.url == j.newRuntime.url
    && j.newManifest.(url := j.before.manifest.url) == j.before.manifest
    && forall k :: k in j.before.runtime.settings ==>
         Lookup(j.newRuntime.settings, k) == j.before.runtime.settings[k]
  }

  /** A missing key reads as the empty string. */
  function Lookup(settings: map<string, string>, k: string): string {
    if k in settings then settings[k] else ""
  }

  /** What the forward path has checked of the records when it writes the journal. */
  predicate CheckedRecords(r: Records) {
    && ValidProof(r.proof) && r.proof.revision < MAX_INT && CompletedInstallation(r)
    && r.manifest.installation == r.runtime.installation
  }

  /** The tool accepts its own journal on a retry exactly when the old runtime lists every schema
      key and the current version, and writes its revision canonically. Otherwise an interrupted
      change cannot be recovered by rerunning the command. */
  lemma OwnJournalAccepted(defaults: map<string, string>, r: Records, url: string)
    requires CheckedRecords(r)
    ensures ValidateConfigurationJournal(NewJournal(defaults, r, url), r.runtime.installation)
       <==> Complete(defaults, r.runtime) && r.runtime.revision == Itoa(r.proof.revision)
  {
    if Complete(defaults, r.runtime) {
      CompleteJournal(defaults, r, url);
    } else {
      IncompleteJournal(defaults, r, url);
    }
  }

  lemma CompleteJournal(defaults: map<string, string>, r: Records, url: string)
    requires CheckedRecords(r) && Complete(defaults, r.runtime)
    ensures ValidateConfigurationJournal(NewJournal(defaults, r, url), r.runtime.installation) <==>
            r.runtime.revision == Itoa(r.proof.revision)
  {
    CompleteIsUnchanged(defaults, r.runtime);
    hide Rendered;
    hide Complete;
    hide RequestDigest;
    hide Itoa;
    hide Atoi;
  }

  lemma IncompleteJournal(defaults: map<string, string>, r: Records, url: string)
    requires CheckedRecords(r) && !Complete(defaults, r.runtime)
    ensures !ValidateConfigurationJournal(NewJournal(defaults, r, url), r.runtime.installation)
  {
    IncompleteIsChanged(defaults, r.runtime);
    hide Rendered;
    hide Complete;
    hide RequestDigest;
    hide Itoa;
    hide Atoi;
  }

  lemma CompleteIsUnchanged(defaults: map<string, string>, r: Runtime)
    requires Complete(defaults, r)
    ensures forall u: Runtime :: u.settings == r.settings ==> Rendered(defaults, u) == u
  {
    assert defaults + r.settings + map[SCHEMA_KEY := SCHEMA_VERSION] == r.settings;
  }

  /** Printing adds a key or changes the version; neither passes the comparison of settings. */
  lemma IncompleteIsChanged(defaults: map<string, string>, r: Runtime)
    requires !Complete(defaults, r)
    ensures forall u: Runtime :: u.settings == r.settings ==>
              var settings := Rendered(defaults, u).settings;
              |settings| != |r.settings| || exists k :: k in r.settings && Lookup(settings, k) != r.settings[k]
  {
    var settings := defaults + r.settings + map[SCHEMA_KEY := SCHEMA_VERSION];
    if SCHEMA_KEY in r.settings && defaults.Keys <= r.settings.Keys {
      assert Lookup(settings, SCHEMA_KEY) != r.settings[SCHEMA_KEY];
    } else {
      var key :| key in settings && key !in r.settings;
      assert |settings.Keys - {key}| == |settings| - 1;
      KeysOfSubset(r.settings.Keys, settings.Keys - {key});
    }
  }

  lemma {:induction false} KeysOfSubset(a: set<string>, b: set<string>)
    requires a <= b
    ensures |a| <= |b|
  {
    if x :| x in a {
      KeysOfSubset(a - {x}, b - {x});
    }
  }

  /** A runtime without a schema key: the journal written for it is refused. */
  lemma IncompleteRuntimeStrandsJournal(r: Records, url: string)
    requires CheckedRecords(r) && "WORKER_COUNT" !in r.runtime.settings
    ensures !ValidateConfigurationJournal(NewJournal(map["WORKER_COUNT" := "1"], r, url), r.runtime.installation)
  {
    OwnJournalAccepted(map["WORKER_COUNT" := "1"], r, url);
  }

  /** A revision written with a leading zero passes every check of the forward path; the journal written for
      it is refused all the same. */
  lemma LeadingZeroStrandsJournal(defaults: map<string, string>, r: Records, url: string)
    requires ValidProof(r.proof) && r.proof.revision < MAX_INT && r.runtime.revision == "0" + Itoa(r.proof.revision)
    ensures Atoi(r.runtime.revision) == Some(r.proof.revision)
    ensures CheckedRecords(r) ==>
              !ValidateConfigurationJournal(NewJournal(defaults, r, url), r.runtime.installation)
  {
    AtoiForms(r.proof.revision);
    assert |r.runtime.revision| != |Itoa(r.proof.revision)|;
    if CheckedRecords(r) {
      OwnJournalAccepted(defaults, r, url);
    }
  }

  /** What the checks let through is a change of URL and revision alone, provided that the settings are the
      same; and they are, unless an old one is empty, which a missing key resembles. */
  lemma AcceptedJournalIsSound(j: Journal, installation: string)
    requires ValidateConfigurationJournal(j, installation)
    requires j.before.proof.revision < MAX_INT && j.before.manifest.url == j.before.runtime.url
    ensures Sound(j) <==> j.newRuntime.settings == j.before.runtime.settings
    ensures (forall k :: k in j.before.runtime.settings ==> j.before.runtime.settings[k] != "") ==>
              j.newRuntime.settings == j.before.runtime.settings
  {
    hide RequestDigest;
    hide Itoa;
    var before, after := j.before.runtime.settings, j.newRuntime.settings;
    if forall k :: k in before ==> before[k] != "" {
      assert before.Keys <= after.Keys;
      SameSizeSameKeys(before.Keys, after.Keys);
      assert after == before;
    }
  }

  /** The exception is real: beside any accepted journal that keeps an empty setting there is one that is
      accepted too and puts another setting in its place. */
  lemma EmptySettingDeceives(j: Journal, installation: string, k: string, other: string, value: string)
    returns (deceptive: Journal)
    requires ValidateConfigurationJournal(j, installation) && j.newRuntime.settings == j.before.runtime.settings
    requires k in j.newRuntime.settings && j.newRuntime.settings[k] == "" && other !in j.newRuntime.settings
    ensures deceptive.before == j.before && deceptive.newManifest == j.newManifest
    ensures deceptive.newRuntime == j.newRuntime.(settings := (j.newRuntime.settings - {k})[other := value])
    ensures ValidateConfigurationJournal(deceptive, installation) && !Sound(deceptive)
  {
    var settings := (j.newRuntime.settings - {k})[other := value];
    var runtime := j.newRuntime.(settings := settings);
    deceptive := j.(newRuntime := runtime,
                    newProof := j.newProof.(digest := RequestDigest(runtime, j.before.binding.email)));
    assert settings.Keys == j.newRuntime.settings.Keys - {k} + {other};
    hide RequestDigest;
    hide Itoa;
  }

  lemma SameSizeSameKeys(a: set<string>, b: set<string>)
    requires a <= b && |a| == |b|
    ensures a == b
  {
    if x :| x in b && x !in a {
      KeysOfSubset(a, b - {x});
    }
  }

  // ---------- single operations ----------

  ghost predicate Ready(d: Disk<Store>)
    reads d
  {
    d.Valid() && d.rule == Step && Inv(d.store)
  }

  /** Whatever a method did was a continuation of the run by steps of the protocol, and a process
      that nothing interrupts stays so. */
  twostate predicate Continues(d: Disk<Store>)
    reads d
  {
    Ready(d) && d.Continued()
  }

  /** Attempts one step of the protocol. */
  method Do(d: Disk<Store>, next: Store) returns (ok: bool)
    requires Ready(d) && Step(d.store, next)
    modifies d
    ensures Continues(d)
    ensures d.store == old(d.store) || d.store == next
    ensures ok ==> d.store == next
    ensures d.Failures() == old(d.Failures()) - (if !ok && d.alive then 1 else 0)
    ensures !ok && d.Landings() == old(d.Landings()) ==> d.store == old(d.store)
    ensures old(d.Quiet()) ==> ok
  {
    StepKeepsInv(d.store, next);
    ok := d.Attempt(next);
  }

  /** Stopping takes running services down in two steps, so that it can fail half way. */
  method StopDeployment(d: Disk<Store>) returns (ok: bool)
    requires Ready(d) && Uncommitted(d.store) && (d.store.stopIntent || d.store.journal.Some?)
    modifies d
    ensures Continues(d) && d.store == old(d.store).(services := d.store.services)
    ensures ok ==> d.store.services == Stopped
    ensures old(d.store).services == Stopped ==> d.store.services == Stopped
    ensures d.Accounts(ok)
    ensures old(d.Quiet()) ==> ok
  {
    if d.store.services == Running {
      ok := Do(d, d.store.(services := Partial));
      if !ok {
        return;
      }
    }
    ok := Do(d, d.store.(services := Stopped));
  }

  /** Applying recreates every service, again in two steps. */
  method ApplyDeployment(d: Disk<Store>) returns (ok: bool)
    requires Ready(d) && Uncommitted(d.store) && (d.store.stopIntent || d.store.journal.Some?)
    requires Agree(d.store.records)
    modifies d
    ensures Continues(d) && d.store == old(d.store).(services := d.store.services)
    ensures ok ==> d.store.services == Running
    ensures d.Accounts(ok)
    ensures old(d.Quiet()) ==> ok
  {
    ok := Do(d, d.store.(services := Partial));
    if !ok {
      return;
    }
    ok := Do(d, d.store.(services := Running));
  }

  /** Refreshing managed assets may rewrite their hashes in deployment.json. On a retry with a
      journal they are current already and nothing is written. */
  method RefreshAssets(d: Disk<Store>, assets: map<string, string>) returns (ok: bool)
    requires Ready(d)
    modifies d
    ensures Continues(d)
    ensures d.store == old(d.store).(records := d.store.records)
    ensures d.store.records == old(d.store).records.(manifest := d.store.records.manifest)
    ensures d.store.records.manifest == old(d.store).records.manifest.(assets := d.store.records.manifest.assets)
    ensures d.store.journal.Some? ==> d.store == old(d.store)
    ensures ok && d.store.journal.None? ==> d.store.records.manifest.assets == assets
    ensures d.Accounts(ok)
    ensures old(d.Quiet()) ==> ok
  {
    if d.store.journal.Some? {
      ok := d.Read();
    } else {
      ok := Do(d, d.store.(records := d.store.records.(manifest := d.store.records.manifest.(assets := assets))));
    }
  }

  method WriteStopIntent(d: Disk<Store>) returns (ok: bool)
    requires Ready(d) && d.store.journal.None?
    modifies d
    ensures Continues(d) && d.store == old(d.store).(stopIntent := d.store.stopIntent)
    ensures ok ==> d.store.stopIntent
    ensures old(d.store).stopIntent ==> d.store.stopIntent
    ensures d.Accounts(ok)
    ensures !ok && d.Landings() == old(d.Landings()) ==> d.store == old(d.store)
    ensures old(d.Quiet()) ==> ok
  {
    ok := Do(d, d.store.(stopIntent := true));
  }

  method ClearStopIntent(d: Disk<Store>) returns (ok: bool)
    requires Ready(d) && d.store.services == Running
    modifies d
    ensures Continues(d) && d.store == old(d.store).(stopIntent := d.store.stopIntent)
    ensures ok ==> !d.store.stopIntent
    ensures d.Accounts(ok)
    ensures old(d.Quiet()) ==> ok
  {
    if !d.store.stopIntent {
      ok := d.Read();
      return;
    }
    ok := Do(d, d.store.(stopIntent := false));
  }

  method RemoveJournal(d: Disk<Store>) returns (ok: bool)
    requires Ready(d) && d.store.journal.Some? && JournalRemoved(d.store, d.store.(journal := None))
    modifies d
    ensures Continues(d) && d.store == old(d.store).(journal := d.store.journal)
    ensures d.store.journal.None? || d.store.journal == old(d.store).journal
    ensures ok ==> d.store.journal.None?
    ensures d.Accounts(ok)
    ensures old(d.Quiet()) ==> ok
  {
    ok := Do(d, d.store.(journal := None));
  }

  /** Puts the committed journal in place of the uncommitted one. */
  method WriteCommitMarker(d: Disk<Store>) returns (ok: bool)
    requires Ready(d) && d.store.journal.Some? && d.store.services == Running && !d.store.withdrawn
    requires d.store.records == d.store.journal.value.New()
    modifies d
    ensures Continues(d) && d.store == old(d.store).(journal := d.store.journal)
    ensures ok ==> d.store.journal == Some(old(d.store).journal.value.(committed := true))
    ensures d.Accounts(ok)
    ensures old(d.Quiet()) ==> ok
  {
    ok := Do(d, d.store.(journal := Some(d.store.journal.value.(committed := true))));
  }

  /** The two compare-and-swap operations. A swap that lowers the revision withdraws it. */
  function SwappedBinding(s: Store, revision: int, digest: Digest): Store {
    var b := s.records.binding;
    s.(records := s.records.(binding := b.(revision := revision, digest := digest)),
       withdrawn := s.withdrawn || revision < b.revision)
  }

  method CompareSwapConfiguration(d: Disk<Store>, expected: Binding, revision: int, digest: Digest) returns (ok: bool)
    requires Ready(d)
    requires d.store.records.binding == expected ==> Step(d.store, SwappedBinding(d.store, revision, digest))
    modifies d
    ensures Continues(d)
    ensures d.store == old(d.store) || d.store == SwappedBinding(old(d.store), revision, digest)
    ensures ok ==> old(d.store).records.binding == expected && d.store == SwappedBinding(old(d.store), revision, digest)
    ensures expected.revision <= 0 || revision - expected.revision !in {-1, 1} ==> !ok && d.store == old(d.store)
    ensures ok ==> d.Failures() == old(d.Failures())
    ensures !ok && d.alive && 0 < expected.revision && (revision - expected.revision in {-1, 1}) ==>
              old(d.store).records.binding == expected ==> d.Failures() < old(d.Failures())
    ensures old(d.Quiet()) && 0 < expected.revision && (revision - expected.revision in {-1, 1}) ==>
              (ok <==> old(d.store).records.binding == expected)
  {
    if expected.revision <= 0 || (revision != expected.revision + 1 && revision != expected.revision - 1) {
      return false;
    }
    var read := d.Read();
    if !read || d.store.records.binding != expected {
      return false;
    }
    ok := Do(d, SwappedBinding(d.store, revision, digest));
  }

  method CompareSwapCompletedCommit(d: Disk<Store>, expected: Proof, replacement: Proof) returns (ok: bool)
    requires Ready(d)
    requires d.store.records.proof == expected ==>
               Step(d.store, d.store.(records := d.store.records.(proof := replacement)))
    modifies d
    ensures Continues(d)
    ensures d.store == old(d.store) || d.store == old(d.store).(records := old(d.store).records.(proof := replacement))
    ensures ok ==> old(d.store).records.proof == expected && d.store.records.proof == replacement
    ensures !Swappable(expected, replacement) ==> !ok && d.store == old(d.store)
    ensures ok ==>
              && replacement == expected.(revision := replacement.revision, digest := replacement.digest)
              && replacement.revision - expected.revision in {-1, 1} && 0 < replacement.revision
    ensures ok ==> d.Failures() == old(d.Failures())
    ensures !ok && d.alive && Swappable(expected, replacement) && old(d.store).records.proof == expected ==>
              d.Failures() < old(d.Failures())
    ensures old(d.Quiet()) && Swappable(expected, replacement) ==> (ok <==> old(d.store).records.proof == expected)
  {
    if !Swappable(expected, replacement) {
      return false;
    }
    var read := d.Read();
    if !read || d.store.records.proof != expected {
      return false;
    }
    ok := Do(d, d.store.(records := d.store.records.(proof := replacement)));
  }

  predicate Swappable(expected: Proof, replacement: Proof) {
    && ValidProof(expected) && ValidProof(replacement)
    && expected.installation == replacement.installation && expected.operation == replacement.operation
    && expected.schema == replacement.schema
    && (replacement.revision == expected.revision + 1 || replacement.revision == expected.revision - 1)
  }

  // ---------- rollback ----------

  /** The old records and nothing else: what a completed rollback leaves. */
  ghost predicate RolledBack(s: Store, before: Records) {
    s.records == before && s.journal.None? && !s.stopIntent && s.services == Running
  }

  ghost predicate Undoing(s: Store) {
    s.journal.Some? && !s.journal.value.committed && s.services == Stopped
  }

  method RestoreBinding(d: Disk<Store>) returns (ok: bool)
    requires Ready(d) && Undoing(d.store)
    modifies d
    ensures Continues(d) && Undoing(d.store) && d.store.journal == old(d.store).journal
    ensures d.store.records == old(d.store).records.(binding := d.store.records.binding)
    ensures ok ==> d.store.records.binding == d.store.journal.value.before.binding
    ensures d.Accounts(ok)
    ensures old(d.Quiet()) ==> ok
  {
    var j := d.store.journal.value;
    var next := j.New().binding;
    ok := d.Read();
    if !ok || (d.store.records.binding != next && d.store.records.binding != j.before.binding) {
      return false;
    }
    if d.store.records.binding == next {
      assert SwappedBinding(d.store, j.before.proof.revision, j.before.proof.digest).records.binding == j.before.binding;
      ok := CompareSwapConfiguration(d, next, j.before.proof.revision, j.before.proof.digest);
    }
  }

  method RestoreProof(d: Disk<Store>) returns (ok: bool)
    requires Ready(d) && Undoing(d.store) && d.store.records.binding == d.store.journal.value.before.binding
    modifies d
    ensures Continues(d) && Undoing(d.store) && d.store.journal == old(d.store).journal
    ensures ok ==> d.store.records == old(d.store).records.(proof := d.store.journal.value.before.proof)
    ensures d.Accounts(ok)
    ensures old(d.Quiet()) ==> ok
  {
    var j := d.store.journal.value;
    ok := d.Read();
    if !ok || (d.store.records.proof != j.newProof && d.store.records.proof != j.before.proof) {
      return false;
    }
    if d.store.records.proof == j.newProof {
      ok := CompareSwapCompletedCommit(d, j.newProof, j.before.proof);
    }
  }

  method RestoreFiles(d: Disk<Store>) returns (ok: bool)
    requires Ready(d) && Undoing(d.store)
    requires d.store.records.binding == d.store.journal.value.before.binding
    requires d.store.records.proof == d.store.journal.value.before.proof
    modifies d
    ensures Continues(d) && Undoing(d.store) && d.store.journal == old(d.store).journal
    ensures ok ==> d.store.records == d.store.journal.value.before
    ensures d.Accounts(ok)
    ensures old(d.Quiet()) ==> ok
  {
    var before := d.store.journal.value.before;
    ok := Do(d, d.store.(records := d.store.records.(runtime := before.runtime)));
    if !ok {
      return;
    }
    ok := Do(d, d.store.(records := d.store.records.(manifest := before.manifest)));
  }

  /** Restores the records of the journal in the store, whatever had been published, and starts the
      deployment again. */
  method Rollback(d: Disk<Store>) returns (ok: bool)
    requires Ready(d) && Undoing(d.store)
    modifies d
    ensures Continues(d)
    ensures ok ==> RolledBack(d.store, old(d.store).journal.value.before)
    ensures d.Accounts(ok)
    ensures old(d.Quiet()) ==> ok
  {
    hide Step;
    hide RequestDigest;
    var j := d.store.journal.value;
    ok := d.Read();
    if !ok || (d.store.records.runtime != j.before.runtime && d.store.records.runtime != j.newRuntime)
       || (d.store.records.manifest != j.before.manifest && d.store.records.manifest != j.newManifest) {
      return false;
    }
    ok := RestoreRecords(d);
    if !ok {
      return;
    }
    ok := ApplyDeployment(d);
    if !ok {
      return;
    }
    ok := ClearStopIntent(d);
    if !ok {
      return;
    }
    ok := RemoveJournal(d);
  }

  /** Binding, proof and the two files, in this order. */
  method RestoreRecords(d: Disk<Store>) returns (ok: bool)
    requires Ready(d) && Undoing(d.store)
    modifies d
    ensures Continues(d) && Undoing(d.store) && d.store.journal == old(d.store).journal
    ensures ok ==> d.store.records == d.store.journal.value.before
    ensures d.Accounts(ok)
    ensures old(d.Quiet()) ==> ok
  {
    hide Step;
    hide RequestDigest;
    hide Inv;
    ok := RestoreBinding(d);
    if !ok {
      return;
    }
    ok := RestoreProof(d);
    if !ok {
      return;
    }
    ok := RestoreFiles(d);
  }

  // ---------- the command ----------

  /** What a successful run reports is what is on disk, and nothing is left to recover. */
  ghost predicate Reported(s: Store, r: Outcome) {
    r.Configured? ==>
      && s.journal.None? && !s.stopIntent && s.services == Running
      && s.records.proof.revision == r.revision && s.records.runtime.url == r.url
  }

  /** No journal, no stop intent, everything running. */
  ghost predicate Settled(s: Store) {
    s.journal.None? && !s.stopIntent && s.services == Running
  }

  /** Every record carries what the journal announces. */
  /** With the administrator's fields as they were, that is the new records and no others. */
  lemma FullyPublishedIsNew(r: Records, j: Journal)
    requires r.binding.installation == j.before.binding.installation && r.binding.email == j.before.binding.email
    ensures FullyPublished(r, j) <==> r == j.New()
  {
  }

  predicate FullyPublished(r: Records, j: Journal) {
    && r.proof == j.newProof
    && r.binding.revision == j.newProof.revision && r.binding.digest == j.newProof.digest
    && r.binding.operation == j.before.binding.operation && r.binding.admin == j.before.binding.admin
    && r.runtime == j.newRuntime && r.manifest == j.newManifest
  }

  /** A run that finds a journal: it completes a change that is wholly published, and takes back
      every other. */
  method Retry(d: Disk<Store>, refresh: Option<map<string, string>>) returns (r: Outcome)
    requires Ready(d) && d.store.journal.Some?
    modifies d
    ensures Continues(d) && Reported(d.store, r)
    ensures r.Configured? && !old(d.store).journal.value.committed ==> d.Failures() == old(d.Failures())
    ensures d.alive && d.Failures() == old(d.Failures()) ==> Settled(d.store)
    ensures old(d.Quiet()) ==> d.alive && d.Failures() == old(d.Failures())
    ensures old(d.Quiet()) ==> Settled(d.store)
    ensures d.alive && d.Failures() == old(d.Failures()) ==>
              var j := old(d.store).journal.value;
              if old(d.store).records == j.New()
              then r == Configured(j.newProof.revision, j.newRuntime.url) && d.store.records == j.New()
              else r.Failure? && d.store.records == j.before
  {
    hide Step;
    hide RequestDigest;
    var j := d.store.journal.value;
    var ok := d.Read();
    if !ok || !ValidateConfigurationJournal(j, d.store.records.runtime.installation) {
      return Failure("configuration recovery journal is invalid");
    }
    ok := d.Read();
    var fullyPublished := ok && FullyPublished(d.store.records, j);
    if fullyPublished && !j.committed {
      ok := ResumePublished(d);
      if !ok {
        return Failure("resume published configuration failed");
      }
      j := j.(committed := true);
    }
    if j.committed {
      r := FinishCommitted(d);
      return;
    }
    ok := TakeBack(d, refresh);
    return Failure(if ok then "interrupted configuration restored" else "recovery failed");
  }

  /** Rolls a wholly published change out and commits it. */
  method ResumePublished(d: Disk<Store>) returns (ok: bool)
    requires Ready(d) && d.store.journal.Some? && !d.store.journal.value.committed
    requires d.store.records == d.store.journal.value.New()
    modifies d
    ensures Continues(d) && d.store.records == old(d.store).records
    ensures ok ==> d.store.journal == Some(old(d.store).journal.value.(committed := true))
    ensures d.Accounts(ok)
    ensures old(d.Quiet()) ==> ok
  {
    ok := ApplyDeployment(d);
    if ok {
      ok := WriteCommitMarker(d);
    }
  }

  /** Stops whatever runs and restores the old records. */
  method TakeBack(d: Disk<Store>, refresh: Option<map<string, string>>) returns (ok: bool)
    requires Ready(d) && d.store.journal.Some? && !d.store.journal.value.committed
    modifies d
    ensures Continues(d)
    ensures ok ==> RolledBack(d.store, old(d.store).journal.value.before)
    ensures d.Accounts(ok)
    ensures old(d.Quiet()) ==> ok
  {
    hide Step;
    hide RequestDigest;
    if refresh.Some? {
      ok := RefreshAssets(d, refresh.value);
      if !ok {
        return;
      }
    }
    ok := StopDeployment(d);
    if ok {
      ok := Rollback(d);
    }
  }

  /** Removes what a committed change has left behind. */
  method FinishCommitted(d: Disk<Store>) returns (r: Outcome)
    requires Ready(d) && d.store.journal.Some? && d.store.journal.value.committed
    modifies d
    ensures Continues(d) && Reported(d.store, r)
    ensures d.store.records == old(d.store).records
    ensures d.Accounts(r.Configured?)
    ensures old(d.Quiet()) ==> Settled(d.store)
    ensures old(d.Quiet()) ==> r == Configured(d.store.records.proof.revision, d.store.records.runtime.url)
  {
    var j := d.store.journal.value;
    var ok := d.Read();
    if !ok || !FullyPublished(d.store.records, j) {
      return Failure("committed configuration recovery mismatch");
    }
    ok := ClearStopIntent(d);
    if !ok {
      return Failure("committed stop-intent cleanup failed");
    }
    ok := RemoveJournal(d);
    if !ok {
      return Failure("committed journal cleanup failed");
    }
    return Configured(j.newProof.revision, d.store.records.runtime.url);
  }

  /** Two records that differ at most in the hashes of managed assets. */
  ghost predicate SameUpToAssets(r: Records, q: Records) {
    q == r.(manifest := r.manifest.(assets := q.manifest.assets))
  }

  /** A run that finds a stop intent starts the stopped deployment first. */
  method RecoverStop(d: Disk<Store>, refresh: Option<map<string, string>>) returns (ok: bool)
    requires Ready(d) && d.store.journal.None? && d.store.stopIntent
    modifies d
    ensures Continues(d) && d.store.journal.None? && SameUpToAssets(old(d.store).records, d.store.records)
    ensures ok ==> Settled(d.store)
    ensures ok && refresh.Some? ==> d.store.records.manifest.assets == refresh.value
    ensures d.Accounts(ok)
    ensures old(d.Quiet()) ==> ok
  {
    if refresh.Some? {
      ok := RefreshAssets(d, refresh.value);
      if !ok {
        return;
      }
    }
    ok := ApplyDeployment(d);
    if !ok {
      return;
    }
    ok := ClearStopIntent(d);
  }

  /** From some store on, the services have been stopped. */
  ghost predicate WasStopped(trace: seq<Store>, from: int) {
    exists k :: 0 <= k < |trace| && from <= k && trace[k].services == Stopped
  }

  /** The requested URL is configured already: the deployment is refreshed and restarted. */
  method RestartCanonical(d: Disk<Store>, refresh: Option<map<string, string>>) returns (r: Outcome)
    requires Ready(d) && Settled(d.store)
    modifies d
    ensures Continues(d) && Reported(d.store, r)
    ensures d.store.journal.None? && SameUpToAssets(old(d.store).records, d.store.records)
    ensures d.Accounts(r.Configured?)
    ensures r.Configured? && refresh.Some? ==> d.store.records.manifest.assets == refresh.value
    ensures r.Configured? ==> WasStopped(d.trace, |old(d.trace)| - 1)
    ensures old(d.Quiet()) ==> Settled(d.store)
    ensures old(d.Quiet()) ==> r == Configured(d.store.records.proof.revision, d.store.records.runtime.url)
  {
    hide Step;
    hide RequestDigest;
    var ok := d.Read();
    if !ok || d.store.records.manifest.url != d.store.records.runtime.url {
      return Failure("deployment public URL does not match runtime");
    }
    ok := WriteStopIntent(d);
    if !ok {
      return Failure("persist stop intent failed");
    }
    var current := StopAndRefresh(d, refresh);
    assert current ==> d.trace[|d.trace| - 1].services == Stopped;
    ok := ApplyDeployment(d);
    if !ok {
      return Failure("restart canonical deployment failed");
    }
    ok := ClearStopIntent(d);
    if !ok {
      return Failure("clear stop intent failed");
    }
    if !current {
      return Failure("canonical asset refresh failed");
    }
    return Configured(d.store.records.proof.revision, d.store.records.runtime.url);
  }

  /** Stops the deployment, and refreshes the managed assets if that worked. */
  method StopAndRefresh(d: Disk<Store>, refresh: Option<map<string, string>>) returns (ok: bool)
    requires Ready(d) && d.store.journal.None? && d.store.stopIntent
    modifies d
    ensures Continues(d) && d.store.journal.None? && d.store.stopIntent
    ensures SameUpToAssets(old(d.store).records, d.store.records)
    ensures ok && refresh.Some? ==> d.store.records.manifest.assets == refresh.value
    ensures ok ==> d.store.services == Stopped
    ensures d.Accounts(ok)
    ensures old(d.Quiet()) ==> ok
  {
    hide Step;
    hide RequestDigest;
    ok := StopDeployment(d);
    if ok && refresh.Some? {
      ok := RefreshAssets(d, refresh.value);
    }
  }

  method RestartOld(d: Disk<Store>)
    requires Ready(d) && Uncommitted(d.store) && (d.store.stopIntent || d.store.journal.Some?) && Agree(d.store.records)
    modifies d
    ensures Continues(d)
    ensures d.store == old(d.store).(services := d.store.services, stopIntent := d.store.stopIntent)
    ensures d.alive && d.Failures() == old(d.Failures()) ==> d.store.services == Running && !d.store.stopIntent
  {
    var ok := ApplyDeployment(d);
    if ok {
      ok := ClearStopIntent(d);
    }
  }

  lemma NewJournalIsSound(defaults: map<string, string>, r: Records, url: string)
    requires Agree(r) && Complete(defaults, r.runtime) && r.proof.revision < MAX_INT
    ensures Sound(NewJournal(defaults, r, url))
  {
    assert NewJournal(defaults, r, url).newRuntime.settings == r.runtime.settings;
  }

  /** The first half of a change: everything is stopped and the managed assets are current, or the
      old deployment has been started again. */
  method StopForChange(d: Disk<Store>, refresh: Option<map<string, string>>) returns (ok: bool)
    requires Ready(d) && Settled(d.store)
    modifies d
    ensures Continues(d) && d.store.journal.None? && SameUpToAssets(old(d.store).records, d.store.records)
    ensures ok ==> d.store.stopIntent && d.store.services == Stopped
    ensures !ok && d.alive && old(d.Failures()) <= d.Failures() + 1 ==> d.store.services == Running
    ensures !ok && d.alive && old(d.Failures()) <= d.Failures() + 1 && d.Landings() == old(d.Landings()) ==>
              Settled(d.store)
    ensures ok && refresh.Some? ==> d.store.records.manifest.assets == refresh.value
    ensures d.Accounts(ok)
    ensures old(d.Quiet()) ==> ok
  {
    hide Step;
    hide RequestDigest;
    ok := WriteStopIntent(d);
    if !ok {
      return;
    }
    ok := StopDeployment(d);
    if !ok {
      RestartOld(d);
      return;
    }
    if refresh.Some? {
      ok := RefreshAssets(d, refresh.value);
      if !ok {
        RestartOld(d);
      }
    }
  }

  /** The journal as it lies before the first record changes. */
  ghost predicate ChangeRecorded(s: Store, revision: int, url: string) {
    && s.journal.Some? && !s.journal.value.committed && !s.withdrawn
    && s.services == Stopped && s.records == s.journal.value.before
    && s.journal.value.newProof.revision == revision && s.journal.value.newRuntime.url == url
  }

  /** The second half: old and new are recorded. */
  method RecordChange(d: Disk<Store>, initial: Runtime, url: string, defaults: map<string, string>) returns (ok: bool)
    requires Ready(d) && d.store.journal.None? && d.store.stopIntent && d.store.services == Stopped
    requires Complete(defaults, d.store.records.runtime) && d.store.records.proof.revision < MAX_INT
    modifies d
    ensures Continues(d)
    ensures d.store.records == old(d.store).records
    ensures initial != old(d.store).records.runtime ==> !ok
    ensures !ok && d.alive && old(d.Failures()) <= d.Failures() + (if initial == old(d.store).records.runtime then 1 else 0) ==>
              d.store.services == Running && !d.store.stopIntent
    ensures ok ==> ChangeRecorded(d.store, old(d.store).records.proof.revision + 1, url)
    ensures initial == old(d.store).records.runtime ==> d.Accounts(ok)
    ensures old(d.Quiet()) && initial == old(d.store).records.runtime ==> ok
  {
    ok := d.Read();
    if !ok || d.store.records.runtime != initial {
      ok := false;
      RestartOld(d);
      return;
    }
    var j := NewJournal(defaults, d.store.records, url);
    NewJournalIsSound(defaults, d.store.records, url);
    ok := Do(d, d.store.(journal := Some(j), withdrawn := false));
    if !ok {
      RestartOld(d);
    }
  }

  /** The four records are published in order; the first failure ends it. */
  method Publish(d: Disk<Store>) returns (ok: bool)
    requires Ready(d) && Undoing(d.store) && !d.store.withdrawn && d.store.records == d.store.journal.value.before
    modifies d
    ensures Continues(d) && Undoing(d.store) && d.store.journal == old(d.store).journal
    ensures !d.store.withdrawn
    ensures ok ==> d.store.records == d.store.journal.value.New()
    ensures d.Accounts(ok)
    ensures old(d.Quiet()) ==> ok
  {
    var j := d.store.journal.value;
    ok := CompareSwapConfiguration(d, j.before.binding, j.newProof.revision, j.newProof.digest);
    if !ok {
      return;
    }
    ok := Do(d, d.store.(records := d.store.records.(runtime := j.newRuntime)));
    if !ok {
      return;
    }
    ok := CompareSwapCompletedCommit(d, j.before.proof, j.newProof);
    if !ok {
      return;
    }
    ok := Do(d, d.store.(records := d.store.records.(manifest := j.newManifest)));
  }

  /** A change that failed before its rollout is taken back at once. It reports the old configuration
      restored exactly if it is. */
  method Fail(d: Disk<Store>) returns (r: Outcome)
    requires Ready(d) && Undoing(d.store)
    modifies d
    ensures Continues(d) && r.Failure?
    ensures d.Accounts(r == Failure(RESTORED))
    ensures r == Failure(RESTORED) ==> RolledBack(d.store, old(d.store).journal.value.before)
  {
    hide Step;
    hide Inv;
    var restored := Rollback(d);
    return Failure(if restored then RESTORED else "recovery journal retained");
  }

  const RESTORED := "previous configuration restored"

  /** The commit marker, and then everything that the change no longer needs is removed. */
  method CommitChange(d: Disk<Store>) returns (r: Outcome)
    requires Ready(d) && d.store.journal.Some? && d.store.services == Running && !d.store.withdrawn
    requires d.store.records == d.store.journal.value.New()
    modifies d
    ensures Continues(d) && Reported(d.store, r)
    ensures d.Accounts(r.Configured?)
    ensures d.store.records == old(d.store).records && d.store.services == Running
    ensures r.Configured? || old(d.Quiet()) ==>
              && d.store.records == old(d.store).journal.value.New() && Settled(d.store)
              && r == Configured(d.store.records.proof.revision, d.store.records.runtime.url)
  {
    hide Step;
    hide RequestDigest;
    var j := d.store.journal.value;
    var ok := WriteCommitMarker(d);
    if !ok {
      return Failure("configuration active; commit marker write failed");
    }
    ok := ClearStopIntent(d);
    if !ok {
      return Failure("configuration committed; stop intent cleanup failed");
    }
    ok := RemoveJournal(d);
    if !ok {
      return Failure("configuration applied; journal cleanup failed");
    }
    return Configured(j.newProof.revision, j.newRuntime.url);
  }

  /** How a change ends that met one failure: taken back entirely, or in place entirely. */
  ghost predicate Ended(s: Store, j: Journal) {
    RolledBack(s, j.before) || (s.records == j.New() && s.services == Running)
  }

  /** Publishing, rollout and commit of a recorded change. */
  method PublishChange(d: Disk<Store>) returns (r: Outcome)
    requires Ready(d) && Undoing(d.store) && !d.store.withdrawn && d.store.records == d.store.journal.value.before
    modifies d
    ensures Continues(d) && Reported(d.store, r)
    ensures d.Accounts(r.Configured?)
    ensures r.Failure? && d.OneFailure() ==> Ended(d.store, old(d.store).journal.value)
    ensures r.Configured? || old(d.Quiet()) ==>
              && d.store.records == old(d.store).journal.value.New() && Settled(d.store)
              && r == Configured(d.store.records.proof.revision, d.store.records.runtime.url)
  {
    hide Step;
    hide RequestDigest;
    var j := d.store.journal.value;
    var ok := Publish(d);
    if !ok {
      r := Fail(d);
      return;
    }
    ok := ApplyDeployment(d);
    if !ok {
      ok := StopDeployment(d);
      if !ok {
        return Failure("configuration rollout failed; stop failed");
      }
      r := Fail(d);
      return;
    }
    r := CommitChange(d);
  }

  /** The records the forward path insists on before it touches anything. */
  predicate CompletedInstallation(r: Records) {
    && Atoi(r.runtime.revision) == Some(r.proof.revision)
    && r.binding.revision == r.proof.revision
    && r.proof.digest == RequestDigest(r.runtime, r.binding.email) == r.binding.digest
    && r.binding.operation == r.proof.operation
    && r.binding.installation == r.proof.installation == r.runtime.installation
  }

  /** These are the agreeing records, as far as they can be read off the three they look at; and no other
      revision is taken for the one of the proof. */
  lemma CompletedAgrees(r: Records)
    requires ValidProof(r.proof) && r.proof.revision <= MAX_INT
    requires r.runtime.revision == Itoa(r.proof.revision)
    ensures CompletedInstallation(r) && r.manifest.installation == r.runtime.installation && r.manifest.url == r.runtime.url
       <==> Agree(r)
    ensures forall q: Records, n: nat :: n <= MAX_INT && q.runtime.revision == Itoa(n) && CompletedInstallation(q) ==>
              q.proof.revision == n
  {
    AtoiOfItoa(r.proof.revision);
    forall q: Records, n: nat | n <= MAX_INT && q.runtime.revision == Itoa(n) && CompletedInstallation(q)
      ensures q.proof.revision == n
    {
      AtoiOfItoa(n);
    }
  }

  /** The old deployment runs again, its assets perhaps refreshed, or the new one is in place. */
  ghost predicate OldOrNewRuns(was: Records, s: Store, url: string) {
    && s.services == Running
    && (SameUpToAssets(was, s.records) ||
        (s.records.proof.revision == was.proof.revision + 1 && s.records.runtime.url == url))
  }

  /** The forward path once nothing is pending and the URL differs. */
  method ChangeUrl(d: Disk<Store>, initial: Runtime, url: string, defaults: map<string, string>,
                   refresh: Option<map<string, string>>) returns (r: Outcome)
    requires Ready(d) && Settled(d.store) && Complete(defaults, d.store.records.runtime)
    requires initial == d.store.records.runtime && d.store.records.runtime.url != url
    modifies d
    ensures Continues(d) && Reported(d.store, r)
    ensures r.Configured? ==> d.Failures() == old(d.Failures())
    ensures if old(d.store).records.proof.revision == MAX_INT then r.Failure? && d.store == old(d.store)
            else d.Accounts(r.Configured?)
    ensures r.Configured? && refresh.Some? ==> d.store.records.manifest.assets == refresh.value
    ensures r.Failure? && d.OneFailure() ==>
              OldOrNewRuns(old(d.store).records, d.store, url)
    ensures old(d.Quiet()) ==> Settled(d.store)
    ensures old(d.Quiet()) ==>
              var was := old(d.store).records.proof.revision;
              if was == MAX_INT then r.Failure? else r == Configured(was + 1, url)
  {
    hide Step;
    hide RequestDigest;
    var revision := d.store.records.proof.revision;
    if revision == MAX_INT {
      return Failure("configuration revision exhausted");
    }
    var ok := StopForChange(d, refresh);
    if !ok {
      return Failure("stop application services failed");
    }
    ok := RecordChange(d, initial, url, defaults);
    if !ok {
      return Failure("persist configuration recovery journal failed");
    }
    r := PublishChange(d);
  }

  method Reconfigure(d: Disk<Store>, url: string, defaults: map<string, string>,
                     refresh: Option<map<string, string>>) returns (r: Outcome)
    requires Ready(d) && Complete(defaults, d.store.records.runtime)
    modifies d
    ensures Continues(d) && Reported(d.store, r)
    ensures r.Configured? && old(d.store).journal.None? ==> d.Failures() == old(d.Failures())
    ensures r.Configured? && old(d.store).journal.None? && refresh.Some? ==>
              d.store.records.manifest.assets == refresh.value
    ensures r.Failure? && d.OneFailure() && Settled(old(d.store)) && old(d.store).records.runtime.url != url ==>
              OldOrNewRuns(old(d.store).records, d.store, url)
    ensures old(d.Quiet()) ==> Settled(d.store)
    ensures old(d.Quiet()) && old(d.store).journal.Some? ==>
              var j := old(d.store).journal.value;
              if old(d.store).records == j.New()
              then r == Configured(j.newProof.revision, j.newRuntime.url) && d.store.records == j.New()
              else r.Failure? && d.store.records == j.before
    ensures old(d.Quiet()) && old(d.store).journal.None? ==>
              var was := old(d.store).records.proof.revision;
              if old(d.store).records.runtime.url == url then r == Configured(was, url)
              else if was == MAX_INT then r.Failure?
              else r == Configured(was + 1, url)
  {
    hide Step;
    hide RequestDigest;
    if d.store.journal.Some? {
      r := Retry(d, refresh);
      return;
    }
    r := ReconfigureWithoutJournal(d, url, defaults, refresh);
  }

  /** A run that finds no journal. */
  method ReconfigureWithoutJournal(d: Disk<Store>, url: string, defaults: map<string, string>,
                                   refresh: Option<map<string, string>>) returns (r: Outcome)
    requires Ready(d) && d.store.journal.None? && Complete(defaults, d.store.records.runtime)
    modifies d
    ensures Continues(d) && Reported(d.store, r)
    ensures r.Configured? ==> d.Failures() == old(d.Failures())
    ensures r.Configured? && refresh.Some? ==> d.store.records.manifest.assets == refresh.value
    ensures r.Failure? && d.OneFailure() && Settled(old(d.store)) && old(d.store).records.runtime.url != url ==>
              OldOrNewRuns(old(d.store).records, d.store, url)
    ensures old(d.Quiet()) ==> Settled(d.store)
    ensures old(d.Quiet()) ==>
              var was := old(d.store).records.proof.revision;
              if old(d.store).records.runtime.url == url then r == Configured(was, url)
              else if was == MAX_INT then r.Failure?
              else r == Configured(was + 1, url)
  {
    hide Step;
    hide RequestDigest;
    hide Inv;
    hide Complete;
    hide OldOrNewRuns;
    ghost var was := d.store;
    var ok := CheckCompleted(d);
    if !ok {
      NothingChanged(was.records, d.store, url);
      return Failure("existing configuration binding does not match");
    }
    ok := RecoverIfStopped(d, refresh);
    if !ok {
      return Failure("recover interrupted stop failed");
    }
    CompleteByRuntime(defaults, was.records.runtime, d.store.records.runtime);
    r := RestartOrChange(d, url, defaults, refresh);
  }

  /** A stop intent left behind comes first. */
  method RecoverIfStopped(d: Disk<Store>, refresh: Option<map<string, string>>) returns (ok: bool)
    requires Ready(d) && d.store.journal.None?
    modifies d
    ensures Continues(d) && d.store.journal.None? && SameUpToAssets(old(d.store).records, d.store.records)
    ensures ok ==> Settled(d.store)
    ensures Settled(old(d.store)) ==> ok && d.store == old(d.store)
    ensures d.Accounts(ok)
    ensures old(d.Quiet()) ==> ok
  {
    hide Step;
    hide RequestDigest;
    if d.store.stopIntent {
      ok := RecoverStop(d, refresh);
    } else {
      ok := true;
    }
  }

  /** From a settled store: the requested URL is there already, or it is changed. */
  method RestartOrChange(d: Disk<Store>, url: string, defaults: map<string, string>,
                         refresh: Option<map<string, string>>) returns (r: Outcome)
    requires Ready(d) && Settled(d.store) && Complete(defaults, d.store.records.runtime)
    modifies d
    ensures Continues(d) && Reported(d.store, r)
    ensures r.Configured? ==> d.Failures() == old(d.Failures())
    ensures r.Configured? && refresh.Some? ==> d.store.records.manifest.assets == refresh.value
    ensures r.Configured? && old(d.store).records.runtime.url == url ==> WasStopped(d.trace, |old(d.trace)| - 1)
    ensures r.Failure? && d.OneFailure() && old(d.store).records.runtime.url != url ==>
              OldOrNewRuns(old(d.store).records, d.store, url)
    ensures old(d.Quiet()) ==> Settled(d.store)
    ensures old(d.Quiet()) ==>
              var was := old(d.store).records.proof.revision;
              if old(d.store).records.runtime.url == url then r == Configured(was, url)
              else if was == MAX_INT then r.Failure?
              else r == Configured(was + 1, url)
  {
    hide Step;
    hide RequestDigest;
    hide Inv;
    hide Complete;
    hide OldOrNewRuns;
    if d.store.records.runtime.url == url {
      r := RestartCanonical(d, refresh);
    } else {
      r := ChangeUrl(d, d.store.records.runtime, url, defaults, refresh);
    }
  }

  lemma NothingChanged(was: Records, s: Store, url: string)
    requires s.records == was
    ensures s.services == Running ==> OldOrNewRuns(was, s, url)
  {
  }

  lemma CompleteByRuntime(defaults: map<string, string>, r: Runtime, q: Runtime)
    requires r == q
    ensures Complete(defaults, r) <==> Complete(defaults, q)
  {
  }

  /** The checks before anything is touched; agreeing records pass them. */
  method CheckCompleted(d: Disk<Store>) returns (ok: bool)
    requires Ready(d) && d.store.journal.None?
    modifies d
    ensures Continues(d) && d.store == old(d.store)
    ensures d.Accounts(ok)
    ensures old(d.Quiet()) ==> ok
  {
    hide Step;
    ok := d.Read();
    AtoiOfItoa(d.store.records.proof.revision);
    ok := ok && CompletedInstallation(d.store.records);
  }

  // ---------- whole runs ----------

  /** One invocation of the command, and how everything it attempts turns out. */
  datatype Invocation = Invocation(url: string, refresh: Option<map<string, string>>, script: seq<Fault>)

  /** The run so far started from a good store. */
  ghost predicate Underway(d: Disk<Store>)
    reads d
  {
    Ready(d) && 0 < |d.trace| && Inv(d.trace[0])
  }

  lemma SettingsKept(d: Disk<Store>)
    requires Underway(d)
    ensures d.store.records.runtime.settings == d.trace[0].records.runtime.settings
  {
    RunKeepsSettings(d.trace, |d.trace| - 1);
  }

  lemma SafeSoFar(d: Disk<Store>)
    requires Underway(d)
    ensures forall i :: 0 <= i < |d.trace| ==> Safe(d.trace[i])
    ensures SettledRevision(d.store) == SettledRevision(d.trace[0]) + CommitCount(d.trace, |d.trace| - 1)
  {
    EveryReachableStoreIsSafe(d.trace);
    RevisionCountsCommits(d.trace, |d.trace| - 1);
  }

  method Invoke(d: Disk<Store>, run: Invocation, defaults: map<string, string>) returns (r: Outcome)
    requires Underway(d) && Complete(defaults, d.trace[0].records.runtime)
    modifies d
    ensures Underway(d) && old(d.trace) <= d.trace
    ensures run.script == [] ==> Settled(d.store) && Reported(d.store, r)
  {
    SettingsKept(d);
    d.Boot(run.script);
    r := Reconfigure(d, run.url, defaults, run.refresh);
  }

  /** Any number of invocations, each failing and dying wherever its script says, and then one that
      nothing interrupts: the records agree, everything runs and nothing is left to recover. On the
      way no reachable store was unsafe, and the revision counted the committed changes. */
  method RecoverAfterAnyRuns(d: Disk<Store>, runs: seq<Invocation>, last: Invocation, defaults: map<string, string>)
    returns (r: Outcome)
    requires Underway(d) && Complete(defaults, d.trace[0].records.runtime)
    requires last.script == []
    modifies d
    ensures Underway(d) && old(d.trace) <= d.trace
    ensures Settled(d.store) && Agree(d.store.records) && Reported(d.store, r)
    ensures forall i :: 0 <= i < |d.trace| ==> Safe(d.trace[i])
    ensures d.store.records.proof.revision == SettledRevision(d.trace[0]) + CommitCount(d.trace, |d.trace| - 1)
  {
    for i := 0 to |runs|
      invariant Underway(d) && old(d.trace) <= d.trace
    {
      var _ := Invoke(d, runs[i], defaults);
    }
    r := Invoke(d, last, defaults);
    SafeSoFar(d);
  }
}
