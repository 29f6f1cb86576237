/** The managed nginx refresh (internal/mgsctl/managed_nginx.go): the gateway asset and the hash
    recorded for it in deployment.json change together under a journal with three phases. */
module ManagedNginx {
  import opened Wrappers
  import opened CrashDisk

  const NGINX_PATH := "assets/nginx-default.conf"

  /** A content hash: equal for equal contents only. */
  datatype Digest = Sha256(content: string)

  /** An install plan, with what the embedded templates render for it: the candidate of this tool
      and the official assets of earlier ones. */
  datatype Plan = Plan(settings: string, candidate: string, official: set<string>)

  datatype Manifest = Manifest(schema: int, installation: string, plan: Plan, files: map<string, Digest>)

  datatype Phase = Prepared | RollingBack | Completed

  datatype Journal = Journal(phase: Phase, oldAsset: string, newAsset: string, oldManifest: Manifest, newManifest: Manifest)

  /** installation is the identity recorded in runtime.env, which this protocol never writes. gateway is
      the asset the running container was created with, checked the one the last successful validation
      saw. */
  datatype Store = Store(installation: string, asset: string, manifest: Manifest, journal: Option<Journal>,
                         gateway: string, checked: Option<string>)

  // ---------- ownership ----------

  /** The asset is the recorded one, or it and the recorded one are both official. */
  predicate Owned(plan: Plan, asset: string, recorded: Option<Digest>) {
    || recorded == Some(Sha256(asset))
    || (asset in plan.official && exists o :: o in plan.official && recorded == Some(Sha256(o)))
  }

  function Recorded(m: Manifest): Option<Digest> {
    if NGINX_PATH in m.files then Some(m.files[NGINX_PATH]) else None
  }

  /** An asset is owned if the manifest records its very hash; one that is not official, only then. An
      official one may stand beside the recorded hash of any other official one, and beside no further one. */
  lemma OwnHashIsOwned(m: Manifest, asset: string)
    ensures Owned(m.plan, asset, Recorded(m.(files := m.files[NGINX_PATH := Sha256(asset)])))
    ensures asset !in m.plan.official ==>
              (Owned(m.plan, asset, Recorded(m)) <==> NGINX_PATH in m.files && m.files[NGINX_PATH] == Sha256(asset))
    ensures asset in m.plan.official ==> forall o :: Owned(m.plan, asset, Some(Sha256(o))) <==> o in m.plan.official
    ensures asset in m.plan.official ==> !Owned(m.plan, asset, None)
  {
  }

  /** Asset and manifest belong to each other and to this installation. */
  predicate Paired(s: Store) {
    && Owned(s.manifest.plan, s.asset, Recorded(s.manifest))
    && s.manifest.schema == 1 && s.manifest.installation == s.installation
  }

  /** What a journal found on disk has to satisfy. */
  predicate ValidNginxJournal(j: Journal, installation: string) {
    && j.oldManifest.schema == 1
    && j.oldManifest.installation == installation == j.newManifest.installation
    && Owned(j.oldManifest.plan, j.oldAsset, Recorded(j.oldManifest))
    && Recorded(j.newManifest) == Some(Sha256(j.newAsset))
    && j.newAsset == j.oldManifest.plan.candidate
    && WithoutAsset(j.newManifest) == WithoutAsset(j.oldManifest)
  }

  function WithoutAsset(m: Manifest): Manifest {
    m.(files := m.files - {NGINX_PATH})
  }

  /** Both files are what the journal says they were or will be. */
  predicate JournalFiles(s: Store, j: Journal) {
    && (s.asset == j.oldAsset || s.asset == j.newAsset)
    && (s.manifest == j.oldManifest || s.manifest == j.newManifest)
  }

  predicate AllOld(s: Store, j: Journal) {
    s.asset == j.oldAsset && s.manifest == j.oldManifest
  }

  predicate AllNew(s: Store, j: Journal) {
    s.asset == j.newAsset && s.manifest == j.newManifest
  }

  // ---------- protocol ----------

  ghost predicate Inv(s: Store) {
    match s.journal
    case None => Paired(s)
    case Some(j) =>
      ValidNginxJournal(j, s.installation) && JournalFiles(s, j) && (j.phase == Completed ==> AllNew(s, j) && s.checked == Some(j.newAsset))
  }

  ghost predicate Begun(s: Store, t: Store) {
    && s.journal.None? && t.journal.Some? && t == s.(journal := t.journal)
    && var j := t.journal.value;
       j.phase == Prepared && AllOld(s, j) && ValidNginxJournal(j, s.installation)
  }

  /** The candidate goes in only while the journal is prepared, the asset before the manifest, and the
      manifest only once that asset has been validated. */
  ghost predicate Published(s: Store, t: Store) {
    && s.journal.Some? && s.journal.value.phase == Prepared
    && var j := s.journal.value;
       t == s.(asset := j.newAsset) || (s.asset == j.newAsset && s.checked == Some(j.newAsset) && t == s.(manifest := j.newManifest))
  }

  ghost predicate Restored(s: Store, t: Store) {
    && s.journal.Some? && s.journal.value.phase == RollingBack
    && var j := s.journal.value;
       t == s.(asset := j.oldAsset) || (s.asset == j.oldAsset && t == s.(manifest := j.oldManifest))
  }

  ghost predicate PhaseMoved(s: Store, t: Store) {
    && s.journal.Some? && s.journal.value.phase == Prepared && t.journal.Some?
    && t == s.(journal := Some(s.journal.value.(phase := t.journal.value.phase)))
    && (t.journal.value.phase == Completed ==>
          AllNew(s, s.journal.value) && s.checked == Some(s.journal.value.newAsset))
  }

  ghost predicate Removed(s: Store, t: Store) {
    && s.journal.Some? && t == s.(journal := None)
    && var j := s.journal.value;
       (j.phase == RollingBack && AllOld(s, j)) || (j.phase == Completed && AllNew(s, j))
  }

  /** A validation looks at the asset as it is on disk. */
  ghost predicate Validated(s: Store, t: Store) {
    t == s.(checked := Some(s.asset))
  }

  /** Applying creates the container anew with the asset on disk. */
  ghost predicate Applied(s: Store, t: Store) {
    t == s.(gateway := s.asset)
  }

  ghost predicate Step(s: Store, t: Store) {
    || Validated(s, t) || Applied(s, t)
    || s == t || Begun(s, t) || Published(s, t) || Restored(s, t) || PhaseMoved(s, t) || Removed(s, t)
  }

  lemma StepKeepsInv(s: Store, t: Store)
    requires Inv(s) && Step(s, t)
    ensures Inv(t)
  {
    if Removed(s, t) {
      var j := s.journal.value;
      if AllNew(s, j) {
        assert WithoutAsset(j.newManifest) == WithoutAsset(j.oldManifest);
      }
    }
  }

  lemma RunKeepsInv(trace: seq<Store>, n: nat)
    requires IsRun(Step, trace) && n < |trace| && Inv(trace[0])
    ensures Inv(trace[n])
  {
    forall s, t | Inv(s) && Step(s, t)
      ensures Inv(t)
    {
      StepKeepsInv(s, t);
    }
    hide Inv;
    hide Step;
    RunKeeps(Step, Inv, trace, n);
  }

  ghost predicate JournalKept(trace: seq<Store>, n: nat, m: nat) {
    n <= m < |trace| && forall i :: n <= i <= m ==> trace[i].journal.Some?
  }

  /** Under one journal a phase that has left prepared is final. */
  lemma {:induction false} PhaseIsFinal(trace: seq<Store>, n: nat, m: nat)
    requires IsRun(Step, trace) && JournalKept(trace, n, m)
    ensures trace[m].journal.value.(phase := Prepared) == trace[n].journal.value.(phase := Prepared)
    ensures trace[n].journal.value.phase != Prepared ==> trace[m].journal == trace[n].journal
  {
    if n < m {
      PhaseIsFinal(trace, n, m - 1);
      assert Step(trace[m - 1], trace[m]);
    }
  }

  /** From the rollback phase on, no run writes the candidate: a file that is old stays old. */
  lemma {:induction false} RollbackNeverWritesCandidate(trace: seq<Store>, n: nat, m: nat)
    requires IsRun(Step, trace) && JournalKept(trace, n, m) && trace[n].journal.value.phase == RollingBack
    ensures trace[m].asset == trace[n].asset || trace[m].asset == trace[n].journal.value.oldAsset
    ensures trace[m].manifest == trace[n].manifest || trace[m].manifest == trace[n].journal.value.oldManifest
  {
    if n < m {
      assert Step(trace[m - 1], trace[m]);
      hide Step;
      RollbackNeverWritesCandidate(trace, n, m - 1);
      PhaseIsFinal(trace, n, m - 1);
      RollingStep(trace[m - 1], trace[m]);
    }
  }

  /** In the rollback phase a step can only make files old again. */
  lemma RollingStep(s: Store, t: Store)
    requires Step(s, t) && s.journal.Some? && t.journal.Some? && s.journal.value.phase == RollingBack
    ensures t.asset == s.asset || t.asset == s.journal.value.oldAsset
    ensures t.manifest == s.manifest || t.manifest == s.journal.value.oldManifest
  {
  }

  /** When the journal goes, both files are old after a rollback and both are new after a completion,
      and they belong to each other. */
  lemma JournalEndsWithPair(trace: seq<Store>, n: nat, m: nat)
    requires JournalKept(trace, n, m) && m + 1 < |trace| && trace[m + 1].journal.None?
    requires IsRun(Step, trace) && Inv(trace[0])
    ensures Paired(trace[m + 1])
    ensures var j := trace[n].journal.value;
            if trace[m].journal.value.phase == RollingBack then AllOld(trace[m + 1], j) else AllNew(trace[m + 1], j)
    ensures trace[m].journal.value.phase != Prepared
    ensures trace[m].journal.value.phase == Completed ==> trace[m + 1].checked == Some(trace[m + 1].asset)
  {
    RunKeepsInv(trace, m);
    RunKeepsInv(trace, m + 1);
    PhaseIsFinal(trace, n, m);
    assert Step(trace[m], trace[m + 1]);
  }

  // ---------- the command ----------

  ghost predicate Ready(d: Disk<Store>)
    reads d
  {
    d.Valid() && d.rule == Step && Inv(d.store)
  }

  twostate predicate Continues(d: Disk<Store>)
    reads d
  {
    Ready(d) && d.Continued()
  }

  method Do(d: Disk<Store>, next: Store) returns (ok: bool)
    requires Ready(d) && Step(d.store, next)
    modifies d
    ensures Continues(d)
    ensures d.store == old(d.store) || d.store == next
    ensures ok ==> d.store == next
    ensures d.Failures() == old(d.Failures()) - (if !ok && d.alive then 1 else 0)
    ensures old(d.Quiet()) ==> ok
  {
    StepKeepsInv(d.store, next);
    ok := d.Attempt(next);
  }

  method Persist(d: Disk<Store>, phase: Phase) returns (ok: bool)
    requires Ready(d) && d.store.journal.Some? && d.store.journal.value.phase == Prepared
    requires phase == Completed ==>
               AllNew(d.store, d.store.journal.value) && d.store.checked == Some(d.store.journal.value.newAsset)
    modifies d
    ensures Continues(d) && d.store == old(d.store).(journal := d.store.journal)
    ensures ok ==> d.store.journal == Some(old(d.store).journal.value.(phase := phase))
    ensures d.Failures() == old(d.Failures()) - (if !ok && d.alive then 1 else 0)
    ensures old(d.Quiet()) ==> ok
  {
    ok := Do(d, d.store.(journal := Some(d.store.journal.value.(phase := phase))));
  }

  method RemoveJournal(d: Disk<Store>) returns (ok: bool)
    requires Ready(d) && d.store.journal.Some? && Removed(d.store, d.store.(journal := None))
    modifies d
    ensures Continues(d) && d.store == old(d.store).(journal := d.store.journal)
    ensures ok ==> d.store.journal.None?
    ensures d.Failures() == old(d.Failures()) - (if !ok && d.alive then 1 else 0)
    ensures old(d.Quiet()) ==> ok
  {
    ok := Do(d, d.store.(journal := None));
  }

  /** Whether the files still are what the journal says. Only a failed look can hide that they are. */
  method CheckJournalFiles(d: Disk<Store>, j: Journal) returns (ok: bool)
    requires Ready(d)
    modifies d
    ensures Continues(d) && d.store == old(d.store)
    ensures ok ==> JournalFiles(d.store, j) && d.Failures() == old(d.Failures())
    ensures !ok && d.alive && JournalFiles(d.store, j) ==> d.Failures() < old(d.Failures())
    ensures old(d.Quiet()) ==> (ok <==> JournalFiles(d.store, j))
  {
    ok := d.Read();
    ok := ok && JournalFiles(d.store, j);
  }

  method Validate(d: Disk<Store>) returns (ok: bool)
    requires Ready(d)
    modifies d
    ensures Continues(d) && d.store == old(d.store).(checked := d.store.checked)
    ensures ok ==> d.store.checked == Some(d.store.asset)
    ensures d.Failures() == old(d.Failures()) - (if !ok && d.alive then 1 else 0)
    ensures old(d.Quiet()) ==> ok
  {
    ok := Do(d, d.store.(checked := Some(d.store.asset)));
  }

  method Apply(d: Disk<Store>) returns (ok: bool)
    requires Ready(d)
    modifies d
    ensures Continues(d) && d.store == old(d.store).(gateway := d.store.gateway)
    ensures ok ==> d.store.gateway == d.store.asset
    ensures d.Failures() == old(d.Failures()) - (if !ok && d.alive then 1 else 0)
    ensures old(d.Quiet()) ==> ok
  {
    ok := Do(d, d.store.(gateway := d.store.asset));
  }

  /** Both old files are back and the journal is gone; where it was to be applied, the gateway runs the
      old asset, and otherwise whatever it ran before. */
  ghost predicate BackToOld(s: Store, t: Store, j: Journal, apply: bool) {
    && t == s.(asset := j.oldAsset, manifest := j.oldManifest, journal := None, gateway := t.gateway)
    && t.gateway == if apply then j.oldAsset else s.gateway
  }

  /** Puts both old files back, has them applied and removes the journal. */
  method Restore(d: Disk<Store>, apply: bool) returns (ok: bool)
    requires Ready(d) && d.store.journal.Some? && d.store.journal.value.phase == RollingBack
    modifies d
    ensures Continues(d)
    ensures ok ==> BackToOld(old(d.store), d.store, old(d.store).journal.value, apply) && d.Failures() == old(d.Failures())
    ensures !ok && d.alive ==> d.Failures() < old(d.Failures())
    ensures !apply ==> d.store.gateway == old(d.store).gateway
    ensures old(d.Quiet()) ==> ok
  {
    hide Paired;
    hide ValidNginxJournal;
    var j := d.store.journal.value;
    ok := CheckJournalFiles(d, j);
    if !ok {
      return;
    }
    ok := Do(d, d.store.(asset := j.oldAsset));
    if !ok {
      return;
    }
    ok := Do(d, d.store.(manifest := j.oldManifest));
    if !ok {
      return;
    }
    if apply {
      ok := Apply(d);
      if !ok {
        return;
      }
    }
    ok := RemoveJournal(d);
  }

  /** Turns a prepared journal into a rollback. Before anything was applied, the running container
      needs no restart. */
  method Rollback(d: Disk<Store>, apply: bool)
    requires Ready(d) && d.store.journal.Some? && d.store.journal.value.phase == Prepared
    modifies d
    ensures Continues(d)
    ensures d.alive && d.Failures() == old(d.Failures()) ==>
              BackToOld(old(d.store), d.store, old(d.store).journal.value, apply)
    ensures !apply ==> d.store.gateway == old(d.store).gateway
  {
    var ok := Persist(d, RollingBack);
    if ok {
      ok := Restore(d, apply);
    }
  }

  datatype Outcome = Refreshed | RestoredOld | Failed

  /** Writes the candidate and has it validated; a failure, if it is the only one, rolls back. */
  method PublishCandidate(d: Disk<Store>, j: Journal) returns (ok: bool)
    requires Ready(d) && d.store.journal == Some(j) && j.phase == Prepared
    modifies d
    ensures Continues(d)
    ensures ok ==> d.store == old(d.store).(asset := j.newAsset, checked := Some(j.newAsset))
    ensures ok ==> d.Failures() == old(d.Failures())
    ensures !ok && d.alive ==> d.Failures() < old(d.Failures())
    ensures !ok && d.alive && old(d.Failures()) <= d.Failures() + 1 ==>
              d.store == old(d.store) || (AllOld(d.store, j) && d.store.journal.None?)
    ensures d.store.gateway == old(d.store).gateway
    ensures old(d.Quiet()) ==> ok
  {
    hide Paired;
    hide ValidNginxJournal;
    ok := CheckJournalFiles(d, j);
    if !ok {
      return;
    }
    ok := Do(d, d.store.(asset := j.newAsset));
    if !ok {
      Rollback(d, false);
      return;
    }
    ok := Validate(d);
    if !ok {
      Rollback(d, false);
      return;
    }
    // Cancellation.
    ok := d.Read();
    if !ok {
      Rollback(d, false);
    }
  }

  /** Writes the manifest and completes. A failure, if it is the only one, rolls back up to the
      application and leaves both new files after it. */
  method PublishManifest(d: Disk<Store>, j: Journal, apply: bool) returns (ok: bool)
    requires Ready(d) && d.store.journal == Some(j) && j.phase == Prepared
    requires d.store.asset == j.newAsset && d.store.checked == Some(j.newAsset)
    modifies d
    ensures Continues(d)
    ensures ok ==> AllNew(d.store, j) && d.store.journal.None? && d.store.checked == Some(j.newAsset)
    ensures ok ==> d.store.gateway == (if apply then j.newAsset else old(d.store).gateway)
    ensures ok ==> d.Failures() == old(d.Failures())
    ensures !ok && d.alive ==> d.Failures() < old(d.Failures())
    ensures !ok && d.alive && old(d.Failures()) <= d.Failures() + 1 ==>
              || d.store == old(d.store)
              || (AllOld(d.store, j) && d.store.journal.None? && d.store.gateway in {old(d.store).gateway, j.oldAsset})
              || (AllNew(d.store, j) && (apply ==> d.store.gateway == j.newAsset))
    ensures !apply ==> d.store.gateway == old(d.store).gateway
    ensures old(d.Quiet()) ==> ok
  {
    hide ValidNginxJournal;
    hide Paired;
    ok := CheckJournalFiles(d, j);
    if !ok {
      return;
    }
    ok := Do(d, d.store.(manifest := j.newManifest));
    if !ok {
      Rollback(d, false);
      return;
    }
    if apply {
      ok := Apply(d);
      if !ok {
        Rollback(d, true);
        return;
      }
    }
    ok := Complete(d);
  }

  /** Once applied, nothing is rolled back any more. */
  method Complete(d: Disk<Store>) returns (ok: bool)
    requires Ready(d) && d.store.journal.Some? && d.store.journal.value.phase == Prepared
    requires AllNew(d.store, d.store.journal.value) && d.store.checked == Some(d.store.journal.value.newAsset)
    modifies d
    ensures Continues(d) && d.store == old(d.store).(journal := d.store.journal)
    ensures ok ==> d.store.journal.None?
    ensures d.Failures() == old(d.Failures()) - (if !ok && d.alive then 1 else 0)
    ensures old(d.Quiet()) ==> ok
  {
    ok := Persist(d, Completed);
    if !ok {
      return;
    }
    ok := RemoveJournal(d);
  }

  /** Carries a journal out: back from the rollback phase, forward from the prepared one. Success
      means that nothing has failed, the validation included. */
  method ExecuteNginxJournal(d: Disk<Store>, apply: bool) returns (r: Outcome)
    requires Ready(d) && d.store.journal.Some? && d.store.journal.value.phase != Completed
    modifies d
    ensures Continues(d)
    ensures r == Refreshed ==> AllNew(d.store, old(d.store).journal.value) && d.store.journal.None?
    ensures r == Refreshed ==> d.store.checked == Some(d.store.asset) && (apply ==> d.store.gateway == d.store.asset)
    ensures r == RestoredOld ==> BackToOld(old(d.store), d.store, old(d.store).journal.value, apply)
    ensures r != Failed ==> d.Failures() == old(d.Failures())
    ensures r != Failed ==> r == (if old(d.store).journal.value.phase == Prepared then Refreshed else RestoredOld)
    ensures r == Failed && d.alive ==> d.Failures() < old(d.Failures())
    ensures r == Failed && d.alive && old(d.Failures()) <= d.Failures() + 1 && old(d.store).journal.value.phase == Prepared ==>
              var j := old(d.store).journal.value;
              d.store.journal == Some(j) || (AllOld(d.store, j) && d.store.journal.None?) || AllNew(d.store, j)
    ensures !apply ==> d.store.gateway == old(d.store).gateway
    ensures old(d.Quiet()) ==> r != Failed
  {
    hide Step;
    hide Inv;
    var j := d.store.journal.value;
    var ok: bool;
    if j.phase == RollingBack {
      ok := Restore(d, apply);
      return if ok then RestoredOld else Failed;
    }
    ok := PublishCandidate(d, j);
    if !ok {
      return Failed;
    }
    ok := PublishManifest(d, j, apply);
    return if ok then Refreshed else Failed;
  }

  /** The manifest with the hash of the candidate. */
  function UpdatedManifest(m: Manifest): Manifest {
    m.(files := m.files[NGINX_PATH := Sha256(m.plan.candidate)])
  }

  /** The run will write the candidate: for a new journal, or for one still prepared. */
  ghost predicate Executes(s: Store) {
    match s.journal
    case None => s.asset != s.manifest.plan.candidate
    case Some(j) => j.phase == Prepared
  }

  /** Refreshes the asset, or first ends what an earlier run has left. */
  method RefreshManagedNginxLocked(d: Disk<Store>, apply: bool) returns (r: Outcome)
    requires Ready(d)
    modifies d
    ensures Continues(d)
    ensures r != Failed ==> d.store.journal.None? && d.Failures() == old(d.Failures())
    ensures r == Failed && d.alive ==> d.Failures() < old(d.Failures())
    ensures r == Refreshed && Executes(old(d.store)) ==>
              d.store.checked == Some(d.store.asset) && (apply ==> d.store.gateway == d.store.asset)
    ensures r == RestoredOld && apply ==> d.store.gateway == d.store.asset
    ensures !apply ==> d.store.gateway == old(d.store).gateway
    ensures r == Refreshed ==> d.store.asset == d.store.manifest.plan.candidate
    ensures old(d.Quiet()) && old(d.store).journal.None? ==> r == Refreshed
    ensures old(d.Quiet()) && old(d.store).journal.None? ==>
              if old(d.store).asset == old(d.store).manifest.plan.candidate then d.store == old(d.store)
              else d.store.manifest == UpdatedManifest(old(d.store).manifest)
    ensures old(d.Quiet()) && old(d.store).journal.Some? ==>
              var j := old(d.store).journal.value;
              if j.phase == RollingBack then r == RestoredOld && AllOld(d.store, j)
              else r == Refreshed && AllNew(d.store, j)
  {
    var ok := d.Read();
    if !ok {
      return Failed;
    }
    if d.store.journal.Some? {
      var j := d.store.journal.value;
      ok := CheckJournalFiles(d, j);
      if !ok || !ValidNginxJournal(j, d.store.installation) {
        return Failed;
      }
      SameExceptAsset(j);
      if j.phase == Completed {
        ok := d.Read();
        if !ok || !AllNew(d.store, j) {
          return Failed;
        }
        ok := RemoveJournal(d);
        return if ok then Refreshed else Failed;
      }
      r := ExecuteNginxJournal(d, apply);
      return;
    }
    ok := d.Read();
    if !ok || !Paired(d.store) {
      return Failed;
    }
    if d.store.asset == d.store.manifest.plan.candidate {
      return Refreshed;
    }
    var j := Journal(Prepared, d.store.asset, d.store.manifest.plan.candidate, d.store.manifest, UpdatedManifest(d.store.manifest));
    assert WithoutAsset(j.newManifest) == WithoutAsset(j.oldManifest);
    SameExceptAsset(j);
    ok := Do(d, d.store.(journal := Some(j)));
    if !ok {
      return Failed;
    }
    r := ExecuteNginxJournal(d, apply);
  }

  lemma SameExceptAsset(j: Journal)
    requires WithoutAsset(j.newManifest) == WithoutAsset(j.oldManifest)
    ensures j.newManifest.plan == j.oldManifest.plan
  {
    assert WithoutAsset(j.newManifest).plan == WithoutAsset(j.oldManifest).plan;
  }

  /** Any number of runs, each failing and dying wherever its script says, and then two that nothing
      interrupts: the first ends whatever was pending, the second leaves the candidate in place, and
      throughout a store without journal has an asset and a manifest that belong together. */
  method RefreshAfterAnyRuns(d: Disk<Store>, scripts: seq<(bool, seq<Fault>)>, apply: bool)
    requires Ready(d) && 0 < |d.trace| && Inv(d.trace[0])
    modifies d
    ensures Ready(d) && old(d.trace) <= d.trace
    ensures d.store.journal.None? && d.store.asset == d.store.manifest.plan.candidate
    ensures d.store.asset !in d.store.manifest.plan.official ==>
              Recorded(d.store.manifest) == Some(Sha256(d.store.asset))
    ensures forall i :: 0 <= i < |d.trace| && d.trace[i].journal.None? ==> Paired(d.trace[i])
    ensures forall i :: 0 <= i < |d.trace| && d.trace[i].journal.Some? ==> HoldsOldOrNew(d.trace[i])
  {
    for i := 0 to |scripts|
      invariant Ready(d) && old(d.trace) <= d.trace
    {
      d.Boot(scripts[i].1);
      var _ := RefreshManagedNginxLocked(d, scripts[i].0);
    }
    d.Boot([]);
    var _ := RefreshManagedNginxLocked(d, apply);
    var _ := RefreshManagedNginxLocked(d, apply);
    forall i | 0 <= i < |d.trace| && d.trace[i].journal.None?
      ensures Paired(d.trace[i])
    {
      RunKeepsInv(d.trace, i);
    }
    forall i | 0 <= i < |d.trace| && d.trace[i].journal.Some?
      ensures HoldsOldOrNew(d.trace[i])
    {
      RunKeepsInv(d.trace, i);
    }
  }

  /** Each file is the old one of the pending change or its new one, and of either pair the files belong
      to each other. */
  ghost predicate HoldsOldOrNew(s: Store)
    requires s.journal.Some?
  {
    var j := s.journal.value;
    && s.asset in {j.oldAsset, j.newAsset} && s.manifest in {j.oldManifest, j.newManifest}
    && Paired(s.(asset := j.oldAsset, manifest := j.oldManifest))
    && Paired(s.(asset := j.newAsset, manifest := j.newManifest))
  }
}
