/** A fresh install and the recovery of an incomplete one (internal/mgsctl/install.go and
    install_files.go): state, manifest and assets are published in that order, and runtime.env last
    commits the installation. */
module FreshInstall {
  import opened Wrappers
  import opened CrashDisk

  /** A content hash: equal for equal contents only. */
  datatype Digest = Sha256(content: string)

  /** An install plan as far as deployment files go: their paths in order, and their contents. */
  datatype Plan = Plan(paths: seq<string>, content: map<string, string>)
  {
    ghost predicate Valid() {
      && (forall p :: p in content <==> p in paths)
      && forall i, k :: 0 <= i < k < |paths| ==> paths[i] != paths[k]
    }

    function Hashes(): map<string, Digest> {
      map p | p in content :: Sha256(content[p])
    }
  }

  datatype State = State(installation: string, pending: bool)

  datatype Manifest = Manifest(schema: int, installation: string, plan: Plan, files: map<string, Digest>)

  /** runtime.env, as far as its identity goes. */
  datatype RuntimeEnv = RuntimeEnv(installation: string)

  datatype Store = Store(runtime: Option<RuntimeEnv>, state: Option<State>, manifest: Option<Manifest>,
                         assets: map<string, string>)

  const EMPTY := Store(None, None, None, map[])

  /** At most one file is created, replaced or removed. */
  ghost predicate Step(s: Store, t: Store) {
    || t == s.(runtime := t.runtime) || t == s.(state := t.state) || t == s.(manifest := t.manifest)
    || exists path :: AssetStep(s, t, path)
  }

  ghost predicate AssetStep(s: Store, t: Store, path: string) {
    t == s.(assets := t.assets) && t.assets - {path} == s.assets - {path}
  }

  // ---------- the two kinds of good stores ----------

  /** The manifest accounts for every asset on disk. */
  predicate AccountsFor(m: Manifest, assets: map<string, string>) {
    && m.schema == 1 && |m.files| == |m.plan.paths|
    && forall p :: p in assets ==> p in m.plan.paths && p in m.files && m.files[p] == Sha256(assets[p])
  }

  /** What is left of an installation that was not committed, and can be removed as such. */
  predicate Recoverable(s: Store) {
    && s.runtime.None?
    && (s.state.Some? ==> s.state.value.pending)
    && (s.manifest.None? ==> s.assets == map[])
    && (s.manifest.Some? ==> AccountsFor(s.manifest.value, s.assets))
    && (s.state.Some? && s.manifest.Some? ==> s.state.value.installation == s.manifest.value.installation)
  }

  /** A committed installation: everything its manifest names is there with the recorded hash. */
  ghost predicate Full(s: Store) {
    && s.runtime.Some? && s.state.Some? && s.manifest.Some?
    && s.runtime.value.installation == s.state.value.installation == s.manifest.value.installation
    && s.manifest.value.files == s.manifest.value.plan.Hashes()
    && s.assets == s.manifest.value.plan.content
  }

  /** runtime.env is the one commit point. */
  ghost predicate Inv(s: Store) {
    if s.runtime.Some? then Full(s) else Recoverable(s)
  }

  ghost predicate Ready(d: Disk<Store>)
    reads d
  {
    d.Valid() && d.rule == Step
  }

  twostate predicate Continues(d: Disk<Store>)
    reads d
  {
    Ready(d) && d.Continued()
  }

  method Do(d: Disk<Store>, next: Store) returns (ok: bool)
    requires Ready(d) && Step(d.store, next)
    modifies d
    ensures Continues(d)
    ensures d.store == old(d.store) || (d.store == next && old(d.alive))
    ensures ok ==> d.store == next && d.alive
    ensures !ok && d.Landings() == old(d.Landings()) ==> d.store == old(d.store)
    ensures d.Failures() == old(d.Failures()) - (if !ok && d.alive then 1 else 0)
    ensures old(d.Quiet()) ==> ok
  {
    ok := d.Attempt(next);
  }

  /** The process has met two failures, or one that took effect nevertheless. */
  twostate predicate Unlucky(d: Disk<Store>)
    reads d
  {
    d.Failures() + 2 <= old(d.Failures()) || d.Landings() < old(d.Landings())
  }

  // ---------- writing one file ----------

  /** Creates a file that must not exist yet: it is linked into place, the directory is synced, and
      if that fails the link is removed again. leftover tells that it failed and the file is there
      nevertheless; in a process that goes on this takes two failures, or one that took effect. */
  method WriteNoReplace(d: Disk<Store>, occupied: bool, next: Store) returns (ok: bool, leftover: bool)
    requires Ready(d) && Step(d.store, next) && Step(next, d.store) && next != d.store
    modifies d
    ensures Continues(d)
    ensures ok ==> d.store == next && d.alive && !occupied && d.Failures() == old(d.Failures())
    ensures !ok ==> d.store == if leftover then next else old(d.store)
    ensures !ok && d.alive && !occupied ==> d.Failures() < old(d.Failures())
    ensures !ok && d.alive && leftover ==> Unlucky(d)
    ensures !ok && occupied ==> !leftover
    ensures old(d.Quiet()) ==> (ok <==> !occupied)
  {
    var previous := d.store;
    if occupied {
      return false, false;
    }
    ok := Do(d, next);
    if !ok {
      return false, d.store != previous;
    }
    var synced := d.Read();
    if synced {
      return true, false;
    }
    var _ := Do(d, previous);
    return false, d.store != previous;
  }

  // ---------- recovery of an incomplete installation ----------

  /** Removes the files in order; the first failure ends it. */
  method RemoveAssets(d: Disk<Store>, paths: seq<string>) returns (ok: bool)
    requires Ready(d)
    modifies d
    ensures Continues(d) && d.store == old(d.store).(assets := d.store.assets)
    ensures forall p :: p in d.store.assets ==> p in old(d.store).assets && d.store.assets[p] == old(d.store).assets[p]
    ensures forall p :: p in old(d.store).assets && p !in paths ==> p in d.store.assets
    ensures ok ==> forall p :: p in paths ==> p !in d.store.assets
    ensures d.Accounts(ok)
    ensures old(d.Quiet()) ==> ok
  {
    for i := 0 to |paths|
      invariant Continues(d) && d.store == old(d.store).(assets := d.store.assets)
      invariant forall p :: p in d.store.assets ==> p in old(d.store).assets && d.store.assets[p] == old(d.store).assets[p]
      invariant forall p :: p in old(d.store).assets && p !in paths ==> p in d.store.assets
      invariant forall k :: 0 <= k < i ==> paths[k] !in d.store.assets
      invariant d.Failures() == old(d.Failures())
    {
      var next := d.store.(assets := d.store.assets - {paths[i]});
      assert AssetStep(d.store, next, paths[i]);
      ok := Do(d, next);
      if !ok {
        return;
      }
    }
    ok := true;
  }

  /** The published files of a manifest, each with the recorded hash. */
  method FindPublished(d: Disk<Store>, m: Manifest) returns (ok: bool, partial: seq<string>)
    requires Ready(d)
    modifies d
    ensures Continues(d) && d.store == old(d.store)
    ensures forall p :: p in partial ==> p in m.plan.paths && p in d.store.assets
    ensures ok ==> forall p :: p in m.plan.paths && p in d.store.assets ==>
              p in partial && p in m.files && m.files[p] == Sha256(d.store.assets[p])
    ensures ok ==> d.Failures() == old(d.Failures())
    ensures !ok && d.alive && d.Failures() == old(d.Failures()) ==>
              exists p :: (p in m.plan.paths && p in d.store.assets) && !(p in m.files && m.files[p] == Sha256(d.store.assets[p]))
    ensures old(d.Quiet()) && !ok ==>
              exists p :: (p in m.plan.paths && p in d.store.assets) && !(p in m.files && m.files[p] == Sha256(d.store.assets[p]))
  {
    hide Step;
    partial := [];
    for i := 0 to |m.plan.paths|
      invariant Continues(d) && d.store == old(d.store)
      invariant d.Failures() == old(d.Failures())
      invariant forall p :: p in partial ==> p in m.plan.paths && p in d.store.assets
      invariant forall k :: 0 <= k < i && m.plan.paths[k] in d.store.assets ==>
                  && m.plan.paths[k] in m.files && m.files[m.plan.paths[k]] == Sha256(d.store.assets[m.plan.paths[k]])
                  && m.plan.paths[k] in partial
    {
      var path := m.plan.paths[i];
      ok := d.Read();
      if !ok {
        return;
      }
      if path in d.store.assets {
        if path !in m.files || m.files[path] != Sha256(d.store.assets[path]) {
          return false, partial;
        }
        partial := partial + [path];
      }
    }
    ok := true;
  }

  /** Removes what an uncommitted installation has left, or refuses. It leaves nothing behind exactly
      when what it finds is recoverable, and a crash or failure inside it keeps that so. */
  method RecoverIncompleteInstall(d: Disk<Store>) returns (ok: bool)
    requires Ready(d)
    modifies d
    ensures Continues(d)
    ensures old(d.store).runtime.Some? ==> d.store == old(d.store)
    ensures Recoverable(old(d.store)) ==> Recoverable(d.store)
    ensures ok && old(d.store).runtime.None? && Recoverable(old(d.store)) ==> d.store == EMPTY
    ensures ok ==> d.Failures() == old(d.Failures())
    ensures !ok && d.alive && Inv(old(d.store)) ==> d.Failures() < old(d.Failures())
    ensures old(d.Quiet()) && old(d.store).runtime.None? ==>
              (ok && d.store == EMPTY <==> Recoverable(old(d.store)))
    ensures old(d.Quiet()) && old(d.store).runtime.Some? ==> ok
  {
    hide Step;
    ok := d.Read();
    if !ok || d.store.runtime.Some? {
      return;
    }
    if d.store.state.None? && d.store.manifest.None? {
      return;
    }
    if d.store.state.Some? && !d.store.state.value.pending {
      return false;
    }
    if d.store.state.Some? && d.store.manifest.Some? && d.store.state.value.installation != d.store.manifest.value.installation {
      return false;
    }
    if d.store.manifest.Some? {
      var m := d.store.manifest.value;
      if m.schema != 1 || |m.files| != |m.plan.paths| {
        return false;
      }
      var partial: seq<string>;
      ok, partial := FindPublished(d, m);
      if !ok {
        return;
      }
      ok := RemoveAssets(d, partial);
      if !ok {
        return;
      }
      assert d.store.assets == map[] <==> forall p :: p in old(d.store).assets ==> p in partial;
    }
    ok := RemoveRecords(d);
  }

  /** Manifest and state go last, in this order. */
  method RemoveRecords(d: Disk<Store>) returns (ok: bool)
    requires Ready(d)
    modifies d
    ensures Continues(d)
    ensures d.store == old(d.store) || d.store == old(d.store).(manifest := None)
         || d.store == old(d.store).(manifest := None, state := None)
    ensures ok ==> d.store == old(d.store).(manifest := None, state := None)
    ensures d.Accounts(ok)
    ensures old(d.Quiet()) ==> ok
  {
    ok := Do(d, d.store.(manifest := None));
    if !ok {
      return;
    }
    ok := Do(d, d.store.(state := None));
  }

  // ---------- rollback in the process ----------

  datatype Target = AssetAt(path: string) | ManifestFile | StateFile

  function Without(s: Store, t: Target): Store {
    match t
    case AssetAt(path) => s.(assets := s.assets - {path})
    case ManifestFile => s.(manifest := None)
    case StateFile => s.(state := None)
  }

  /** What a rollback leaves when each of its removals has or has not taken effect. */
  function AfterRollback(s: Store, targets: seq<Target>, worked: seq<bool>): Store
    requires |worked| == |targets|
    decreases |targets|
  {
    if targets == [] then s
    else AfterRollback(if worked[0] then Without(s, targets[0]) else s, targets[1..], worked[1..])
  }

  lemma {:induction false} OneMoreRemoval(s: Store, targets: seq<Target>, worked: seq<bool>, t: Target, w: bool)
    requires |worked| == |targets|
    ensures AfterRollback(s, targets + [t], worked + [w]) ==
            var r := AfterRollback(s, targets, worked); if w then Without(r, t) else r
    decreases |targets|
  {
    if targets == [] {
      assert targets + [t] == [t] && worked + [w] == [w];
    } else {
      assert (targets + [t])[1..] == targets[1..] + [t] && (worked + [w])[1..] == worked[1..] + [w];
      OneMoreRemoval(if worked[0] then Without(s, targets[0]) else s, targets[1..], worked[1..], t, w);
    }
  }

  /** How many removals had no effect. */
  ghost function Ineffective(worked: seq<bool>): nat {
    |Failures(worked)|
  }

  ghost function Failures(worked: seq<bool>): set<nat> {
    set i | 0 <= i < |worked| && !worked[i]
  }

  lemma OneMoreOutcome(worked: seq<bool>, w: bool)
    ensures Ineffective(worked + [w]) == Ineffective(worked) + (if w then 0 else 1)
  {
    assert Failures(worked + [w]) == Failures(worked) + (if w then {} else {|worked|});
  }

  /** Removes what was published, going on past failures. failed tells exactly that a removal failed in
      a process that lived; without one, the removals that took effect are the first ones. */
  method RollbackInstallArtifacts(d: Disk<Store>, published: seq<Target>) returns (failed: bool, worked: seq<bool>)
    requires Ready(d)
    modifies d
    ensures Continues(d)
    ensures |worked| == |published| && d.store == AfterRollback(old(d.store), published, worked)
    ensures failed <==> d.Failures() < old(d.Failures())
    ensures d.alive ==> Ineffective(worked) <= old(d.Failures()) - d.Failures()
    ensures !failed ==> forall i, k :: 0 <= i < k < |worked| && worked[k] ==> worked[i]
    ensures !failed && d.alive ==> forall i :: 0 <= i < |worked| ==> worked[i]
    ensures !old(d.alive) ==> !failed && forall i :: 0 <= i < |worked| ==> !worked[i]
    ensures old(d.Quiet()) ==> !failed && forall i :: 0 <= i < |worked| ==> worked[i]
  {
    failed, worked := false, [];
    for i := 0 to |published|
      invariant Continues(d) && |worked| == i
      invariant d.store == AfterRollback(old(d.store), published[..i], worked)
      invariant !failed ==> forall i, k :: 0 <= i < k < |worked| && worked[k] ==> worked[i]
      invariant !failed && d.alive ==> forall k :: 0 <= k < |worked| ==> worked[k]
      invariant failed <==> d.Failures() < old(d.Failures())
      invariant d.alive ==> Ineffective(worked) <= old(d.Failures()) - d.Failures()
      invariant !old(d.alive) ==> !failed && forall k :: 0 <= k < |worked| ==> !worked[k]
      invariant old(d.Quiet()) ==> !failed && forall k :: 0 <= k < |worked| ==> worked[k]
    {
      var before, next := d.store, Without(d.store, published[i]);
      if published[i].AssetAt? {
        assert AssetStep(d.store, next, published[i].path);
      }
      var removed := Do(d, next);
      failed := failed || (!removed && d.alive);
      var effect := removed || (d.store == next && before != next);
      OneMoreRemoval(old(d.store), published[..i], worked, published[i], effect);
      assert published[..i + 1] == published[..i] + [published[i]];
      OneMoreOutcome(worked, effect);
      worked := worked + [effect];
    }
    assert published[..|published|] == published;
  }

  // ---------- installing ----------

  /** What a publication that failed has taken back: it had published n assets, and, if stayed, the file
      whose write failed; worked tells which removals took effect. */
  datatype Undone = Undone(n: nat, stayed: bool, worked: seq<bool>)

  datatype Outcome = Installed | Existing | Failed | TakenBack(undone: Undone)

  /** The assets of the first n files of a plan. */
  function FirstAssets(plan: Plan, n: nat): map<string, string>
    requires n <= |plan.paths| && forall p :: p in plan.paths ==> p in plan.content
  {
    map p | p in plan.paths[..n] :: plan.content[p]
  }

  /** What has been published of an installation with the first n assets. */
  function PublishedSoFar(id: string, plan: Plan, n: nat): Store
    requires n <= |plan.paths| && forall p :: p in plan.paths ==> p in plan.content
  {
    Store(None, Some(State(id, true)), Some(Manifest(1, id, plan, plan.Hashes())), FirstAssets(plan, n))
  }

  /** The rollback list after n assets: newest asset first, then manifest and state. */
  function RollbackList(plan: Plan, n: nat): seq<Target>
    requires n <= |plan.paths|
  {
    AssetTargets(plan, n) + [ManifestFile, StateFile]
  }

  function AssetTargets(plan: Plan, n: nat): seq<Target>
    requires n <= |plan.paths|
  {
    seq(n, i requires 0 <= i < n => AssetAt(plan.paths[n - 1 - i]))
  }

  /** Removing assets leaves those whose removal had no effect. */
  lemma {:induction false} AssetsAfterRollback(s: Store, targets: seq<Target>, worked: seq<bool>)
    requires |worked| == |targets| && forall i :: 0 <= i < |targets| ==> targets[i].AssetAt?
    ensures var r := AfterRollback(s, targets, worked);
            && r == s.(assets := r.assets)
            && forall p :: p in r.assets <==>
                 p in s.assets && forall i :: 0 <= i < |targets| && targets[i] == AssetAt(p) ==> !worked[i]
    ensures var r := AfterRollback(s, targets, worked);
            forall p :: p in r.assets ==> r.assets[p] == s.assets[p]
    decreases |targets|
  {
    if targets != [] {
      var next := if worked[0] then Without(s, targets[0]) else s;
      AssetsAfterRollback(next, targets[1..], worked[1..]);
      assert targets == [targets[0]] + targets[1..] && worked == [worked[0]] + worked[1..];
    }
  }

  /** An asset among the first n is gone exactly if its removal took effect. */
  ghost predicate Stays(plan: Plan, n: nat, worked: seq<bool>, p: string)
    requires n <= |plan.paths| && n <= |worked|
  {
    forall i :: 0 <= i < n && AssetTargets(plan, n)[i] == AssetAt(p) ==> !worked[i]
  }

  /** What a rollback of n assets, manifest and state leaves of each. */
  lemma RollbackShape(s: Store, plan: Plan, n: nat, worked: seq<bool>) returns (assets: map<string, string>)
    requires n <= |plan.paths| && |worked| == n + 2
    ensures AfterRollback(s, RollbackList(plan, n), worked) ==
              Store(s.runtime, if worked[n + 1] then None else s.state, if worked[n] then None else s.manifest, assets)
    ensures forall p :: p in assets <==> p in s.assets && Stays(plan, n, worked, p)
    ensures forall p :: p in assets ==> assets[p] == s.assets[p]
  {
    var list := AssetTargets(plan, n);
    AssetsAfterRollback(s, list, worked[..n]);
    assets := AfterRollback(s, list, worked[..n]).assets;
    assert worked[..n] + [worked[n], worked[n + 1]] == worked;
    TwoMoreRemovals(s, list, worked[..n], worked[n], worked[n + 1]);
  }

  lemma TwoMoreRemovals(s: Store, targets: seq<Target>, worked: seq<bool>, v: bool, w: bool)
    requires |worked| == |targets|
    ensures AfterRollback(s, targets + [ManifestFile, StateFile], worked + [v, w]) ==
            var r := AfterRollback(s, targets, worked);
            r.(manifest := if v then None else r.manifest, state := if w then None else r.state)
  {
    OneMoreRemoval(s, targets, worked, ManifestFile, v);
    OneMoreRemoval(s, targets + [ManifestFile], worked + [v], StateFile, w);
    assert targets + [ManifestFile] + [StateFile] == targets + [ManifestFile, StateFile];
    assert worked + [v] + [w] == worked + [v, w];
  }

  /** After a rollback of n assets, manifest and state, what remains can be recovered exactly when no
      removal of an asset was without effect, or the removal of the manifest was. */
  lemma RollbackRecoverable(id: string, plan: Plan, n: nat, worked: seq<bool>)
    requires plan.Valid() && n <= |plan.paths| && |worked| == n + 2
    ensures Recoverable(AfterRollback(PublishedSoFar(id, plan, n), RollbackList(plan, n), worked))
       <==> (forall i :: 0 <= i < n ==> worked[i]) || !worked[n]
  {
    var s := PublishedSoFar(id, plan, n);
    var assets := RollbackShape(s, plan, n, worked);
    RemainingAssets(plan, n, worked, assets);
    PublishedIsRecoverable(id, plan, n);
    hide AfterRollback;
    hide RollbackList;
    PartIsRecoverable(s, assets, worked[n], worked[n + 1]);
  }

  /** If one more asset has been published that the rollback does not list, what remains can be
      recovered exactly when the removal of the manifest was without effect. */
  lemma StrayAssetRecoverable(id: string, plan: Plan, n: nat, worked: seq<bool>)
    requires plan.Valid() && n < |plan.paths| && |worked| == n + 2
    ensures Recoverable(AfterRollback(PublishedSoFar(id, plan, n + 1), RollbackList(plan, n), worked)) <==> !worked[n]
  {
    var s := PublishedSoFar(id, plan, n + 1);
    var assets := RollbackShape(s, plan, n, worked);
    NextAsset(plan, n);
    LaterAssetStays(plan, n, worked);
    assert plan.paths[n] in assets;
    PublishedIsRecoverable(id, plan, n + 1);
    hide *;
    PartIsRecoverable(s, assets, worked[n], worked[n + 1]);
  }

  lemma LaterAssetStays(plan: Plan, n: nat, worked: seq<bool>)
    requires plan.Valid() && n < |plan.paths| && n <= |worked|
    ensures Stays(plan, n, worked, plan.paths[n])
  {
    forall i | 0 <= i < n
      ensures AssetTargets(plan, n)[i] != AssetAt(plan.paths[n])
    {
      assert plan.paths[n - 1 - i] != plan.paths[n];
    }
  }

  /** If runtime.env has been published, the installation is whole exactly when no removal of the
      rollback took effect. */
  lemma StrayRuntimeFull(id: string, plan: Plan, worked: seq<bool>)
    requires plan.Valid() && |worked| == |plan.paths| + 2
    ensures var n := |plan.paths|;
            Full(AfterRollback(Committed(id, plan), RollbackList(plan, n), worked)) <==>
            forall i :: 0 <= i < n + 2 ==> !worked[i]
  {
    var n := |plan.paths|;
    var assets := RollbackShape(Committed(id, plan), plan, n, worked);
    hide AfterRollback;
    hide RollbackList;
    if i :| 0 <= i < n && worked[i] {
      RemovedAsset(plan, i, worked);
    } else {
      assert forall p :: Stays(plan, n, worked, p);
      assert assets == plan.content;
    }
  }

  lemma RemovedAsset(plan: Plan, i: nat, worked: seq<bool>)
    requires plan.Valid() && i < |plan.paths| <= |worked| && worked[i]
    ensures exists p :: p in plan.content && !Stays(plan, |plan.paths|, worked, p)
  {
    var p := plan.paths[|plan.paths| - 1 - i];
    assert AssetTargets(plan, |plan.paths|)[i] == AssetAt(p);
    assert p in plan.content && !Stays(plan, |plan.paths|, worked, p);
  }

  /** Everything published, runtime.env included. */
  function Committed(id: string, plan: Plan): Store {
    Store(Some(RuntimeEnv(id)), Some(State(id, true)), Some(Manifest(1, id, plan, plan.Hashes())), plan.content)
  }

  /** Some assets of a recoverable installation, with or without its manifest and state. */
  lemma PartIsRecoverable(s: Store, assets: map<string, string>, manifestGone: bool, stateGone: bool)
    requires Recoverable(s) && s.manifest.Some?
    requires forall p :: p in assets ==> p in s.assets && assets[p] == s.assets[p]
    ensures Recoverable(Store(None, if stateGone then None else s.state, if manifestGone then None else s.manifest, assets))
       <==> assets == map[] || !manifestGone
  {
  }

  lemma RemainingAssets(plan: Plan, n: nat, worked: seq<bool>, assets: map<string, string>)
    requires plan.Valid() && n <= |plan.paths| && |worked| == n + 2
    requires forall p :: p in assets <==> p in FirstAssets(plan, n) && Stays(plan, n, worked, p)
    ensures assets == map[] <==> forall i :: 0 <= i < n ==> worked[i]
  {
    if i :| 0 <= i < n && !worked[i] {
      var p := plan.paths[n - 1 - i];
      assert p in plan.paths[..n];
      forall k | 0 <= k < n && AssetTargets(plan, n)[k] == AssetAt(p)
        ensures k == i
      {
        assert plan.paths[n - 1 - k] == p;
      }
      assert p in assets;
    } else {
      forall p
        ensures p !in assets
      {
        if p in FirstAssets(plan, n) {
          var m :| 0 <= m < n && plan.paths[m] == p;
          assert AssetTargets(plan, n)[n - 1 - m] == AssetAt(p);
        }
      }
    }
  }

  /** One asset whose removal fails while the next two work: recovery calls the rest of the
      installation gone and never removes the asset. */
  lemma FailedRemovalStrandsAsset(id: string, path: string, content: string)
    ensures var plan := Plan([path], map[path := content]);
            var rest := AfterRollback(PublishedSoFar(id, plan, 1), RollbackList(plan, 1), [false, true, true]);
            !Recoverable(rest) && rest.manifest.None? && rest.state.None? && rest.assets == map[path := content]
  {
    var plan := Plan([path], map[path := content]);
    RollbackRecoverable(id, plan, 1, [false, true, true]);
    var assets := RollbackShape(PublishedSoFar(id, plan, 1), plan, 1, [false, true, true]);
    assert path in FirstAssets(plan, 1);
    assert Stays(plan, 1, [false, true, true], path);
  }

  lemma NextAsset(plan: Plan, n: nat)
    requires plan.Valid() && n < |plan.paths|
    ensures plan.paths[n] !in FirstAssets(plan, n)
    ensures FirstAssets(plan, n + 1) == FirstAssets(plan, n)[plan.paths[n] := plan.content[plan.paths[n]]]
  {
    assert plan.paths[..n + 1] == plan.paths[..n] + [plan.paths[n]];
  }

  lemma AllAssets(plan: Plan)
    requires plan.Valid()
    ensures FirstAssets(plan, 0) == map[] && FirstAssets(plan, |plan.paths|) == plan.content
  {
    assert plan.paths[..|plan.paths|] == plan.paths;
  }

  lemma PublishedIsRecoverable(id: string, plan: Plan, n: nat)
    requires plan.Valid() && n <= |plan.paths|
    ensures Recoverable(PublishedSoFar(id, plan, n))
  {
    PathCount(plan);
    assert plan.Hashes().Keys == plan.content.Keys;
  }

  lemma PathCount(plan: Plan)
    requires plan.Valid()
    ensures |plan.Hashes()| == |plan.paths|
  {
    DistinctCount(plan.paths, plan.Hashes().Keys);
  }

  lemma {:induction false} DistinctCount(s: seq<string>, keys: set<string>)
    requires forall p :: p in keys <==> p in s
    requires forall i, k :: 0 <= i < k < |s| ==> s[i] != s[k]
    ensures |keys| == |s|
  {
    if s == [] {
      assert keys == {};
    } else {
      var last := s[|s| - 1];
      DistinctCount(s[..|s| - 1], keys - {last});
    }
  }

  /** What is on disk when publishing has failed after n assets: these, and, if the failed write stayed
      behind, the file it wrote. */
  function FailureStore(id: string, plan: Plan, n: nat, stayed: bool): Store
    requires n <= |plan.paths| && forall p :: p in plan.paths ==> p in plan.content
  {
    if !stayed then PublishedSoFar(id, plan, n)
    else if n < |plan.paths| then PublishedSoFar(id, plan, n + 1)
    else Committed(id, plan)
  }

  predicate Fits(u: Undone, plan: Plan) {
    u.n <= |plan.paths| && |u.worked| == u.n + 2
  }

  /** The store is what the removals that took effect have left. */
  ghost predicate Leaves(s: Store, id: string, plan: Plan, u: Undone) {
    && plan.Valid() && Fits(u, plan)
    && s == AfterRollback(FailureStore(id, plan, u.n, u.stayed), RollbackList(plan, u.n), u.worked)
  }

  /** The run has been at the store that was taken back. */
  ghost predicate Passed(trace: seq<Store>, start: nat, id: string, plan: Plan, u: Undone) {
    plan.Valid() && Fits(u, plan) && exists k :: start <= k < |trace| && trace[k] == FailureStore(id, plan, u.n, u.stayed)
  }

  /** The run has been at the store that was taken back, and at the one that this has left. */
  ghost predicate Seen(trace: seq<Store>, id: string, plan: Plan, u: Undone) {
    Passed(trace, 0, id, plan, u) && exists k :: 0 <= k < |trace| && Leaves(trace[k], id, plan, u)
  }

  /** Whether the outcomes of the removals strand what is left. */
  predicate Stranded(u: Undone, plan: Plan)
    requires Fits(u, plan)
  {
    if !u.stayed then (exists i :: 0 <= i < u.n && !u.worked[i]) && u.worked[u.n]
    else if u.n < |plan.paths| then u.worked[u.n]
    else exists i :: 0 <= i < u.n + 2 && u.worked[i]
  }

  /** The outcome reports a rollback that strands something. */
  predicate Strands(r: Outcome, plan: Plan) {
    r.TakenBack? && Fits(r.undone, plan) && Stranded(r.undone, plan)
  }

  lemma StrandedDecides(s: Store, id: string, plan: Plan, u: Undone)
    requires Leaves(s, id, plan, u)
    ensures Inv(s) <==> !Stranded(u, plan)
  {
    var n := u.n;
    var assets := RollbackShape(FailureStore(id, plan, n, u.stayed), plan, n, u.worked);
    hide AfterRollback;
    hide RollbackList;
    hide Recoverable;
    hide Full;
    if !u.stayed {
      RollbackRecoverable(id, plan, n, u.worked);
    } else if n < |plan.paths| {
      StrayAssetRecoverable(id, plan, n, u.worked);
    } else {
      StrayRuntimeFull(id, plan, u.worked);
    }
  }

  /** Where every removal works, nothing is left. */
  lemma AllRemoved(id: string, plan: Plan, u: Undone)
    requires plan.Valid() && Fits(u, plan) && !u.stayed && forall i :: 0 <= i < |u.worked| ==> u.worked[i]
    ensures AfterRollback(FailureStore(id, plan, u.n, false), RollbackList(plan, u.n), u.worked) == EMPTY
  {
    var assets := RollbackShape(PublishedSoFar(id, plan, u.n), plan, u.n, u.worked);
    RemainingAssets(plan, u.n, u.worked, assets);
  }

  /** Undoes a failed publication after n assets. Only in a process that goes on, and there only after
      a write that stayed or a removal that failed, can it strand anything. */
  method Undo(d: Disk<Store>, id: string, plan: Plan, n: nat, stayed: bool) returns (u: Undone)
    requires Ready(d) && plan.Valid() && n <= |plan.paths| && d.store == FailureStore(id, plan, n, stayed)
    modifies d
    ensures Continues(d)
    ensures u.n == n && u.stayed == stayed && Leaves(d.store, id, plan, u)
    ensures Inv(d.store) <==> !Stranded(u, plan)
    ensures d.alive && d.Failures() == old(d.Failures()) ==> forall i :: 0 <= i < |u.worked| ==> u.worked[i]
    ensures d.alive && d.Failures() == old(d.Failures()) && !stayed ==> d.store == EMPTY
    ensures Stranded(u, plan) ==> old(d.alive) && (stayed || d.Failures() < old(d.Failures()))
  {
    hide Inv;
    hide FailureStore;
    var failed, worked := RollbackInstallArtifacts(d, RollbackList(plan, n));
    u := Undone(n, stayed, worked);
    StrandedDecides(d.store, id, plan, u);
    if !stayed && forall i :: 0 <= i < |u.worked| ==> u.worked[i] {
      AllRemoved(id, plan, u);
    }
  }

  /** Publishes asset number i. */
  method PublishAsset(d: Disk<Store>, id: string, plan: Plan, i: nat) returns (ok: bool, u: Undone)
    requires Ready(d) && plan.Valid() && d.alive && i < |plan.paths| && d.store == PublishedSoFar(id, plan, i)
    modifies d
    ensures Continues(d)
    ensures ok ==> d.alive && d.store == PublishedSoFar(id, plan, i + 1)
    ensures !ok ==> u.n == i && Leaves(d.store, id, plan, u) && Passed(d.trace, |old(d.trace)| - 1, id, plan, u)
    ensures !ok ==> (Inv(d.store) <==> !Stranded(u, plan))
    ensures !ok && Stranded(u, plan) ==> Unlucky(d)
    ensures !ok && d.OneFailure() && d.Landings() == old(d.Landings()) ==> d.store == EMPTY
    ensures d.Accounts(ok)
    ensures old(d.Quiet()) ==> ok
  {
    var path := plan.paths[i];
    NextAsset(plan, i);
    var next := d.store.(assets := d.store.assets[path := plan.content[path]]);
    assert next == PublishedSoFar(id, plan, i + 1);
    assert AssetStep(d.store, next, path) && AssetStep(next, d.store, path);
    assert Step(d.store, next) && Step(next, d.store);
    hide FirstAssets;
    hide Step;
    hide Inv;
    var stayed;
    u := Undone(0, false, []);
    ok, stayed := WriteNoReplace(d, path in d.store.assets, next);
    if !ok {
      ghost var k := |d.trace| - 1;
      u := Undo(d, id, plan, i, stayed);
      assert d.trace[k] == FailureStore(id, plan, i, stayed);
    }
  }

  /** Publishes the assets in order. */
  method PublishAssets(d: Disk<Store>, id: string, plan: Plan) returns (ok: bool, u: Undone)
    requires Ready(d) && plan.Valid() && d.alive && d.store == PublishedSoFar(id, plan, 0)
    modifies d
    ensures Continues(d)
    ensures ok ==> d.alive && d.store == PublishedSoFar(id, plan, |plan.paths|)
    ensures !ok ==> u.n < |plan.paths|
    ensures !ok ==> Leaves(d.store, id, plan, u) && Passed(d.trace, |old(d.trace)| - 1, id, plan, u)
    ensures !ok ==> (Inv(d.store) <==> !Stranded(u, plan))
    ensures !ok && Stranded(u, plan) ==> Unlucky(d)
    ensures !ok && d.OneFailure() && d.Landings() == old(d.Landings()) ==> d.store == EMPTY
    ensures d.Accounts(ok)
    ensures old(d.Quiet()) ==> ok
  {
    hide Inv;
    hide Leaves;
    u := Undone(0, false, []);
    for i := 0 to |plan.paths|
      invariant Continues(d) && d.alive && d.store == PublishedSoFar(id, plan, i)
      invariant d.Failures() == old(d.Failures())
    {
      ok, u := PublishAsset(d, id, plan, i);
      if !ok {
        return;
      }
    }
    ok := true;
  }

  /** The commit point: runtime.env is written last. */
  method PublishRuntime(d: Disk<Store>, id: string, plan: Plan) returns (ok: bool, u: Undone)
    requires Ready(d) && plan.Valid() && d.alive && d.store == PublishedSoFar(id, plan, |plan.paths|)
    modifies d
    ensures Continues(d)
    ensures ok ==> d.store == Committed(id, plan)
    ensures !ok ==> u.n == |plan.paths|
    ensures !ok ==> Leaves(d.store, id, plan, u) && Passed(d.trace, |old(d.trace)| - 1, id, plan, u)
    ensures !ok ==> (Inv(d.store) <==> !Stranded(u, plan))
    ensures !ok && Stranded(u, plan) ==> Unlucky(d)
    ensures !ok && d.OneFailure() && d.Landings() == old(d.Landings()) ==> d.store == EMPTY
    ensures d.Accounts(ok)
    ensures old(d.Quiet()) ==> ok
  {
    hide Inv;
    AllAssets(plan);
    u := Undone(0, false, []);
    var stayed;
    ok, stayed := WriteNoReplace(d, d.store.runtime.Some?, d.store.(runtime := Some(RuntimeEnv(id))));
    if !ok {
      ghost var k := |d.trace| - 1;
      u := Undo(d, id, plan, |plan.paths|, stayed);
      assert d.trace[k] == FailureStore(id, plan, |plan.paths|, stayed);
    }
  }

  /** A fresh installation under a new identity, after recovering an incomplete one. Wherever the
      process is killed, and also if one operation fails without effect and is taken back, runtime.env
      decides: without it the next recovery leaves nothing, with it the installation is whole. After
      more failures it depends on what has been taken back: an asset may outlive the manifest, or
      runtime.env one of the others. */
  method ExecuteInstall(d: Disk<Store>, id: string, plan: Plan) returns (r: Outcome)
    requires Ready(d) && Inv(d.store) && plan.Valid()
    modifies d
    ensures Continues(d)
    ensures old(d.Failures()) <= 1 && old(d.Landings()) == 0 ==> Inv(d.store)
    ensures Inv(d.store) <==> !Strands(r, plan)
    ensures Strands(r, plan) ==> Unlucky(d)
    ensures r.TakenBack? ==>
              Leaves(d.store, id, plan, r.undone) && Passed(d.trace, |old(d.trace)| - 1, id, plan, r.undone)
    ensures r.TakenBack? && d.OneFailure() && d.Landings() == old(d.Landings()) ==> d.store == EMPTY
    ensures r == Installed || r == Existing ==> d.Failures() == old(d.Failures())
    ensures r != Installed && r != Existing && d.alive ==> d.Failures() < old(d.Failures())
    ensures r == Installed ==> d.store == Committed(id, plan)
    ensures r == Existing ==> d.store == old(d.store) && Full(d.store)
    ensures old(d.Quiet()) ==> r == (if old(d.store).runtime.Some? then Existing else Installed)
  {
    hide Step;
    hide Leaves;
    var ok := RecoverIncompleteInstall(d);
    if !ok {
      return Failed;
    }
    if d.store != EMPTY {
      return Existing;
    }
    AllAssets(plan);
    ok := PublishRecords(d, id, plan);
    if !ok {
      return Failed;
    }
    r := PublishPlan(d, id, plan);
  }

  /** The assets, and then the commit point. */
  method PublishPlan(d: Disk<Store>, id: string, plan: Plan) returns (r: Outcome)
    requires Ready(d) && plan.Valid() && d.alive && d.store == PublishedSoFar(id, plan, 0)
    modifies d
    ensures Continues(d)
    ensures r == Installed || r.TakenBack?
    ensures r == Installed ==> d.store == Committed(id, plan) && Inv(d.store)
    ensures r.TakenBack? ==>
              Leaves(d.store, id, plan, r.undone) && Passed(d.trace, |old(d.trace)| - 1, id, plan, r.undone)
    ensures Inv(d.store) <==> !Strands(r, plan)
    ensures r.TakenBack? && d.OneFailure() && d.Landings() == old(d.Landings()) ==> d.store == EMPTY
    ensures d.Accounts(r == Installed)
    ensures Strands(r, plan) ==> Unlucky(d)
    ensures old(d.Quiet()) ==> r == Installed
  {
    hide Leaves;
    hide Stranded;
    hide Step;
    CommittedIsFull(id, plan);
    var ok, u := PublishAssets(d, id, plan);
    if !ok {
      return TakenBack(u);
    }
    ok, u := PublishRuntime(d, id, plan);
    return if ok then Installed else TakenBack(u);
  }

  lemma CommittedIsFull(id: string, plan: Plan)
    ensures Full(Committed(id, plan))
  {
  }

  /** The install state and the manifest. Whatever fails here, the rest is recoverable. */
  method PublishRecords(d: Disk<Store>, id: string, plan: Plan) returns (ok: bool)
    requires Ready(d) && plan.Valid() && d.store == EMPTY
    modifies d
    ensures Continues(d) && Recoverable(d.store)
    ensures ok ==> d.alive && d.store == PublishedSoFar(id, plan, 0)
    ensures !ok && d.OneFailure() && d.Landings() == old(d.Landings()) ==> d.store == EMPTY
    ensures d.Accounts(ok)
    ensures old(d.Quiet()) ==> ok
  {
    AllAssets(plan);
    var s0 := d.store.(state := Some(State(id, true)));
    var stayed;
    ok, stayed := WriteNoReplace(d, d.store.state.Some?, s0);
    if !ok {
      return;
    }
    PublishedIsRecoverable(id, plan, 0);
    var s1 := d.store.(manifest := Some(Manifest(1, id, plan, plan.Hashes())));
    ok, stayed := WriteNoReplace(d, d.store.manifest.Some?, s1);
    if !ok {
      ghost var before := d.store;
      var _, worked := RollbackInstallArtifacts(d, [StateFile]);
      assert AfterRollback(before, [StateFile], worked) == (if worked[0] then Without(before, StateFile) else before);
    }
  }

  // ---------- whole runs ----------

  /** The process may be killed anywhere, and at most one of its operations fails, without effect. */
  predicate Gentle(script: seq<Fault>) {
    FailuresIn(script) <= 1 && LandingsIn(script) == 0
  }

  /** A process that is merely killed is a case of this. */
  lemma KilledIsGentle(script: seq<Fault>)
    requires forall i :: 0 <= i < |script| ==> script[i] == Works || script[i] == Dies
    ensures Gentle(script)
  {
    KillsOnly(script);
  }

  /** Any number of installations of any plans, one after the other until one strands a file, and one
      more that nothing interrupts: it ends with a whole installation exactly if none did. None does
      whose process is only killed, wherever that is, or meets no more than one failure. */
  method InstallAfterAnyRuns(d: Disk<Store>, runs: seq<(string, Plan, seq<Fault>)>, id: string, plan: Plan)
    returns (outcomes: seq<Outcome>)
    requires Ready(d) && Inv(d.store) && plan.Valid() && forall i :: 0 <= i < |runs| ==> runs[i].1.Valid()
    modifies d
    ensures (forall i :: 0 <= i < |runs| ==> Gentle(runs[i].2)) ==> Full(d.store)
    ensures |outcomes| <= |runs|
    ensures forall i :: 0 <= i < |outcomes| && Strands(outcomes[i], runs[i].1) ==> !Gentle(runs[i].2)
    ensures Inv(d.store) <==> forall i :: 0 <= i < |outcomes| ==> !Strands(outcomes[i], runs[i].1)
    ensures Inv(d.store) ==> Full(d.store) && |outcomes| == |runs|
    ensures old(d.trace) <= d.trace
    ensures forall i :: 0 <= i < |outcomes| && outcomes[i].TakenBack? ==> Seen(d.trace, runs[i].0, runs[i].1, outcomes[i].undone)
  {
    hide Inv;
    hide Stranded;
    hide Full;
    hide Leaves;
    outcomes := [];
    for i := 0 to |runs|
      invariant Ready(d) && Inv(d.store) && |outcomes| == i
      invariant old(d.trace) <= d.trace
      invariant forall k :: 0 <= k < i ==> !Strands(outcomes[k], runs[k].1)
      invariant forall k :: 0 <= k < i && outcomes[k].TakenBack? ==> Seen(d.trace, runs[k].0, runs[k].1, outcomes[k].undone)
    {
      d.Boot(runs[i].2);
      var r := ExecuteInstall(d, runs[i].0, runs[i].1);
      outcomes := outcomes + [r];
      if Strands(r, runs[i].1) {
        return;
      }
    }
    CommittedIsFull(id, plan);
    d.Boot([]);
    var _ := ExecuteInstall(d, id, plan);
  }
}
