/** Overwriting the artifacts of a pending install (internal/mgsctl/install.go): each is replaced in
    order, and a failure puts the ones already replaced back. */
module PendingOverwrite {
  import opened Wrappers
  import opened CrashDisk

  /** Files by path. */
  type Files = map<string, string>

  datatype Replacement = Replacement(path: string, content: string)

  function Get(files: Files, path: string): Option<string> {
    if path in files then Some(files[path]) else None
  }

  /** One file is written or removed. */
  ghost predicate Step(s: Files, t: Files) {
    exists path :: s - {path} == t - {path}
  }

  ghost predicate Ready(d: Disk<Files>)
    reads d
  {
    d.Valid() && d.rule == Step
  }

  twostate predicate Continues(d: Disk<Files>)
    reads d
  {
    Ready(d) && d.Continued()
  }

  /** Writes a file, or removes it if there is no content. */
  method Put(d: Disk<Files>, path: string, content: Option<string>) returns (ok: bool)
    requires Ready(d)
    modifies d
    ensures Continues(d)
    ensures d.store == old(d.store) || d.store == With(old(d.store), path, content)
    ensures ok ==> d.store == With(old(d.store), path, content) && d.alive
    ensures !ok && d.Landings() == old(d.Landings()) ==> d.store == old(d.store)
    ensures d.Failures() == old(d.Failures()) - (if !ok && d.alive then 1 else 0)
    ensures old(d.Quiet()) ==> ok
  {
    var next := With(d.store, path, content);
    assert d.store - {path} == next - {path};
    ok := d.Attempt(next);
  }

  function With(files: Files, path: string, content: Option<string>): Files {
    match content
    case None => files - {path}
    case Some(c) => files[path := c]
  }

  /** The files after all replacements. */
  function Replaced(files: Files, replacements: seq<Replacement>): Files {
    if replacements == [] then files
    else
      var last := replacements[|replacements| - 1];
      Replaced(files, replacements[..|replacements| - 1])[last.path := last.content]
  }

  ghost predicate Touches(replacements: seq<Replacement>, path: string) {
    exists i :: 0 <= i < |replacements| && replacements[i].path == path
  }

  lemma {:induction false} ReplacedElsewhere(files: Files, replacements: seq<Replacement>, path: string)
    requires !Touches(replacements, path)
    ensures Get(Replaced(files, replacements), path) == Get(files, path)
  {
    if replacements != [] {
      var front := replacements[..|replacements| - 1];
      assert forall i :: 0 <= i < |front| ==> front[i] == replacements[i];
      ReplacedElsewhere(files, front, path);
    }
  }

  /** The content of every path about to be replaced, or its absence. */
  ghost predicate BackedUp(backups: map<string, Option<string>>, files: Files, replacements: seq<Replacement>) {
    forall i :: 0 <= i < |replacements| ==>
      replacements[i].path in backups && backups[replacements[i].path] == Get(files, replacements[i].path)
  }

  method BackUp(d: Disk<Files>, replacements: seq<Replacement>)
    returns (ok: bool, backups: map<string, Option<string>>)
    requires Ready(d)
    modifies d
    ensures Continues(d) && d.store == old(d.store)
    ensures ok ==> BackedUp(backups, d.store, replacements) && d.Failures() == old(d.Failures())
    ensures !ok && d.alive ==> d.Failures() < old(d.Failures())
    ensures old(d.Quiet()) ==> ok
  {
    backups := map[];
    for i := 0 to |replacements|
      invariant Continues(d) && d.store == old(d.store) && d.Failures() == old(d.Failures())
      invariant BackedUp(backups, d.store, replacements[..i])
    {
      ok := d.Read();
      if !ok {
        return;
      }
      backups := backups[replacements[i].path := Get(d.store, replacements[i].path)];
    }
    assert replacements[..|replacements|] == replacements;
    ok := true;
  }

  /** Puts the backups back, newest replacement first, going on past failures: no more paths are lost than
      restores failed. */
  method RestorePendingInstallArtifacts(d: Disk<Files>, published: seq<Replacement>, backups: map<string, Option<string>>)
    returns (ok: bool, ghost lost: set<string>)
    requires Ready(d) && forall i :: 0 <= i < |published| ==> published[i].path in backups
    modifies d
    ensures Continues(d)
    ensures forall p :: !Touches(published, p) ==> Get(d.store, p) == Get(old(d.store), p)
    ensures ok ==> forall i :: 0 <= i < |published| ==> Get(d.store, published[i].path) == backups[published[i].path]
    ensures d.alive ==> |lost| <= old(d.Failures()) - d.Failures()
    ensures d.alive ==> forall i :: 0 <= i < |published| && published[i].path !in lost ==>
              Get(d.store, published[i].path) == backups[published[i].path]
    ensures d.Accounts(ok)
    ensures old(d.Quiet()) ==> ok
  {
    lost := {};
    ok := true;
    var index := |published|;
    while index > 0
      invariant 0 <= index <= |published| && Continues(d)
      invariant forall p :: !Touches(published, p) ==> Get(d.store, p) == Get(old(d.store), p)
      invariant ok ==> forall i :: index <= i < |published| ==>
                  Get(d.store, published[i].path) == backups[published[i].path]
      invariant d.alive ==> |lost| <= old(d.Failures()) - d.Failures()
      invariant d.alive ==> forall i :: index <= i < |published| && published[i].path !in lost ==>
                  Get(d.store, published[i].path) == backups[published[i].path]
      invariant d.Accounts(ok)
      invariant old(d.Quiet()) ==> ok
    {
      index := index - 1;
      var path := published[index].path;
      assert Touches(published, path);
      var restored := Put(d, path, backups[path]);
      ok := ok && restored;
      if !restored {
        lost := lost + {path};
      }
    }
  }

  /** How an overwrite ends: done; failed with the replaced files put back, where changed tells
      whether the failed write had changed its own file; or failed without all of them put back. A
      failure before the first write is put back with failed beyond the last replacement. */
  datatype Outcome = Done | PutBack(failed: nat, changed: bool) | Broken

  /** The failed write of an overwrite: where the run was right after it, and whether the file it wrote
      differs from what was there before. */
  ghost predicate FailedAt(was: Files, replacements: seq<Replacement>, i: nat, changed: bool, failed: Files)
    requires i < |replacements|
  {
    var before, next := Replaced(was, replacements[..i]), replacements[i];
    && (failed == before || failed == With(before, next.path, Some(next.content)))
    && (changed <==> Get(failed, next.path) != Get(before, next.path))
  }

  /** An overwrite that fails and puts the replaced files back leaves all files as they were, except
      a file that the failed write itself has changed. So it is all or nothing exactly when that
      write left its own file alone, or wrote a file replaced before; and it is so in any run in which
      no failed write takes effect. Not everything is put back only if the process dies or a second
      operation fails. */
  method ReplacePendingInstallArtifacts(d: Disk<Files>, replacements: seq<Replacement>)
    returns (r: Outcome, ghost failed: Files, ghost lost: set<string>)
    requires Ready(d)
    modifies d
    ensures Continues(d)
    ensures r == Done ==> d.store == Replaced(old(d.store), replacements) && d.Failures() == old(d.Failures())
    ensures r.PutBack? ==> r.failed <= |replacements|
    ensures r.PutBack? && r.failed == |replacements| ==> d.store == old(d.store)
    ensures r.PutBack? && r.failed < |replacements| ==>
              && FailedAt(old(d.store), replacements, r.failed, r.changed, failed) && failed in d.trace
              && (d.store == old(d.store) <==> !r.changed || Touches(replacements[..r.failed], replacements[r.failed].path))
    ensures r.PutBack? && r.failed < |replacements| ==>
              forall p :: p != replacements[r.failed].path ==> Get(d.store, p) == Get(old(d.store), p)
    ensures r.PutBack? && r.failed < |replacements| && r.changed ==> d.Landings() < old(d.Landings())
    ensures r.PutBack? && old(d.Landings()) == 0 ==> d.store == old(d.store)
    ensures r == Broken ==> !d.alive || d.Failures() + 2 <= old(d.Failures())
    ensures r == Broken && d.alive ==>
              && |lost| < old(d.Failures()) - d.Failures()
              && exists i :: 0 <= i < |replacements| &&
                   forall p :: p !in lost && p != replacements[i].path ==> Get(d.store, p) == Get(old(d.store), p)
    ensures d.Accounts(r == Done)
    ensures forall p :: !Touches(replacements, p) ==> Get(d.store, p) == Get(old(d.store), p)
    ensures old(d.Quiet()) ==> r == Done
  {
    failed, lost := d.store, {};
    var ok, backups := BackUp(d, replacements);
    if !ok {
      return PutBack(|replacements|, false), failed, lost;
    }
    for i := 0 to |replacements|
      invariant Continues(d) && d.store == Replaced(old(d.store), replacements[..i])
      invariant d.Failures() == old(d.Failures())
    {
      var next := replacements[i];
      var before := Get(d.store, next.path);
      ok := Put(d, next.path, Some(next.content));
      assert replacements[..i + 1][..i] == replacements[..i];
      if !ok {
        failed := d.store;
        r, lost := TakeBack(d, old(d.store), replacements, i, backups, Get(d.store, next.path) != before);
        return;
      }
    }
    assert replacements[..|replacements|] == replacements;
    forall p | !Touches(replacements, p)
      ensures Get(d.store, p) == Get(old(d.store), p)
    {
      ReplacedElsewhere(old(d.store), replacements, p);
    }
    return Done, d.store, lost;
  }

  /** What follows a failed write: the files replaced before it are put back. */
  method TakeBack(d: Disk<Files>, ghost was: Files, replacements: seq<Replacement>, i: nat,
                  backups: map<string, Option<string>>, changed: bool)
    returns (r: Outcome, ghost lost: set<string>)
    requires Ready(d) && i < |replacements| && BackedUp(backups, was, replacements)
    requires FailedAt(was, replacements, i, changed, d.store)
    modifies d
    ensures Continues(d)
    ensures r == Broken || r == PutBack(i, changed)
    ensures d.Accounts(r.PutBack?)
    ensures d.alive ==> |lost| <= old(d.Failures()) - d.Failures()
    ensures d.alive ==> forall p :: p !in lost && p != replacements[i].path ==> Get(d.store, p) == Get(was, p)
    ensures r.PutBack? ==>
              (d.store == was <==> !changed || Touches(replacements[..i], replacements[i].path))
    ensures r.PutBack? ==> forall p :: p != replacements[i].path ==> Get(d.store, p) == Get(was, p)
    ensures forall p :: !Touches(replacements, p) ==> Get(d.store, p) == Get(was, p)
  {
    var done := replacements[..i];
    ghost var failed := d.store;
    var restored: bool;
    restored, lost := RestorePendingInstallArtifacts(d, done, backups);
    forall p | !Touches(replacements, p)
      ensures Get(d.store, p) == Get(was, p)
    {
      assert forall k :: 0 <= k < i ==> done[k] == replacements[k];
      assert !Touches(done, p) && p != replacements[i].path;
      ReplacedElsewhere(was, done, p);
    }
    if d.alive {
      AllButLost(was, failed, d.store, replacements, i, backups, lost);
    }
    if !restored {
      return Broken, lost;
    }
    RestoredIsOld(was, failed, d.store, replacements, i, backups);
    return PutBack(i, changed), lost;
  }

  lemma AllButLost(was: Files, failed: Files, now: Files, replacements: seq<Replacement>, i: nat,
                   backups: map<string, Option<string>>, lost: set<string>)
    requires i < |replacements| && BackedUp(backups, was, replacements)
    requires forall p :: p != replacements[i].path ==> Get(failed, p) == Get(Replaced(was, replacements[..i]), p)
    requires forall p :: !Touches(replacements[..i], p) ==> Get(now, p) == Get(failed, p)
    requires forall k :: 0 <= k < i && replacements[..i][k].path !in lost ==>
               Get(now, replacements[..i][k].path) == backups[replacements[..i][k].path]
    ensures forall p :: p !in lost && p != replacements[i].path ==> Get(now, p) == Get(was, p)
  {
    var done := replacements[..i];
    forall p | p !in lost && p != replacements[i].path
      ensures Get(now, p) == Get(was, p)
    {
      if Touches(done, p) {
        var k :| 0 <= k < |done| && done[k].path == p;
        assert replacements[k].path == p;
      } else {
        ReplacedElsewhere(was, done, p);
      }
    }
  }

  lemma RestoredIsOld(was: Files, failed: Files, now: Files, replacements: seq<Replacement>, i: nat,
                      backups: map<string, Option<string>>)
    requires i < |replacements| && BackedUp(backups, was, replacements)
    requires forall p :: p != replacements[i].path ==> Get(failed, p) == Get(Replaced(was, replacements[..i]), p)
    requires forall p :: !Touches(replacements[..i], p) ==> Get(now, p) == Get(failed, p)
    requires forall k :: 0 <= k < i ==> Get(now, replacements[..i][k].path) == backups[replacements[..i][k].path]
    ensures forall p :: p != replacements[i].path || Touches(replacements[..i], p) ==> Get(now, p) == Get(was, p)
    ensures !Touches(replacements[..i], replacements[i].path) ==>
              Get(now, replacements[i].path) == Get(failed, replacements[i].path)
              && Get(Replaced(was, replacements[..i]), replacements[i].path) == Get(was, replacements[i].path)
    ensures (forall p :: Get(now, p) == Get(was, p)) <==> now == was
  {
    var done := replacements[..i];
    forall p | p != replacements[i].path || Touches(done, p)
      ensures Get(now, p) == Get(was, p)
    {
      if Touches(done, p) {
        var k :| 0 <= k < |done| && done[k].path == p;
        assert replacements[k].path == p;
      } else {
        ReplacedElsewhere(was, done, p);
      }
    }
    if !Touches(done, replacements[i].path) {
      ReplacedElsewhere(was, done, replacements[i].path);
    }
    if forall p :: Get(now, p) == Get(was, p) {
      assert forall p :: p in now <==> Get(now, p).Some?;
      assert forall p :: p in was <==> Get(was, p).Some?;
      assert forall p :: p in now ==> Get(now, p) == Some(now[p]) && Get(was, p) == Some(was[p]);
    }
  }
}
