/** A store that is changed one atomic step at a time, under a script of faults.

    Every protocol of the deployment tool changes several files, directories or records, and each
    single change is atomic while the sequence is not. A Disk holds everything such a protocol can
    change. A script decides how each attempt at a change turns out; a process that dies stays dead,
    so that whatever its code goes on to attempt has no effect. The store a method leaves behind
    under an arbitrary script is therefore the store at an arbitrary crash point, after an arbitrary
    choice of failed and ambiguous writes before it. */
module CrashDisk {
  /** How one attempt turns out: it works; it fails and changes nothing; it reports a failure
      although the change is in place; or the process is killed before it. */
  datatype Fault = Works | Fails | Lands | Dies

  predicate Failing(fault: Fault) {
    fault == Fails || fault == Lands
  }

  /** How many attempts of a script report a failure to a process that goes on. */
  function FailuresIn(script: seq<Fault>): nat {
    if script == [] then 0 else (if Failing(script[0]) then 1 else 0) + FailuresIn(script[1..])
  }

  /** How many of them have taken effect nevertheless. */
  function LandingsIn(script: seq<Fault>): nat {
    if script == [] then 0 else (if script[0] == Lands then 1 else 0) + LandingsIn(script[1..])
  }

  /** A script has no failures exactly if the process only works or dies. */
  lemma {:induction false} KillsOnly(script: seq<Fault>)
    ensures FailuresIn(script) == 0 <==> forall i :: 0 <= i < |script| ==> script[i] == Works || script[i] == Dies
    ensures LandingsIn(script) <= FailuresIn(script)
  {
    if script != [] {
      KillsOnly(script[1..]);
    }
  }

  /** A run is a sequence of stores in which every two neighbours are one allowed step apart. */
  ghost predicate IsRun<S(!new)>(rule: (S, S) -> bool, trace: seq<S>) {
    forall i :: 0 < i < |trace| ==> rule(trace[i - 1], trace[i])
  }

  /** What one allowed step keeps, every run keeps. */
  lemma {:induction false} RunKeeps<S(!new)>(rule: (S, S) -> bool, inv: S -> bool, trace: seq<S>, n: nat)
    requires IsRun(rule, trace) && n < |trace| && inv(trace[0])
    requires forall s, t :: inv(s) && rule(s, t) ==> inv(t)
    ensures inv(trace[n])
  {
    if n > 0 {
      RunKeeps(rule, inv, trace, n - 1);
      assert rule(trace[n - 1], trace[n]);
    }
  }

  class Disk<S(!new)> {
    /** The steps the protocol is allowed to take. */
    ghost const rule: (S, S) -> bool
    /** Every store there has been, oldest first. */
    ghost var trace: seq<S>
    var store: S
    var script: seq<Fault>
    var alive: bool

    ghost predicate Valid()
      reads this
    {
      0 < |trace| && trace[|trace| - 1] == store && IsRun(rule, trace)
    }

    /** Nothing interrupts or fails what the process still has to do. */
    predicate Quiet()
      reads this
    {
      alive && forall i :: 0 <= i < |script| ==> script[i] == Works
    }

    /** The failures that are still to come. */
    ghost function Failures(): nat
      reads this
    {
      FailuresIn(script)
    }

    /** Those of them that will take effect. */
    ghost function Landings(): nat
      reads this
    {
      LandingsIn(script)
    }

    /** Whatever a method did was a continuation of the run, a process that nothing interrupts stays so,
        no process comes alive, and failures only get used up. */
    twostate predicate Continued()
      reads this
    {
      && Valid() && old(trace) <= trace && (old(Quiet()) ==> Quiet()) && (alive ==> old(alive))
      && Failures() <= old(Failures()) && Landings() <= old(Landings())
    }

    /** A success means that nothing has failed on the way, and a failure that something has. */
    twostate predicate Accounts(ok: bool)
      reads this
    {
      if ok then Failures() == old(Failures()) else alive ==> Failures() < old(Failures())
    }

    /** The process goes on, and at most one operation has failed. */
    twostate predicate OneFailure()
      reads this
    {
      alive && old(Failures()) <= Failures() + 1
    }

    /** How the next attempt turns out, and what is left of the script then. */
    function Upcoming(): Fault
      reads this
    {
      if !alive then Dies else if script == [] then Works else script[0]
    }

    ghost function Rest(): seq<Fault>
      reads this
    {
      if !alive || script == [] then script else script[1..]
    }

    constructor (ghost rule: (S, S) -> bool, store: S)
      ensures Valid() && this.rule == rule && this.store == store && trace == [store] && Quiet()
    {
      this.rule := rule;
      this.trace := [store];
      this.store := store;
      this.script := [];
      this.alive := true;
    }

    /** Starts a new process, whose attempts will turn out as the script says. */
    method Boot(script: seq<Fault>)
      requires Valid()
      modifies this`script, this`alive
      ensures Valid() && this.script == script && alive
      ensures Failures() == FailuresIn(script) && Landings() == LandingsIn(script)
    {
      this.script := script;
      alive := true;
    }

    method NextFault() returns (fault: Fault)
      requires Valid()
      modifies this`script, this`alive
      ensures Valid()
      ensures fault == old(Upcoming()) && script == old(Rest())
      ensures fault == Dies <==> !alive
      ensures !old(alive) ==> !alive
      ensures old(Quiet()) ==> Quiet() && fault == Works
      ensures Failures() == old(Failures()) - (if Failing(fault) then 1 else 0)
      ensures Landings() == old(Landings()) - (if fault == Lands then 1 else 0)
    {
      fault := Upcoming();
      if alive && script != [] {
        script := script[1..];
        alive := fault != Dies;
      }
    }

    /** One atomic change of the store. */
    method Attempt(next: S) returns (ok: bool)
      requires Valid() && rule(store, next)
      modifies this
      ensures Continued()
      ensures ok <==> old(Upcoming()) == Works
      ensures store == if old(Upcoming()) in {Works, Lands} then next else old(store)
      ensures script == old(Rest()) && (alive <==> old(Upcoming()) != Dies)
      ensures ok ==> store == next && alive
      ensures store == old(store) || (store == next && old(alive))
      ensures !ok && Landings() == old(Landings()) ==> store == old(store)
      ensures Failures() == old(Failures()) - (if !ok && alive then 1 else 0)
      ensures old(Quiet()) ==> ok
    {
      var fault := NextFault();
      ok := fault == Works;
      if ok || fault == Lands {
        store := next;
        trace := trace + [next];
      }
    }

    /** A look at the store, which may fail too. */
    method Read() returns (ok: bool)
      requires Valid()
      modifies this`script, this`alive
      ensures Continued()
      ensures ok <==> old(Upcoming()) == Works
      ensures script == old(Rest()) && (alive <==> old(Upcoming()) != Dies)
      ensures ok ==> alive
      ensures Failures() == old(Failures()) - (if !ok && alive then 1 else 0)
      ensures old(Quiet()) ==> ok
    {
      var fault := NextFault();
      ok := fault == Works;
    }
  }
}
