/** The cleanup role's turn-taking among its processors (internal/app/worker.go,
    cleanupRoleProcessor.ProcessOnce), for one worker slot. */
module RoundRobin {
  const SIX_HOURS := 21_600_000_000_000

  /** What a processor answers when it is asked. */
  datatype Answer = Answer(processed: bool, failed: bool)

  predicate Stops(a: Answer) {
    a.failed || a.processed
  }

  /** One call and what it meets: when it looks at the clock, when it stamps the reconcile, whether a
      reconcile would fail, and what each processor would answer. */
  datatype Call = Call(now: int, stamp: int, reconcileFails: bool, answers: seq<Answer>)

  datatype State = State(next: nat, lastReconcile: int, reconciled: bool)

  function Mod(x: nat, n: nat): (r: nat)
    requires 0 < n
    ensures r < n
  {
    x % n
  }

  /** The place after another. */
  function Next(k: nat, n: nat): nat {
    if k + 1 == n then 0 else k + 1
  }

  /** k places after start, going round. */
  function Place(start: nat, k: nat, n: nat): (p: nat)
    requires start < n && k <= n
    ensures p < n
  {
    if start + k < n then start + k else start + k - n
  }

  /** The first place, counting round from start, whose processor stops the call; n if none does. */
  function FirstStop(answers: seq<Answer>, start: nat, offset: nat): (k: nat)
    requires offset <= |answers| && start < |answers|
    ensures offset <= k <= |answers|
    ensures k < |answers| ==> Stops(answers[Place(start, k, |answers|)])
    ensures forall i :: offset <= i < k ==> !Stops(answers[Place(start, i, |answers|)])
    decreases |answers| - offset
  {
    if offset == |answers| || Stops(answers[Place(start, offset, |answers|)]) then offset
    else FirstStop(answers, start, offset + 1)
  }

  predicate Due(s: State, c: Call) {
    !s.reconciled || c.now - s.lastReconcile >= SIX_HOURS
  }

  predicate Passes(s: State, c: Call) {
    !(Due(s, c) && c.reconcileFails)
  }

  /** How many processors the call asks, from the next one on. */
  function Asked(s: State, c: Call): (m: nat)
    requires s.next < |c.answers|
    ensures m <= |c.answers|
  {
    if !Passes(s, c) then 0
    else
      var k := FirstStop(c.answers, s.next, 0);
      if k < |c.answers| then k + 1 else k
  }

  predicate Asks(s: State, c: Call, j: nat)
    requires s.next < |c.answers| && j < |c.answers|
  {
    Distance(s.next, j, |c.answers|) < Asked(s, c)
  }

  function After(s: State, c: Call): (t: State)
    requires s.next < |c.answers|
    ensures t.next < |c.answers|
  {
    var n := |c.answers|;
    var k := FirstStop(c.answers, s.next, 0);
    State(if !Passes(s, c) then s.next else if k < n then Place(s.next, k + 1, n) else Place(s.next, 1, n),
          if Due(s, c) then c.stamp else s.lastReconcile,
          s.reconciled || Due(s, c))
  }

  /** Steps from one place forward to another, going round. */
  function Distance(from: nat, to: nat, n: nat): nat
    requires from < n && to < n
  {
    if from <= to then to - from else to + n - from
  }

  /** The loop over the processors: it ends with the first one that stops the call. */
  method AskInTurn(answers: seq<Answer>, start: nat) returns (asked: seq<nat>)
    requires start < |answers|
    ensures var k := FirstStop(answers, start, 0); |asked| == if k < |answers| then k + 1 else k
    ensures forall i :: 0 <= i < |asked| ==> asked[i] == Place(start, i, |answers|)
  {
    hide Mod;
    hide Place;
    asked := [];
    var n, offset := |answers|, 0;
    while offset < n
      invariant 0 <= offset <= n && |asked| == offset
      invariant forall i :: 0 <= i < offset ==> asked[i] == Place(start, i, n)
      invariant FirstStop(answers, start, 0) == FirstStop(answers, start, offset)
    {
      var index := Mod(start + offset, n);
      Turns(start, offset, n);
      asked := asked + [index];
      if Stops(answers[index]) {
        return;
      }
      offset := offset + 1;
    }
  }

  class CleanupRole {
    const n: nat
    var nextProcessor: nat
    var lastReconcile: int
    var reconciled: bool

    ghost predicate Valid()
      reads this
    {
      0 < n && nextProcessor < n
    }

    ghost function Now(): State
      reads this
    {
      State(nextProcessor, lastReconcile, reconciled)
    }

    /** newCleanupRoleProcessor: cleanup itself is always the first processor. */
    constructor (others: nat)
      ensures Valid() && n == others + 1 && Now() == State(0, 0, false)
    {
      n := others + 1;
      nextProcessor, lastReconcile, reconciled := 0, 0, false;
    }

    /** Asks the processors in turn until one has done something or failed. The list of those asked is
        the order of invocation. */
    method ProcessOnce(c: Call) returns (processed: bool, failed: bool, asked: seq<nat>)
      requires Valid() && |c.answers| == n
      modifies this
      ensures Valid() && Now() == After(old(Now()), c)
      ensures |asked| == Asked(old(Now()), c)
      ensures forall i :: 0 <= i < |asked| ==> asked[i] == Place(old(nextProcessor), i, n)
      ensures old(reconciled) && c.now - old(lastReconcile) < 21_600_000_000_000 ==> lastReconcile == old(lastReconcile)
      ensures !old(reconciled) || c.now - old(lastReconcile) >= 21_600_000_000_000 ==> lastReconcile == c.stamp
      ensures reconciled
      ensures !Passes(old(Now()), c) ==> nextProcessor == old(nextProcessor)
      ensures Passes(old(Now()), c) && (processed || failed) ==> nextProcessor == Next(asked[|asked| - 1], n)
      ensures !processed && !failed ==> nextProcessor == Next(old(nextProcessor), n)
      ensures !Passes(old(Now()), c) ==> !processed && failed
      ensures Passes(old(Now()), c) ==> asked != []
      ensures Passes(old(Now()), c) ==> Answer(processed, failed) == c.answers[asked[|asked| - 1]]
      ensures !processed && !failed ==> |asked| == n && forall j :: 0 <= j < n ==> !Stops(c.answers[j])
    {
      hide Mod;
      hide Distance;
      hide Place;
      hide Asks;
      asked := [];
      var start := nextProcessor;
      var due := !reconciled || c.now - lastReconcile >= SIX_HOURS;
      if due {
        lastReconcile, reconciled := c.stamp, true;
        if c.reconcileFails {
          return false, true, asked;
        }
      }
      asked := AskInTurn(c.answers, start);
      var index := asked[|asked| - 1];
      if Stops(c.answers[index]) {
        nextProcessor := Mod(index + 1, n);
        Turns(start, |asked| - 1, n);
        ModOnce(index + 1, n);
        return c.answers[index].processed, c.answers[index].failed, asked;
      }
      nextProcessor := Mod(start + 1, n);
      Turns(start, 0, n);
      ModOnce(start + 1, n);
      forall j | 0 <= j < n
        ensures !Stops(c.answers[j])
      {
        PlaceAtDistance(start, j, n);
      }
      return false, false, asked;
    }

    /** Any number of calls, one after the other. */
    method Serve(calls: seq<Call>) returns (asked: seq<seq<nat>>)
      requires Valid() && forall i :: 0 <= i < |calls| ==> |calls[i].answers| == n
      modifies this
      ensures Valid() && |asked| == |calls|
      ensures Now() == StateAt(old(Now()), calls, n, |calls|)
      ensures forall i, j :: 0 <= i < |calls| && 0 <= j < n ==>
                (j in asked[i] <==> Asks(StateAt(old(Now()), calls, n, i), calls[i], j))
    {
      hide After;
      hide Asks;
      hide Place;
      hide Stops;
      hide Passes;
      asked := [];
      for i := 0 to |calls|
        invariant Valid() && |asked| == i && Now() == StateAt(old(Now()), calls, n, i)
        invariant forall k, j :: 0 <= k < i && 0 <= j < n ==>
                    (j in asked[k] <==> Asks(StateAt(old(Now()), calls, n, k), calls[k], j))
      {
        var _, _, some := ProcessOnce(calls[i]);
        AsksInOrder(StateAt(old(Now()), calls, n, i), calls[i], some);
        asked := asked + [some];
      }
    }
  }

  /** Numbers that go round at most once. */
  lemma ModOnce(x: nat, n: nat)
    requires 0 < n && x < 2 * n
    ensures Mod(x, n) == if x < n then x else x - n
  {
    var q := x / n;
    assert x == q * n + x % n;
    TimesIsMonotone(2, q, n);
    TimesIsMonotone(1, q, n);
    assert q == 0 ==> q * n == 0;
  }

  /** The index arithmetic of one call. */
  lemma Turns(start: nat, k: nat, n: nat)
    requires start < n && k < n
    ensures Mod(start + k, n) == Place(start, k, n)
    ensures Mod(Place(start, k, n) + 1, n) == Place(start, k + 1, n)
    ensures Place(start, 0, n) == start
  {
    ModOnce(start + k, n);
    ModOnce(Place(start, k, n) + 1, n);
  }

  lemma PlaceAtDistance(from: nat, to: nat, n: nat)
    requires from < n && to < n
    ensures Distance(from, to, n) < n && Place(from, Distance(from, to, n), n) == to
  {
  }

  lemma TimesIsMonotone(a: nat, b: nat, n: nat)
    ensures a <= b ==> a * n <= b * n
  {
    if a <= b {
      assert b * n == a * n + (b - a) * n;
    }
  }

  lemma AskedByDistance(start: nat, n: nat, asked: seq<nat>)
    requires start < n && |asked| <= n
    requires forall i :: 0 <= i < |asked| ==> asked[i] == Place(start, i, n)
    ensures forall j :: 0 <= j < n ==> (j in asked <==> Distance(start, j, n) < |asked|)
  {
    forall j | 0 <= j < n
      ensures j in asked <==> Distance(start, j, n) < |asked|
    {
      if Distance(start, j, n) < |asked| {
        assert asked[Distance(start, j, n)] == j;
      }
    }
  }

  lemma AsksInOrder(s: State, c: Call, asked: seq<nat>)
    requires s.next < |c.answers| && |asked| == Asked(s, c)
    requires forall i :: 0 <= i < |asked| ==> asked[i] == Place(s.next, i, |c.answers|)
    ensures forall j :: 0 <= j < |c.answers| ==> (j in asked <==> Asks(s, c, j))
  {
    AskedByDistance(s.next, |c.answers|, asked);
  }

  // ---------- whole runs ----------

  predicate Fits(calls: seq<Call>, n: nat) {
    forall i :: 0 <= i < |calls| ==> |calls[i].answers| == n
  }

  function StateAt(s: State, calls: seq<Call>, n: nat, i: nat): (t: State)
    requires s.next < n && Fits(calls, n) && i <= |calls|
    ensures t.next < n
  {
    if i == 0 then s else After(StateAt(s, calls, n, i - 1), calls[i - 1])
  }

  /** How many of the first i calls get past the reconcile step. */
  function Passing(s: State, calls: seq<Call>, n: nat, i: nat): nat
    requires s.next < n && Fits(calls, n) && i <= |calls|
  {
    if i == 0 then 0
    else Passing(s, calls, n, i - 1) + if Passes(StateAt(s, calls, n, i - 1), calls[i - 1]) then 1 else 0
  }

  /** A call that passes asks the processor or brings its turn nearer; others leave the turns alone. */
  lemma CallBringsNearer(s: State, c: Call, j: nat)
    requires s.next < |c.answers| && j < |c.answers|
    ensures var n := |c.answers|;
            if !Passes(s, c) then After(s, c).next == s.next
            else Asks(s, c, j) || Distance(After(s, c).next, j, n) < Distance(s.next, j, n)
  {
  }

  /** Whatever the others answer, a processor is asked by the time that as many calls as its distance
      from the next one, and one more, have got past the reconcile step. */
  lemma {:induction false} TurnComes(s: State, calls: seq<Call>, n: nat, j: nat, i: nat)
    requires s.next < n && Fits(calls, n) && j < n && i <= |calls|
    ensures (exists k :: 0 <= k < i && Asks(StateAt(s, calls, n, k), calls[k], j)) ||
            Passing(s, calls, n, i) + Distance(StateAt(s, calls, n, i).next, j, n) <= Distance(s.next, j, n)
  {
    hide After;
    hide Asks;
    hide Passes;
    hide Distance;
    if i > 0 {
      TurnComes(s, calls, n, j, i - 1);
      CallBringsNearer(StateAt(s, calls, n, i - 1), calls[i - 1], j);
    }
  }

  /** No processor starves: among calls of which n get past the reconcile step, every one is asked. */
  lemma NoStarvation(s: State, calls: seq<Call>, n: nat, j: nat)
    requires s.next < n && Fits(calls, n) && j < n
    requires Passing(s, calls, n, |calls|) >= n
    ensures exists k :: 0 <= k < |calls| && Asks(StateAt(s, calls, n, k), calls[k], j)
  {
    TurnComes(s, calls, n, j, |calls|);
  }

  /** The bound is met: if every processor always has work, turns go round one by one. */
  lemma {:induction false} BusyTurnsGoRound(s: State, calls: seq<Call>, n: nat, j: nat, i: nat)
    requires s.next < n && Fits(calls, n) && j < n && i <= |calls|
    requires forall k :: 0 <= k < |calls| ==> !calls[k].reconcileFails
    requires forall k, m :: 0 <= k < |calls| && 0 <= m < n ==> Stops(calls[k].answers[m])
    requires i <= Distance(s.next, j, n)
    ensures Distance(StateAt(s, calls, n, i).next, j, n) == Distance(s.next, j, n) - i
    ensures i < |calls| ==> (Asks(StateAt(s, calls, n, i), calls[i], j) <==> i == Distance(s.next, j, n))
  {
    hide After;
    hide Asks;
    if i > 0 {
      BusyTurnsGoRound(s, calls, n, j, i - 1);
      BusyCall(StateAt(s, calls, n, i - 1), calls[i - 1], j);
    }
    if i < |calls| {
      BusyCall(StateAt(s, calls, n, i), calls[i], j);
    }
  }

  lemma BusyCall(s: State, c: Call, j: nat)
    requires s.next < |c.answers| && j < |c.answers| && !c.reconcileFails
    requires forall m :: 0 <= m < |c.answers| ==> Stops(c.answers[m])
    ensures Asks(s, c, j) <==> j == s.next
    ensures j != s.next ==> Distance(After(s, c).next, j, |c.answers|) == Distance(s.next, j, |c.answers|) - 1
  {
    assert Stops(c.answers[Place(s.next, 0, |c.answers|)]);
    assert FirstStop(c.answers, s.next, 0) == 0;
  }

  /** A failed reconcile is not tried again for six hours, so within six hours at most one call is
      turned away after the first reconcile has been stamped. */
  lemma {:induction false} FailuresAreRare(s: State, calls: seq<Call>, n: nat, i: nat)
    requires s.next < n && Fits(calls, n) && i <= |calls|
    requires forall k :: 0 <= k < |calls| ==> calls[0].now <= calls[k].now <= calls[k].stamp
    requires forall k :: 0 <= k < |calls| ==> calls[k].now < calls[0].now + SIX_HOURS
    ensures i - Passing(s, calls, n, i) <= 1
    ensures i - Passing(s, calls, n, i) == 1 ==>
              StateAt(s, calls, n, i).reconciled && calls[0].now <= StateAt(s, calls, n, i).lastReconcile
  {
    if i > 0 {
      FailuresAreRare(s, calls, n, i - 1);
    }
  }

  /** Within six hours, n + 1 calls are enough for every processor, failing reconciles included. */
  lemma NoStarvationWithinSixHours(s: State, calls: seq<Call>, n: nat, j: nat)
    requires s.next < n && Fits(calls, n) && j < n && |calls| > n
    requires forall k :: 0 <= k < |calls| ==> calls[0].now <= calls[k].now <= calls[k].stamp
    requires forall k :: 0 <= k < |calls| ==> calls[k].now < calls[0].now + SIX_HOURS
    ensures exists k :: 0 <= k < |calls| && Asks(StateAt(s, calls, n, k), calls[k], j)
  {
    FailuresAreRare(s, calls, n, |calls|);
    NoStarvation(s, calls, n, j);
  }
}
