/** The parallel test runner as steps of one main thread and any number of workers on
    shared atomic counters.  A run is any sequence of steps, so every interleaving and
    every pattern of failed spawns is covered. */
module WorkQueue {
  import opened Numbers

  datatype Outcome = Passed | Skipped | Failed

  /** Where a worker is in its loop.  Holding and Reporting own a test index. */
  datatype Worker =
    | NotSpawned
    | SpawnFailed
    | Ready
    | Holding(index: nat)
    | Reporting(index: nat, outcome: Outcome)
    | Returned
  {
    predicate Busy() {
      Holding? || Reporting?
    }
  }

  datatype MainPc = Spawning(at: nat) | Joining(at: nat) | Finished(ok: uint64, skip: uint64, fail: uint64)

  datatype Claim = Claim(worker: nat, index: nat)

  /** The four atomics and the threads; claims and reported record the history. */
  datatype State = State(next: uint64, ok: uint64, skip: uint64, fail: uint64,
                         workers: seq<Worker>, main: MainPc,
                         claims: seq<Claim>, reported: map<nat, Outcome>)

  datatype Action = Spawn(success: bool) | FetchIndex(w: nat) | RunTest(w: nat, result: Outcome) | Report(w: nat)
                  | Join | Load

  function Initial(workers: nat): State {
    State(0, 0, 0, 0, seq(workers, _ => NotSpawned), Spawning(0), [], map[])
  }

  /** fetchAdd(1) on a usize */
  function Bump(v: uint64): uint64 {
    (v + 1) % U64_LIMIT
  }

  function SetWorker(s: State, w: nat, x: Worker): State
    requires w < |s.workers|
  {
    s.(workers := s.workers[w := x])
  }

  /** One step with n tests; None when the action is not possible in s. */
  function Next(n: nat, s: State, a: Action): Option<State> {
    match a
    case Spawn(success) =>
      if s.main.Spawning? && s.main.at < |s.workers| then
        Some(SetWorker(s, s.main.at, if success then Ready else SpawnFailed).(main := Spawning(s.main.at + 1)))
      else None
    case FetchIndex(w) =>
      if w < |s.workers| && s.workers[w].Ready? then
        var i, s' := s.next, s.(next := Bump(s.next));
        if i >= n then Some(SetWorker(s', w, Returned))
        else Some(SetWorker(s', w, Holding(i)).(claims := s.claims + [Claim(w, i)]))
      else None
    case RunTest(w, result) =>
      if w < |s.workers| && s.workers[w].Holding? then
        Some(SetWorker(s, w, Reporting(s.workers[w].index, result)))
      else None
    case Report(w) =>
      if w < |s.workers| && s.workers[w].Reporting? then
        var r, i := s.workers[w].outcome, s.workers[w].index;
        var s' := SetWorker(s, w, Ready).(reported := s.reported[i := r]);
        Some(match r
             case Passed => s'.(ok := Bump(s.ok))
             case Skipped => s'.(skip := Bump(s.skip))
             case Failed => s'.(fail := Bump(s.fail)))
      else None
    case Join =>
      if s.main == Spawning(|s.workers|) then Some(s.(main := Joining(0)))
      else if s.main.Joining? && s.main.at < |s.workers|
              && (s.workers[s.main.at].Returned? || s.workers[s.main.at].SpawnFailed?) then
        Some(s.(main := Joining(s.main.at + 1)))
      else None
    case Load =>
      if s.main == Joining(|s.workers|) then Some(s.(main := Finished(s.ok, s.skip, s.fail))) else None
  }

  /** The state after a run, if all its steps are possible. */
  function Run(n: nat, workers: nat, actions: seq<Action>): Option<State> {
    if actions == [] then Some(Initial(workers))
    else
      match Run(n, workers, actions[..|actions| - 1])
      case None => None
      case Some(s) => Next(n, s, actions[|actions| - 1])
  }

  // ----- counting -----

  function CountOutcome(m: map<nat, Outcome>, r: Outcome, k: nat): (c: nat)
    ensures c <= k
  {
    if k == 0 then 0 else CountOutcome(m, r, k - 1) + if k - 1 in m && m[k - 1] == r then 1 else 0
  }

  lemma {:induction false} CountOutcomeIs(m: map<nat, Outcome>, r: Outcome, k: nat)
    ensures CountOutcome(m, r, k) == |set i: nat | i < k && i in m && m[i] == r|
  {
    if k > 0 {
      CountOutcomeIs(m, r, k - 1);
      OutcomesNext(m, r, k - 1);
    }
  }

  lemma OutcomesNext(m: map<nat, Outcome>, r: Outcome, k: nat)
    ensures |set i: nat | i < k + 1 && i in m && m[i] == r|
         == |set i: nat | i < k && i in m && m[i] == r| + if k in m && m[k] == r then 1 else 0
  {
    var a, b := set i: nat | i < k && i in m && m[i] == r, set i: nat | i < k + 1 && i in m && m[i] == r;
    if k in m && m[k] == r {
      assert b == a + {k};
    } else {
      assert b == a;
    }
  }

  lemma {:induction false} CountAdded(m: map<nat, Outcome>, r: Outcome, q: Outcome, i: nat, k: nat)
    requires i !in m && i < k
    ensures CountOutcome(m[i := r], q, k) == CountOutcome(m, q, k) + if r == q then 1 else 0
  {
    if i == k - 1 {
      CountOutside(m, r, q, i, k - 1);
    } else {
      CountAdded(m, r, q, i, k - 1);
    }
  }

  lemma {:induction false} CountOutside(m: map<nat, Outcome>, r: Outcome, q: Outcome, i: nat, k: nat)
    requires k <= i
    ensures CountOutcome(m[i := r], q, k) == CountOutcome(m, q, k)
  {
    if k > 0 {
      CountOutside(m, r, q, i, k - 1);
    }
  }

  lemma {:induction false} CountAll(m: map<nat, Outcome>, k: nat)
    requires forall i :: 0 <= i < k ==> i in m
    ensures CountOutcome(m, Passed, k) + CountOutcome(m, Skipped, k) + CountOutcome(m, Failed, k) == k
  {
    if k > 0 {
      CountAll(m, k - 1);
    }
  }

  lemma {:induction false} CountNone(r: Outcome, k: nat)
    ensures CountOutcome(map[], r, k) == 0
  {
    if k > 0 {
      CountNone(r, k - 1);
    }
  }

  function ReturnedCount(workers: seq<Worker>, k: nat): (c: nat)
    requires k <= |workers|
    ensures c <= k
  {
    if k == 0 then 0 else ReturnedCount(workers, k - 1) + if workers[k - 1].Returned? then 1 else 0
  }

  lemma {:induction false} ReturnedUpdate(workers: seq<Worker>, w: nat, x: Worker, k: nat)
    requires k <= |workers| && w < |workers|
    ensures ReturnedCount(workers[w := x], k)
         == ReturnedCount(workers, k)
            + if w < k && x.Returned? && !workers[w].Returned? then 1
              else if w < k && !x.Returned? && workers[w].Returned? then -1 else 0
  {
    if k > 0 {
      ReturnedUpdate(workers, w, x, k - 1);
    }
  }

  lemma {:induction false} ReturnedSome(workers: seq<Worker>, k: nat, w: nat)
    requires w < k <= |workers| && workers[w].Returned?
    ensures ReturnedCount(workers, k) > 0
  {
    if w < k - 1 {
      ReturnedSome(workers, k - 1, w);
    }
  }

  // ----- the invariant -----

  /** Claim k is for test k, by a worker that was spawned. */
  ghost predicate ClaimsOk(n: nat, s: State) {
    && |s.claims| <= n
    && forall k :: 0 <= k < |s.claims| ==>
         && s.claims[k].index == k && s.claims[k].worker < |s.workers|
         && !s.workers[s.claims[k].worker].NotSpawned? && !s.workers[s.claims[k].worker].SpawnFailed?
  }

  /** A claimed test is owned by the worker that claimed it, or reported, never both; a test
      not yet claimed is neither. */
  ghost predicate OwnershipOk(s: State) {
    && (forall w :: 0 <= w < |s.workers| && s.workers[w].Busy() ==>
          var i := s.workers[w].index;
          i < |s.claims| && s.claims[i].worker == w && i !in s.reported)
    && (forall i: nat :: i in s.reported ==> i < |s.claims|)
    && forall i: nat :: i < |s.claims| && i !in s.reported ==>
         var w := s.claims[i].worker;
         w < |s.workers| && s.workers[w].Busy() && s.workers[w].index == i
  }

  /** The shared index counts the claims plus one vain fetch for every returned worker, and
      a worker returns only when all tests are claimed. */
  ghost predicate NextOk(n: nat, s: State) {
    && s.next == |s.claims| + ReturnedCount(s.workers, |s.workers|)
    && (ReturnedCount(s.workers, |s.workers|) > 0 ==> |s.claims| == n)
  }

  ghost predicate CountersOk(n: nat, s: State) {
    && s.ok == CountOutcome(s.reported, Passed, n)
    && s.skip == CountOutcome(s.reported, Skipped, n)
    && s.fail == CountOutcome(s.reported, Failed, n)
  }

  ghost predicate MainOk(s: State) {
    match s.main
    case Spawning(at) =>
      at <= |s.workers| && forall w :: 0 <= w < |s.workers| ==> (s.workers[w].NotSpawned? <==> at <= w)
    case Joining(at) =>
      && at <= |s.workers| && (forall w :: 0 <= w < |s.workers| ==> !s.workers[w].NotSpawned?)
      && forall w :: 0 <= w < at ==> s.workers[w].Returned? || s.workers[w].SpawnFailed?
    case Finished(ok, skip, fail) =>
      && ok == s.ok && skip == s.skip && fail == s.fail
      && forall w :: 0 <= w < |s.workers| ==> s.workers[w].Returned? || s.workers[w].SpawnFailed?
  }

  ghost predicate Inv(n: nat, s: State) {
    n + |s.workers| < U64_LIMIT && ClaimsOk(n, s) && OwnershipOk(s) && NextOk(n, s) && CountersOk(n, s) && MainOk(s)
  }

  lemma {:induction false} NoneReturned(workers: seq<Worker>, k: nat)
    requires k <= |workers| && forall w :: 0 <= w < |workers| ==> !workers[w].Returned?
    ensures ReturnedCount(workers, k) == 0
  {
    if k > 0 {
      NoneReturned(workers, k - 1);
    }
  }

  lemma InitialInv(n: nat, workers: nat)
    requires n + workers < U64_LIMIT
    ensures Inv(n, Initial(workers))
  {
    var s := Initial(workers);
    NoneReturned(s.workers, workers);
    CountNone(Passed, n);
    CountNone(Skipped, n);
    CountNone(Failed, n);
  }

  // ----- every step keeps the invariant -----

  lemma SpawnKeeps(n: nat, s: State, success: bool)
    requires Inv(n, s) && Next(n, s, Spawn(success)).Some?
    ensures Inv(n, Next(n, s, Spawn(success)).value)
  {
    hide CountOutcome, ReturnedCount;
    ReturnedUpdate(s.workers, s.main.at, if success then Ready else SpawnFailed, |s.workers|);
  }

  lemma FetchKeeps(n: nat, s: State, w: nat)
    requires Inv(n, s) && Next(n, s, FetchIndex(w)).Some?
    ensures Inv(n, Next(n, s, FetchIndex(w)).value)
  {
    if s.next >= n {
      VainFetchKeeps(n, s, w);
    } else {
      ClaimKeeps(n, s, w);
    }
  }

  lemma VainFetchKeeps(n: nat, s: State, w: nat)
    requires Inv(n, s) && Next(n, s, FetchIndex(w)).Some? && s.next >= n
    ensures Inv(n, Next(n, s, FetchIndex(w)).value)
  {
    hide CountOutcome, ReturnedCount;
    ReturnedUpdate(s.workers, w, Returned, |s.workers|);
    NextBelow(n, s, w);
  }

  lemma ClaimKeeps(n: nat, s: State, w: nat)
    requires Inv(n, s) && Next(n, s, FetchIndex(w)).Some? && s.next < n
    ensures Inv(n, Next(n, s, FetchIndex(w)).value)
  {
    hide CountOutcome, ReturnedCount;
    ReturnedUpdate(s.workers, w, Holding(s.next), |s.workers|);
  }

  /** A worker that is still looking for work has not returned, so the index has room. */
  lemma NextBelow(n: nat, s: State, w: nat)
    requires Inv(n, s) && w < |s.workers| && !s.workers[w].Returned?
    ensures s.next < n + |s.workers|
  {
    ReturnedUpdate(s.workers, w, Returned, |s.workers|);
    assert ReturnedCount(s.workers[w := Returned], |s.workers|) <= |s.workers|;
  }

  lemma RunTestKeeps(n: nat, s: State, w: nat, r: Outcome)
    requires Inv(n, s) && Next(n, s, RunTest(w, r)).Some?
    ensures Inv(n, Next(n, s, RunTest(w, r)).value)
  {
    hide CountOutcome, ReturnedCount;
    ReturnedUpdate(s.workers, w, Reporting(s.workers[w].index, r), |s.workers|);
  }

  lemma ReportKeeps(n: nat, s: State, w: nat)
    requires Inv(n, s) && Next(n, s, Report(w)).Some?
    ensures Inv(n, Next(n, s, Report(w)).value)
  {
    hide CountOutcome, ReturnedCount, CountersOk;
    ReturnedUpdate(s.workers, w, Ready, |s.workers|);
    ReportCounts(n, s, w);
  }

  lemma ReportCounts(n: nat, s: State, w: nat)
    requires Inv(n, s) && Next(n, s, Report(w)).Some?
    ensures CountersOk(n, Next(n, s, Report(w)).value)
  {
    hide CountOutcome, NextOk, MainOk;
    var i, r := s.workers[w].index, s.workers[w].outcome;
    CountAdded(s.reported, r, Passed, i, n);
    CountAdded(s.reported, r, Skipped, i, n);
    CountAdded(s.reported, r, Failed, i, n);
  }

  lemma MainKeeps(n: nat, s: State, a: Action)
    requires Inv(n, s) && Next(n, s, a).Some? && (a.Join? || a.Load?)
    ensures Inv(n, Next(n, s, a).value)
  {
    hide CountOutcome, ReturnedCount;
  }

  lemma StepKeeps(n: nat, s: State, a: Action)
    requires Inv(n, s) && Next(n, s, a).Some?
    ensures Inv(n, Next(n, s, a).value) && |Next(n, s, a).value.workers| == |s.workers|
  {
    hide Inv;
    match a
    case Spawn(success) => SpawnKeeps(n, s, success);
    case FetchIndex(w) => FetchKeeps(n, s, w);
    case RunTest(w, r) => RunTestKeeps(n, s, w, r);
    case Report(w) => ReportKeeps(n, s, w);
    case Join => MainKeeps(n, s, a);
    case Load => MainKeeps(n, s, a);
  }

  /** Every state of every run satisfies the invariant. */
  lemma {:induction false} RunInv(n: nat, workers: nat, actions: seq<Action>)
    requires n + workers < U64_LIMIT && Run(n, workers, actions).Some?
    ensures Inv(n, Run(n, workers, actions).value) && |Run(n, workers, actions).value.workers| == workers
  {
    hide Inv;
    if actions == [] {
      InitialInv(n, workers);
    } else {
      RunInv(n, workers, actions[..|actions| - 1]);
      StepKeeps(n, Run(n, workers, actions[..|actions| - 1]).value, actions[|actions| - 1]);
    }
  }

  // ----- what every run guarantees -----

  /** At no time do two workers hold the same test, no test is claimed twice, and the
      shared index stays within the tests plus one fetch per worker. */
  lemma ClaimedOnce(n: nat, workers: nat, actions: seq<Action>)
    requires n + workers < U64_LIMIT && Run(n, workers, actions).Some?
    ensures var s := Run(n, workers, actions).value;
            && (forall j, k :: 0 <= j < k < |s.claims| ==> s.claims[j].index != s.claims[k].index)
            && (forall v, w :: 0 <= v < w < |s.workers|
                               && (s.workers[v].Holding? || s.workers[v].Reporting?)
                               && (s.workers[w].Holding? || s.workers[w].Reporting?) ==>
                  s.workers[v].index != s.workers[w].index)
            && s.next <= n + workers
  {
    hide CountOutcome, ReturnedCount;
    RunInv(n, workers, actions);
  }

  /** Some worker's thread exists, whether it still runs or has returned. */
  ghost predicate HasThread(s: State) {
    exists w :: 0 <= w < |s.workers| && !s.workers[w].NotSpawned? && !s.workers[w].SpawnFailed?
  }

  lemma NoThreadYet(workers: nat)
    ensures !HasThread(Initial(workers))
  {
  }

  /** Only a successful spawn adds the first thread, and no step takes one away. */
  lemma ThreadStep(n: nat, s: State, a: Action)
    requires Inv(n, s) && Next(n, s, a).Some?
    ensures HasThread(Next(n, s, a).value) <==> HasThread(s) || a == Spawn(true)
  {
    hide OwnershipOk, NextOk, CountersOk;
    var t := Next(n, s, a).value;
    if HasThread(s) {
      var w :| 0 <= w < |s.workers| && !s.workers[w].NotSpawned? && !s.workers[w].SpawnFailed?;
      StillThere(n, s, a, w);
    } else if a == Spawn(true) {
      assert !t.workers[s.main.at].NotSpawned? && !t.workers[s.main.at].SpawnFailed?;
    } else if HasThread(t) {
      WasThere(n, s, a);
    }
  }

  lemma WasThere(n: nat, s: State, a: Action)
    requires Next(n, s, a).Some? && HasThread(Next(n, s, a).value) && a != Spawn(true)
    ensures HasThread(s)
  {
    var t := Next(n, s, a).value;
    var w :| 0 <= w < |t.workers| && !t.workers[w].NotSpawned? && !t.workers[w].SpawnFailed?;
    assert !s.workers[w].NotSpawned? && !s.workers[w].SpawnFailed?;
  }

  lemma StillThere(n: nat, s: State, a: Action, w: nat)
    requires Next(n, s, a).Some? && w < |s.workers| && !s.workers[w].NotSpawned? && !s.workers[w].SpawnFailed?
    requires s.main.Spawning? ==> w != s.main.at
    ensures HasThread(Next(n, s, a).value)
  {
    var t := Next(n, s, a).value;
    assert !t.workers[w].NotSpawned? && !t.workers[w].SpawnFailed?;
  }

  lemma {:induction false} HasThreadIff(n: nat, workers: nat, actions: seq<Action>)
    requires n + workers < U64_LIMIT && Run(n, workers, actions).Some?
    ensures HasThread(Run(n, workers, actions).value) <==> Spawn(true) in actions
  {
    hide HasThread, Next, Inv;
    if actions == [] {
      NoThreadYet(workers);
    } else {
      var k := |actions| - 1;
      HasThreadIff(n, workers, actions[..k]);
      RunInv(n, workers, actions[..k]);
      ThreadStep(n, Run(n, workers, actions[..k]).value, actions[k]);
      assert actions == actions[..k] + [actions[k]];
    }
  }

  /** In every state of a run: there is a thread exactly when some spawn has succeeded. */
  lemma ThreadIffSpawned(n: nat, workers: nat, actions: seq<Action>)
    requires n + workers < U64_LIMIT && Run(n, workers, actions).Some?
    ensures var s := Run(n, workers, actions).value;
            (exists w :: 0 <= w < |s.workers| && !s.workers[w].NotSpawned? && !s.workers[w].SpawnFailed?)
            <==> Spawn(true) in actions
  {
    hide Run;
    HasThreadIff(n, workers, actions);
  }

  /** When main has finished, every test was claimed by exactly one worker and reported
      once, and the printed totals are the numbers of tests with each outcome.  They add up
      to all tests exactly when some spawn succeeded or there was no test.  Otherwise main
      prints zeros and ends without an error. */
  lemma FinishedTotals(n: nat, workers: nat, actions: seq<Action>)
    requires n + workers < U64_LIMIT && Run(n, workers, actions).Some?
    requires Run(n, workers, actions).value.main.Finished?
    ensures var s := Run(n, workers, actions).value;
            && s.main.ok == |set i: nat | i < n && i in s.reported && s.reported[i] == Passed|
            && s.main.skip == |set i: nat | i < n && i in s.reported && s.reported[i] == Skipped|
            && s.main.fail == |set i: nat | i < n && i in s.reported && s.reported[i] == Failed|
            && (s.main.ok + s.main.skip + s.main.fail == n <==> Spawn(true) in actions || n == 0)
            && (Spawn(true) in actions ==>
                  && |s.claims| == n
                  && forall i: nat :: i < n ==> s.claims[i].index == i && i in s.reported)
            && (Spawn(true) !in actions ==> s.main == Finished(0, 0, 0))
  {
    RunInv(n, workers, actions);
    ThreadIffSpawned(n, workers, actions);
    var s := Run(n, workers, actions).value;
    CountOutcomeIs(s.reported, Passed, n);
    CountOutcomeIs(s.reported, Skipped, n);
    CountOutcomeIs(s.reported, Failed, n);
    if HasThread(s) {
      AllReported(n, s);
      CountAll(s.reported, n);
    } else {
      NothingReported(n, s);
    }
  }

  lemma AllReported(n: nat, s: State)
    requires Inv(n, s) && s.main.Finished? && HasThread(s)
    ensures |s.claims| == n && forall i: nat :: i < n ==> s.claims[i].index == i && i in s.reported
  {
    hide CountOutcome;
    var w :| 0 <= w < |s.workers| && !s.workers[w].NotSpawned? && !s.workers[w].SpawnFailed?;
    ReturnedSome(s.workers, |s.workers|, w);
  }

  lemma ClaimantHasThread(n: nat, s: State)
    requires Inv(n, s) && |s.claims| > 0
    ensures HasThread(s)
  {
    var w := s.claims[0].worker;
    assert !s.workers[w].NotSpawned? && !s.workers[w].SpawnFailed?;
  }

  lemma NothingReported(n: nat, s: State)
    requires Inv(n, s) && s.main.Finished? && !HasThread(s)
    ensures CountOutcome(s.reported, Passed, n) == 0
    ensures CountOutcome(s.reported, Skipped, n) == 0
    ensures CountOutcome(s.reported, Failed, n) == 0
  {
    if |s.claims| > 0 {
      ClaimantHasThread(n, s);
    }
    assert s.reported == map[];
    CountNone(Passed, n);
    CountNone(Skipped, n);
    CountNone(Failed, n);
  }

  /** The failed spawns of all workers and main's own steps. */
  function SilentRun(workers: nat): seq<Action> {
    seq(workers, _ => Spawn(false)) + seq(workers + 1, _ => Join) + [Load]
  }

  /** A run in which no thread starts: for any number of tests and workers main prints
      zeros, adds up nothing and exits with 0. */
  lemma SilentRunPrintsZeros(n: nat, workers: nat)
    requires n + workers < U64_LIMIT
    ensures var end := Run(n, workers, SilentRun(workers));
            end.Some? && end.value.main == Finished(0, 0, 0) && ExitCode(end.value) == 0
  {
    var spawns := seq(workers, _ => Spawn(false));
    FailedSpawns(n, workers, workers);
    FailedJoins(n, workers, workers + 1);
    var actions := SilentRun(workers);
    assert actions[..|actions| - 1] == spawns + seq(workers + 1, _ => Join);
  }

  function NoThreads(workers: nat, k: nat, main: MainPc): State
    requires k <= workers
  {
    Initial(workers).(workers := seq(workers, w requires 0 <= w < workers => if w < k then SpawnFailed else NotSpawned),
                      main := main)
  }

  lemma {:induction false} FailedSpawns(n: nat, workers: nat, k: nat)
    requires k <= workers
    ensures Run(n, workers, seq(k, _ => Spawn(false))) == Some(NoThreads(workers, k, Spawning(k)))
  {
    if k == 0 {
      assert NoThreads(workers, 0, Spawning(0)).workers == Initial(workers).workers;
    } else {
      FailedSpawns(n, workers, k - 1);
      var actions := seq(k, _ => Spawn(false));
      assert actions[..k - 1] == seq(k - 1, _ => Spawn(false)) && actions[k - 1] == Spawn(false);
      assert NoThreads(workers, k - 1, Spawning(k - 1)).workers[k - 1 := SpawnFailed]
          == NoThreads(workers, k, Spawning(k)).workers;
    }
  }

  lemma {:induction false} FailedJoins(n: nat, workers: nat, k: nat)
    requires 0 < k <= workers + 1
    ensures Run(n, workers, seq(workers, _ => Spawn(false)) + seq(k, _ => Join))
         == Some(NoThreads(workers, workers, Joining(k - 1)))
  {
    var spawns := seq(workers, _ => Spawn(false));
    var actions := spawns + seq(k, _ => Join);
    assert actions[..|actions| - 1] == spawns + seq(k - 1, _ => Join);
    if k == 1 {
      FailedSpawns(n, workers, workers);
      assert spawns + seq(0, _ => Join) == spawns;
    } else {
      FailedJoins(n, workers, k - 1);
    }
  }

  /** Failing tests are the only reason for a non-zero exit code. */
  function ExitCode(s: State): int {
    if s.main.Finished? && s.main.fail > 0 then 1 else 0
  }

  lemma {:induction false} CountPositiveIff(m: map<nat, Outcome>, r: Outcome, k: nat)
    ensures CountOutcome(m, r, k) > 0 <==> exists i: nat :: i < k && i in m && m[i] == r
  {
    if k > 0 {
      CountPositiveIff(m, r, k - 1);
      assert k - 1 in m && m[k - 1] == r ==> exists i: nat :: i < k && i in m && m[i] == r;
    }
  }

  /** A finished run exits with 1 exactly when some test reported a failure, and with 0
      otherwise. */
  lemma ExitCodeIff(n: nat, workers: nat, actions: seq<Action>)
    requires n + workers < U64_LIMIT && Run(n, workers, actions).Some?
    requires Run(n, workers, actions).value.main.Finished?
    ensures var s := Run(n, workers, actions).value;
            ExitCode(s) == if exists i: nat :: i < n && i in s.reported && s.reported[i] == Failed then 1 else 0
  {
    RunInv(n, workers, actions);
    CountPositiveIff(Run(n, workers, actions).value.reported, Failed, n);
  }

  // ----- every run ends -----

  function WorkerWeight(x: Worker): nat {
    match x
    case NotSpawned => 1
    case SpawnFailed => 0
    case Ready => 1
    case Holding(_) => 3
    case Reporting(_, _) => 2
    case Returned => 0
  }

  function WorkersWeight(workers: seq<Worker>, k: nat): nat
    requires k <= |workers|
  {
    if k == 0 then 0 else WorkersWeight(workers, k - 1) + WorkerWeight(workers[k - 1])
  }

  function MainWeight(main: MainPc, workers: nat): int {
    match main
    case Spawning(at) => 2 * workers - at + 2
    case Joining(at) => workers - at + 1
    case Finished(_, _, _) => 0
  }

  /** An upper bound on the steps that can still be taken. */
  function Remaining(n: nat, s: State): int {
    3 * (n - |s.claims|) + WorkersWeight(s.workers, |s.workers|) + MainWeight(s.main, |s.workers|)
  }

  lemma {:induction false} WeightUpdate(workers: seq<Worker>, w: nat, x: Worker, k: nat)
    requires w < k <= |workers|
    ensures WorkersWeight(workers[w := x], k)
         == WorkersWeight(workers, k) - WorkerWeight(workers[w]) + WorkerWeight(x)
  {
    if w < k - 1 {
      WeightUpdate(workers, w, x, k - 1);
    } else {
      WeightPrefix(workers, w, x, k - 1);
    }
  }

  lemma {:induction false} WeightPrefix(workers: seq<Worker>, w: nat, x: Worker, k: nat)
    requires k <= w < |workers|
    ensures WorkersWeight(workers[w := x], k) == WorkersWeight(workers, k)
  {
    if k > 0 {
      WeightPrefix(workers, w, x, k - 1);
    }
  }

  lemma {:induction false} WeightFresh(workers: nat, k: nat)
    requires k <= workers
    ensures WorkersWeight(Initial(workers).workers, k) == k
  {
    if k > 0 {
      WeightFresh(workers, k - 1);
    }
  }

  lemma StepCosts(n: nat, s: State, a: Action)
    requires Inv(n, s) && Next(n, s, a).Some?
    ensures Remaining(n, Next(n, s, a).value) < Remaining(n, s)
  {
    hide WorkersWeight, OwnershipOk, NextOk, CountersOk;
    var t := Next(n, s, a).value;
    match a
    case Spawn(_) => WeightUpdate(s.workers, s.main.at, t.workers[s.main.at], |s.workers|);
    case FetchIndex(w) => WeightUpdate(s.workers, w, t.workers[w], |s.workers|);
    case RunTest(w, _) => WeightUpdate(s.workers, w, t.workers[w], |s.workers|);
    case Report(w) => WeightUpdate(s.workers, w, t.workers[w], |s.workers|);
    case Join =>
    case Load =>
  }

  /** No run is longer than three steps a test and three a worker, and the two of main. */
  lemma {:induction false} RunsEnd(n: nat, workers: nat, actions: seq<Action>)
    requires n + workers < U64_LIMIT && Run(n, workers, actions).Some?
    ensures |actions| + Remaining(n, Run(n, workers, actions).value) <= 3 * n + 3 * workers + 2
    ensures |actions| <= 3 * n + 3 * workers + 2
  {
    hide Remaining, Inv;
    RunInv(n, workers, actions);
    if actions == [] {
      WeightFresh(workers, workers);
      StartsWithBudget(n, workers);
    } else {
      var before := actions[..|actions| - 1];
      RunsEnd(n, workers, before);
      RunInv(n, workers, before);
      StepCosts(n, Run(n, workers, before).value, actions[|actions| - 1]);
    }
    BudgetLeft(n, Run(n, workers, actions).value);
  }

  lemma StartsWithBudget(n: nat, workers: nat)
    ensures Remaining(n, Initial(workers)) == 3 * n + 3 * workers + 2
  {
    WeightFresh(workers, workers);
  }

  lemma BudgetLeft(n: nat, s: State)
    requires Inv(n, s)
    ensures Remaining(n, s) >= 0
  {
    hide OwnershipOk, NextOk, CountersOk;
  }

  /** The runner cannot get stuck: until main has finished some thread can take a step. */
  lemma NoDeadlock(n: nat, workers: nat, actions: seq<Action>)
    requires n + workers < U64_LIMIT && Run(n, workers, actions).Some?
    ensures var s := Run(n, workers, actions).value;
            !s.main.Finished? ==> exists a :: Next(n, s, a).Some?
  {
    hide Inv;
    RunInv(n, workers, actions);
    if !Run(n, workers, actions).value.main.Finished? {
      SomethingMoves(n, Run(n, workers, actions).value);
    }
  }

  lemma SomethingMoves(n: nat, s: State)
    requires Inv(n, s) && !s.main.Finished?
    ensures exists a :: Next(n, s, a).Some?
  {
    hide OwnershipOk, NextOk, CountersOk;
    match s.main
    case Spawning(at) =>
      assert Next(n, s, if at < |s.workers| then Spawn(true) else Join).Some?;
    case Joining(at) =>
      if at == |s.workers| {
        assert Next(n, s, Load).Some?;
      } else {
        WaitedForMoves(n, s, at);
      }
  }

  lemma WaitedForMoves(n: nat, s: State, at: nat)
    requires Inv(n, s) && s.main == Joining(at) && at < |s.workers|
    ensures exists a :: Next(n, s, a).Some?
  {
    hide OwnershipOk, NextOk, CountersOk;
    var a := match s.workers[at]
      case Ready => FetchIndex(at)
      case Holding(_) => RunTest(at, Passed)
      case Reporting(_, _) => Report(at)
      case _ => Join;
    assert Next(n, s, a).Some?;
  }
}
