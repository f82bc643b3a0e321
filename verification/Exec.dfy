/** The multi-threaded harness (userspace/src/exec.c) as a state machine whose
    steps are those of the main thread and of one worker per module, and its
    invariant over every interleaving. */
module Exec {
  import opened Sequences
  import opened Results
  import opened ExecSpec

  /** `threads` is args->thread_count, the semaphore's initial value. */
  datatype Config = Config(mods: seq<Module>, lvl: nat, threads: nat)

  /** Where the worker of a module is: not created; about to set up; about to
      take test i; holding the result of test i, about to lock the mutex;
      about to post the semaphore at thread_exit, or in the signal handler;
      gone. */
  datatype Worker = Idle | Setup | Next(i: nat) | Recording(i: nat) | Exiting | Handling | Done

  /** Main waits on the semaphore for module k, creates its thread, joins it. */
  datatype MainThread = Waiting(k: nat) | Creating(k: nat) | Joining(k: nat) | Finished

  datatype State = State(main: MainThread, permits: nat, workers: seq<Worker>, store: Option<Tally>)

  datatype Action = MainStep | WorkerStep(k: nat)

  function Initial(c: Config): State {
    State(Waiting(0), c.threads, seq(|c.mods|, _ => Idle), None)
  }

  predicate Active(w: Worker) {
    !w.Idle? && !w.Done?
  }

  predicate Enabled(c: Config, s: State, a: Action) {
    |s.workers| == |c.mods| &&
    match a
    case MainStep => (
      match s.main
      case Waiting(k) => k >= |c.mods| || s.permits > 0
      case Creating(k) => k < |c.mods|
      case Joining(k) => k >= |c.mods| || s.workers[k].Done?
      case Finished => false)
    case WorkerStep(k) =>
      k < |c.mods| && Active(s.workers[k]) &&
      match s.workers[k]
      case Next(i) => i <= |c.mods[k].tests|
      case Recording(i) => i < |c.mods[k].tests|
      case _ => true
  }

  function StepMain(c: Config, s: State): State
    requires Enabled(c, s, MainStep)
  {
    match s.main
    case Waiting(k) =>
      if k >= |c.mods| then s.(main := Joining(0)) else s.(main := Creating(k), permits := s.permits - 1)
    case Creating(k) => s.(main := Waiting(k + 1), workers := s.workers[k := Setup])
    case Joining(k) => if k >= |c.mods| then s.(main := Finished) else s.(main := Joining(k + 1))
  }

  /** core_exec_module, and thread_error_handler after a fault. */
  function StepWorker(c: Config, s: State, k: nat): State
    requires Enabled(c, s, WorkerStep(k))
  {
    var tests := c.mods[k].tests;
    match s.workers[k]
    case Setup => s.(workers := s.workers[k := if Ready(c.mods[k]) then Next(0) else Exiting])
    case Next(i) => s.(workers := s.workers[k := if i == |tests| then Exiting else Recording(i)])
    case Recording(i) =>
      s.(store := Attempt(c.mods, c.lvl, s.store, k, i),
         workers := s.workers[k := if Faults(tests[i], c.lvl) then Handling else Next(i + 1)])
    case Exiting => s.(permits := s.permits + 1, workers := s.workers[k := Done])
    case Handling => s.(permits := s.permits + 1, workers := s.workers[k := Done])
  }

  function Step(c: Config, s: State, a: Action): State
    requires Enabled(c, s, a)
  {
    match a
    case MainStep => StepMain(c, s)
    case WorkerStep(k) => StepWorker(c, s, k)
  }

  // ----- the invariant -----

  function CountActive(ws: seq<Worker>): (n: nat)
    ensures n <= |ws|
  {
    if ws == [] then 0 else CountActive(ws[..|ws| - 1]) + if Active(ws[|ws| - 1]) then 1 else 0
  }

  /** The permit main holds between sem_wait and pthread_create. */
  function Held(m: MainThread): nat {
    if m.Creating? then 1 else 0
  }

  /** How many threads main has created. */
  function Created(c: Config, m: MainThread): nat {
    match m
    case Waiting(k) => k
    case Creating(k) => k
    case _ => |c.mods|
  }

  ghost predicate WorkerOk(c: Config, k: nat, w: Worker)
    requires k < |c.mods|
  {
    var m := c.mods[k];
    match w
    case Next(i) => Ready(m) && NoFaultBefore(m.tests, c.lvl, i)
    case Recording(i) => Ready(m) && i < |m.tests| && NoFaultBefore(m.tests, c.lvl, i)
    case Exiting => !ModuleFaults(m, c.lvl)
    case Handling => ModuleFaults(m, c.lvl)
    case _ => true
  }

  /** How many tests of module `k` have been recorded. */
  function Progress(c: Config, k: nat, w: Worker): nat
    requires k < |c.mods|
  {
    match w
    case Idle => 0
    case Setup => 0
    case Next(i) => i
    case Recording(i) => i
    case Exiting => Reached(c.mods[k], c.lvl)
    case Handling => Reached(c.mods[k], c.lvl)
    case Done => Reached(c.mods[k], c.lvl)
  }

  function Progresses(c: Config, ws: seq<Worker>): (counts: seq<nat>)
    requires |ws| == |c.mods|
    ensures |counts| == |ws| && forall k :: 0 <= k < |ws| ==> counts[k] == Progress(c, k, ws[k])
  {
    seq(|ws|, k requires 0 <= k < |ws| => Progress(c, k, ws[k]))
  }

  ghost predicate MainOk(c: Config, s: State)
    requires |s.workers| == |c.mods|
  {
    && (match s.main
        case Waiting(k) => k <= |c.mods|
        case Creating(k) => k < |c.mods|
        case Joining(k) => k <= |c.mods| && forall j :: 0 <= j < k ==> s.workers[j].Done?
        case Finished => forall j :: 0 <= j < |c.mods| ==> s.workers[j].Done?)
    && (forall j :: 0 <= j < |c.mods| ==> (s.workers[j].Idle? <==> j >= Created(c, s.main)))
  }

  ghost predicate Inv(c: Config, s: State) {
    && |s.workers| == |c.mods|
    && MainOk(c, s)
    // the semaphore protocol
    && s.permits + CountActive(s.workers) + Held(s.main) == c.threads
    && (forall k :: 0 <= k < |c.mods| ==> WorkerOk(c, k, s.workers[k]))
    && Sane(c.mods, s.store)
    && (StoreReady(c.mods, c.lvl) ==> Matches(c.mods, c.lvl, s.store, Progresses(c, s.workers)))
  }

  lemma {:induction false} CountActiveUpdate(ws: seq<Worker>, k: nat, w: Worker)
    requires k < |ws|
    ensures CountActive(ws[k := w]) + (if Active(ws[k]) then 1 else 0)
            == CountActive(ws) + if Active(w) then 1 else 0
  {
    var n := |ws| - 1;
    if k == n {
      assert ws[k := w][..n] == ws[..n];
    } else {
      assert ws[k := w][..n] == ws[..n][k := w];
      CountActiveUpdate(ws[..n], k, w);
    }
  }

  lemma {:induction false} CountActiveZero(ws: seq<Worker>)
    ensures CountActive(ws) == 0 <==> forall k :: 0 <= k < |ws| ==> !Active(ws[k])
  {
    if ws != [] {
      CountActiveZero(ws[..|ws| - 1]);
    }
  }

  lemma InitialInv(c: Config)
    ensures Inv(c, Initial(c))
  {
    CountActiveZero(Initial(c).workers);
  }

  lemma ProgressSame(c: Config, ws: seq<Worker>, k: nat, w: Worker)
    requires |ws| == |c.mods| && k < |ws| && Progress(c, k, w) == Progress(c, k, ws[k])
    ensures Progresses(c, ws[k := w]) == Progresses(c, ws)
  {
  }

  lemma CreatingKeepsMain(c: Config, s: State)
    requires Inv(c, s) && s.main.Creating?
    ensures var s' := StepMain(c, s);
            MainOk(c, s') && s'.permits + CountActive(s'.workers) + Held(s'.main) == c.threads
  {
    CountActiveUpdate(s.workers, s.main.k, Setup);
  }

  lemma MainKeepsMain(c: Config, s: State)
    requires Inv(c, s) && Enabled(c, s, MainStep)
    ensures var s' := StepMain(c, s);
            && |s'.workers| == |c.mods|
            && MainOk(c, s')
            && s'.permits + CountActive(s'.workers) + Held(s'.main) == c.threads
  {
    if s.main.Creating? {
      CreatingKeepsMain(c, s);
    }
  }

  lemma MainKeepsInv(c: Config, s: State)
    requires Inv(c, s) && Enabled(c, s, MainStep)
    ensures Inv(c, StepMain(c, s))
  {
    MainKeepsMain(c, s);
    if s.main.Creating? {
      ProgressSame(c, s.workers, s.main.k, Setup);
    }
  }

  lemma ProgressReached(c: Config, k: nat, w: Worker)
    requires k < |c.mods| && WorkerOk(c, k, w)
    ensures Progress(c, k, w) <= Reached(c.mods[k], c.lvl)
    ensures w.Recording? ==> w.i < Reached(c.mods[k], c.lvl)
  {
    match w
    case Next(i) => ReachedInIs(c.mods[k].tests, c.lvl, i);
    case Recording(i) => ReachedInIs(c.mods[k].tests, c.lvl, i);
    case _ =>
  }

  lemma RecordingKeepsMatch(c: Config, s: State, k: nat)
    requires Inv(c, s) && k < |c.mods| && s.workers[k].Recording? && StoreReady(c.mods, c.lvl)
    ensures var s' := StepWorker(c, s, k);
            Matches(c.mods, c.lvl, s'.store, Progresses(c, s'.workers))
  {
    hide Matches;
    var i := s.workers[k].i;
    var counts := Progresses(c, s.workers);
    forall j | 0 <= j < |c.mods|
      ensures counts[j] <= Reached(c.mods[j], c.lvl)
    {
      ProgressReached(c, j, s.workers[j]);
    }
    ProgressReached(c, k, s.workers[k]);
    AttemptMatches(c.mods, c.lvl, s.store, counts, k);
    WorkerKeepsOk(c, s, k);
    assert Progresses(c, StepWorker(c, s, k).workers) == counts[k := i + 1];
  }

  /** A worker's own step: what it may rely on next, and that the recorded
      count grows only when it records. */
  lemma WorkerKeepsOk(c: Config, s: State, k: nat)
    requires |s.workers| == |c.mods| && Enabled(c, s, WorkerStep(k)) && WorkerOk(c, k, s.workers[k])
    ensures var w, w' := s.workers[k], StepWorker(c, s, k).workers[k];
            && WorkerOk(c, k, w')
            && Progress(c, k, w') == Progress(c, k, w) + if w.Recording? then 1 else 0
  {
    var tests := c.mods[k].tests;
    match s.workers[k]
    case Next(i) => ReachedInIs(tests, c.lvl, i);
    case Recording(i) => ReachedInIs(tests, c.lvl, i);
    case _ =>
  }

  lemma WorkerKeepsMatch(c: Config, s: State, k: nat)
    requires Inv(c, s) && Enabled(c, s, WorkerStep(k))
    ensures var s' := StepWorker(c, s, k);
            && Sane(c.mods, s'.store)
            && (StoreReady(c.mods, c.lvl) ==> Matches(c.mods, c.lvl, s'.store, Progresses(c, s'.workers)))
  {
    if s.workers[k].Recording? {
      AttemptSane(c.mods, c.lvl, s.store, k, s.workers[k].i);
      hide Sane;
      if StoreReady(c.mods, c.lvl) {
        RecordingKeepsMatch(c, s, k);
      }
    } else {
      hide Sane;
      WorkerKeepsOk(c, s, k);
      ProgressSame(c, s.workers, k, StepWorker(c, s, k).workers[k]);
    }
  }

  /** A worker's step takes back no permit and creates or revives no worker. */
  lemma WorkerKeepsMain(c: Config, s: State, k: nat)
    requires Inv(c, s) && Enabled(c, s, WorkerStep(k))
    ensures var s' := StepWorker(c, s, k);
            && MainOk(c, s')
            && s'.permits + CountActive(s'.workers) + Held(s'.main) == c.threads
  {
    CountActiveUpdate(s.workers, k, StepWorker(c, s, k).workers[k]);
  }

  lemma WorkerKeepsInv(c: Config, s: State, k: nat)
    requires Inv(c, s) && Enabled(c, s, WorkerStep(k))
    ensures Inv(c, StepWorker(c, s, k))
  {
    WorkerKeepsMatch(c, s, k);
    WorkerKeepsMain(c, s, k);
    WorkerKeepsOk(c, s, k);
    var s' := StepWorker(c, s, k);
    assert forall j :: 0 <= j < |c.mods| && j != k ==> s'.workers[j] == s.workers[j];
  }

  /** Every step of every thread keeps the invariant. */
  lemma StepKeepsInv(c: Config, s: State, a: Action)
    requires Inv(c, s) && Enabled(c, s, a)
    ensures Inv(c, Step(c, s, a))
  {
    match a
    case MainStep => MainKeepsInv(c, s);
    case WorkerStep(k) => WorkerKeepsInv(c, s, k);
  }

  // ----- progress -----

  /** A worker that is created and not gone can always take its next step. */
  lemma WorkerEnabled(c: Config, s: State, k: nat)
    requires Inv(c, s) && k < |c.mods|
    ensures Enabled(c, s, WorkerStep(k)) <==> Active(s.workers[k])
  {
  }

  /** No deadlock: unless main has finished, some thread can step; main is only
      ever held up by a worker that can. */
  lemma SomeEnabled(c: Config, s: State)
    requires Inv(c, s) && c.threads >= 1 && !s.main.Finished?
    ensures Enabled(c, s, MainStep) || exists k :: 0 <= k < |c.mods| && Enabled(c, s, WorkerStep(k))
  {
    if !Enabled(c, s, MainStep) {
      var k: nat;
      if s.main.Joining? {
        k := s.main.k;
      } else {
        CountActiveZero(s.workers);
        k :| 0 <= k < |s.workers| && Active(s.workers[k]);
      }
      WorkerEnabled(c, s, k);
    }
  }

  function WorkerSteps(c: Config, k: nat, w: Worker): nat
    requires k < |c.mods|
  {
    var n := |c.mods[k].tests|;
    match w
    case Idle => 2 * n + 4
    case Setup => 2 * n + 3
    case Next(i) => if i <= n then 2 * (n - i) + 2 else 0
    case Recording(i) => if i < n then 2 * (n - i) + 1 else 0
    case Exiting => 1
    case Handling => 1
    case Done => 0
  }

  function WorkersSteps(c: Config, ws: seq<Worker>): nat
    requires |ws| <= |c.mods|
  {
    if ws == [] then 0
    else WorkersSteps(c, ws[..|ws| - 1]) + WorkerSteps(c, |ws| - 1, ws[|ws| - 1])
  }

  function MainSteps(c: Config, m: MainThread): nat {
    var n := |c.mods|;
    match m
    case Waiting(k) => if k <= n then 2 * (n - k) + n + 3 else 0
    case Creating(k) => if k < n then 2 * (n - k) + n + 2 else 0
    case Joining(k) => if k <= n then n - k + 2 else 0
    case Finished => 0
  }

  /** The number of steps left, whatever the schedule. */
  function StepsLeft(c: Config, s: State): nat
    requires |s.workers| == |c.mods|
  {
    MainSteps(c, s.main) + WorkersSteps(c, s.workers)
  }

  lemma {:induction false} WorkersStepsUpdate(c: Config, ws: seq<Worker>, k: nat, w: Worker)
    requires k < |ws| <= |c.mods|
    ensures WorkersSteps(c, ws[k := w]) + WorkerSteps(c, k, ws[k])
            == WorkersSteps(c, ws) + WorkerSteps(c, k, w)
  {
    var n := |ws| - 1;
    if k == n {
      assert ws[k := w][..n] == ws[..n];
    } else {
      assert ws[k := w][..n] == ws[..n][k := w];
      WorkersStepsUpdate(c, ws[..n], k, w);
    }
  }

  lemma WorkerStepDecreases(c: Config, s: State, k: nat)
    requires Inv(c, s) && Enabled(c, s, WorkerStep(k))
    ensures WorkerSteps(c, k, StepWorker(c, s, k).workers[k]) < WorkerSteps(c, k, s.workers[k])
  {
  }

  /** Every run ends: each step uses up at least one of the steps left. */
  lemma StepDecreases(c: Config, s: State, a: Action)
    requires Inv(c, s) && Enabled(c, s, a)
    ensures |Step(c, s, a).workers| == |c.mods|
    ensures StepsLeft(c, Step(c, s, a)) < StepsLeft(c, s)
  {
    match a
    case MainStep =>
      if s.main.Creating? {
        WorkersStepsUpdate(c, s.workers, s.main.k, Setup);
      }
    case WorkerStep(k) =>
      WorkerStepDecreases(c, s, k);
      WorkersStepsUpdate(c, s.workers, k, StepWorker(c, s, k).workers[k]);
  }

  // ----- whole runs -----

  /** `states` are the states of a run that starts at the beginning and takes
      `actions`. */
  ghost predicate IsRun(c: Config, states: seq<State>, actions: seq<Action>) {
    && |states| == |actions| + 1
    && states[0] == Initial(c)
    && forall i :: 0 <= i < |actions| ==>
         Enabled(c, states[i], actions[i]) && states[i + 1] == Step(c, states[i], actions[i])
  }

  lemma {:induction false} RunInv(c: Config, states: seq<State>, actions: seq<Action>, n: nat)
    requires IsRun(c, states, actions) && n < |states|
    ensures Inv(c, states[n])
    ensures n + StepsLeft(c, states[n]) <= StepsLeft(c, Initial(c))
  {
    if n == 0 {
      InitialInv(c);
    } else {
      RunInv(c, states, actions, n - 1);
      StepKeepsInv(c, states[n - 1], actions[n - 1]);
      StepDecreases(c, states[n - 1], actions[n - 1]);
    }
  }

  /** The semaphore protocol in every state of every run: permits, the one main
      holds and the workers that have not posted add up to the initial value,
      so no more workers than that are between creation and post; and no run
      is longer than StepsLeft(Initial) or stuck before main has finished. */
  lemma RunProtocol(c: Config, states: seq<State>, actions: seq<Action>, n: nat)
    requires IsRun(c, states, actions) && n < |states| && c.threads >= 1
    ensures var s := states[n];
            && s.permits + CountActive(s.workers) + Held(s.main) == c.threads
            && CountActive(s.workers) <= c.threads
            && (s.main.Finished? || Enabled(c, s, MainStep)
                || exists k :: 0 <= k < |c.mods| && Enabled(c, s, WorkerStep(k)))
            && n <= StepsLeft(c, Initial(c))
  {
    RunInv(c, states, actions, n);
    if !states[n].main.Finished? {
      SomeEnabled(c, states[n]);
    }
  }

  /** The tallies in every state of every run. */
  lemma RunTallies(c: Config, states: seq<State>, actions: seq<Action>, n: nat)
    requires IsRun(c, states, actions) && n < |states|
    ensures states[n].store.Some? ==>
              var t := states[n].store.value;
              t.Consistent() && t.nrTests - t.nrPassing - t.nrSkipped == |t.failing|
  {
    RunInv(c, states, actions, n);
  }

  /** How often the worker of module `k` posts the semaphore from `site` in the
      first `n` steps. */
  function Posts(states: seq<State>, actions: seq<Action>, k: nat, site: Worker, n: nat): nat
    requires n <= |actions| && n <= |states|
  {
    if n == 0 then 0
    else Posts(states, actions, k, site, n - 1)
         + if actions[n - 1] == WorkerStep(k) && k < |states[n - 1].workers| && states[n - 1].workers[k] == site
           then 1 else 0
  }

  /** A worker is gone once it has posted, and where it posts says whether its
      module faulted. */
  lemma PostStep(c: Config, s: State, a: Action, k: nat)
    requires Inv(c, s) && Enabled(c, s, a) && k < |c.mods|
    ensures |Step(c, s, a).workers| == |c.mods|
    ensures var w, w' := s.workers[k], Step(c, s, a).workers[k];
            && (w'.Done? <==> w.Done? || (a == WorkerStep(k) && (w.Exiting? || w.Handling?)))
            && (w.Done? ==> a != WorkerStep(k))
            && (w.Exiting? ==> !ModuleFaults(c.mods[k], c.lvl))
            && (w.Handling? ==> ModuleFaults(c.mods[k], c.lvl))
  {
    hide Sane;
    hide Matches;
    hide ModuleFaults;
  }

  /** Each thread posts exactly once: in the signal handler if one of its tests
      faults, and otherwise at thread_exit, set-up failures included. */
  lemma {:induction false} PostsOnce(c: Config, states: seq<State>, actions: seq<Action>, k: nat, n: nat)
    requires IsRun(c, states, actions) && n < |states| && k < |c.mods|
    ensures |states[n].workers| == |c.mods|
    ensures Posts(states, actions, k, Exiting, n)
            == if states[n].workers[k].Done? && !ModuleFaults(c.mods[k], c.lvl) then 1 else 0
    ensures Posts(states, actions, k, Handling, n)
            == if states[n].workers[k].Done? && ModuleFaults(c.mods[k], c.lvl) then 1 else 0
  {
    if n > 0 {
      PostsOnce(c, states, actions, k, n - 1);
      RunInv(c, states, actions, n - 1);
      PostStep(c, states[n - 1], actions[n - 1], k);
      hide Inv;
      hide Step;
      hide Enabled;
      hide ModuleFaults;
    }
  }

  /** When main has finished, every semaphore permit is back and the store has
      exactly the records of every module's reached tests. */
  lemma FinishedMatches(c: Config, s: State)
    requires Inv(c, s) && s.main.Finished?
    ensures StoreReady(c.mods, c.lvl) ==> Matches(c.mods, c.lvl, s.store, AllReached(c.mods, c.lvl))
    ensures s.permits == c.threads
  {
    assert Progresses(c, s.workers) == AllReached(c.mods, c.lvl);
    CountActiveZero(s.workers);
  }

  /** Any two finished runs over the same modules, whatever their schedules and
      numbers of threads, recorded the same. */
  lemma RunsRecordAlike(c: Config, states: seq<State>, actions: seq<Action>,
                        d: Config, states': seq<State>, actions': seq<Action>)
    requires IsRun(c, states, actions) && states[|actions|].main.Finished?
    requires IsRun(d, states', actions') && states'[|actions'|].main.Finished?
    requires c.mods == d.mods && c.lvl == d.lvl && StoreReady(c.mods, c.lvl)
    ensures SameRecords(states[|actions|].store, states'[|actions'|].store)
  {
    var s, s' := states[|actions|], states'[|actions'|];
    RunInv(c, states, actions, |actions|);
    RunInv(d, states', actions', |actions'|);
    FinishedMatches(c, s);
    FinishedMatches(d, s');
    hide Matches;
    SameWorkSameRecords(c.mods, c.lvl, s.store, s'.store, AllReached(c.mods, c.lvl));
  }
}
