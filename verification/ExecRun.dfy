/** The code of userspace/src/exec.c: core_exec_module run directly when there
    is one thread, and the semaphore-gated workers under any scheduler when
    there are more, both writing to the shared result store. */
module ExecRun {
  import opened Sequences
  import opened Results
  import opened ExecSpec
  import opened Exec

  ghost predicate AnyFaults(mods: seq<Module>, lvl: nat) {
    exists k :: 0 <= k < |mods| && ModuleFaults(mods[k], lvl)
  }

  ghost predicate NoneFaults(mods: seq<Module>, lvl: nat, n: nat)
    requires n <= |mods|
  {
    forall j :: 0 <= j < n ==> !ModuleFaults(mods[j], lvl)
  }

  /** What has been recorded when the first `n` modules have run. */
  function CountsAfter(mods: seq<Module>, lvl: nat, n: nat): seq<nat> {
    seq(|mods|, j requires 0 <= j < |mods| => if j < n then Reached(mods[j], lvl) else 0)
  }

  /** The store after the first `n` tests of module `k`, one thread doing it. */
  function StoreAt(mods: seq<Module>, lvl: nat, store: Option<Tally>, k: nat, n: nat): Option<Tally>
    requires k < |mods| && n <= |mods[k].tests|
    decreases n
  {
    if n == 0 then store else Attempt(mods, lvl, StoreAt(mods, lvl, store, k, n - 1), k, n - 1)
  }

  /** The store after the first `n` modules. */
  function StoreAfter(mods: seq<Module>, lvl: nat, n: nat): Option<Tally>
    requires n <= |mods|
    decreases n
  {
    if n == 0 then None
    else StoreAt(mods, lvl, StoreAfter(mods, lvl, n - 1), n - 1, Reached(mods[n - 1], lvl))
  }

  lemma {:induction false} StoreAtMatches(mods: seq<Module>, lvl: nat, store: Option<Tally>, k: nat, n: nat,
                                          counts: seq<nat>)
    requires k < |mods| == |counts| && n <= |mods[k].tests|
    requires Matches(mods, lvl, store, counts) && counts[k] == 0
    requires StoreReady(mods, lvl) && n <= Reached(mods[k], lvl)
    requires forall j :: 0 <= j < |mods| ==> counts[j] <= Reached(mods[j], lvl)
    ensures Matches(mods, lvl, StoreAt(mods, lvl, store, k, n), counts[k := n])
  {
    hide Matches;
    if n == 0 {
      assert counts[k := 0] == counts;
    } else {
      var before: nat := n - 1;
      StoreAtMatches(mods, lvl, store, k, before, counts);
      AttemptMatches(mods, lvl, StoreAt(mods, lvl, store, k, before), counts[k := before], k);
      assert counts[k := before][k := n] == counts[k := n];
    }
  }

  lemma CountsAfterStep(mods: seq<Module>, lvl: nat, n: nat)
    requires n < |mods|
    ensures CountsAfter(mods, lvl, n + 1) == CountsAfter(mods, lvl, n)[n := Reached(mods[n], lvl)]
  {
  }

  /** Running the modules one after the other is one of the orders in which the
      records may come. */
  lemma {:induction false} StoreAfterMatches(mods: seq<Module>, lvl: nat, n: nat)
    requires n <= |mods| && StoreReady(mods, lvl)
    ensures Matches(mods, lvl, StoreAfter(mods, lvl, n), CountsAfter(mods, lvl, n))
  {
    if n > 0 {
      var k := n - 1;
      StoreAfterMatches(mods, lvl, k);
      StoreAtMatches(mods, lvl, StoreAfter(mods, lvl, k), k, Reached(mods[k], lvl), CountsAfter(mods, lvl, k));
      CountsAfterStep(mods, lvl, k);
    }
  }

  lemma {:induction false} StoreAtSane(mods: seq<Module>, lvl: nat, store: Option<Tally>, k: nat, n: nat)
    requires k < |mods| && n <= |mods[k].tests| && Sane(mods, store)
    ensures Sane(mods, StoreAt(mods, lvl, store, k, n))
  {
    if n > 0 {
      hide Sane;
      StoreAtSane(mods, lvl, store, k, n - 1);
      AttemptSane(mods, lvl, StoreAt(mods, lvl, store, k, n - 1), k, n - 1);
    }
  }

  lemma {:induction false} StoreAfterSane(mods: seq<Module>, lvl: nat, n: nat)
    requires n <= |mods|
    ensures Sane(mods, StoreAfter(mods, lvl, n))
  {
    if n > 0 {
      StoreAfterSane(mods, lvl, n - 1);
      StoreAtSane(mods, lvl, StoreAfter(mods, lvl, n - 1), n - 1, Reached(mods[n - 1], lvl));
    }
  }

  /** core_exec_module in the main thread; `faulted` is that a signal arrived
      and the handler's exit(-1) follows. */
  method ExecModule(fw: UnitFw, mods: seq<Module>, lvl: nat, k: nat) returns (faulted: bool)
    requires k < |mods| && fw.Valid()
    modifies fw, fw.repr
    ensures fw.Valid() && fresh(fw.repr - old(fw.repr))
    ensures fw.Value() == StoreAt(mods, lvl, old(fw.Value()), k, Reached(mods[k], lvl))
    ensures faulted <==> ModuleFaults(mods[k], lvl)
    ensures !mods[k].containerAlloc || !mods[k].probe ==> fw.Value() == old(fw.Value()) && !faulted
  {
    hide UnitFw.Valid;
    hide UnitFw.Value;
    var m := mods[k];
    faulted := false;
    if !m.containerAlloc || !m.probe {
      return;
    }
    var i := 0;
    while i < |m.tests|
      invariant !faulted && NoFaultBefore(m.tests, lvl, i)
      invariant fw.Valid() && fresh(fw.repr - old(fw.repr))
      invariant fw.Value() == StoreAt(mods, lvl, old(fw.Value()), k, i)
    {
      faulted := RunTest(fw, mods, lvl, k, i);
      if faulted {
        ReachedInIs(m.tests, lvl, i);
        return;
      }
      i := i + 1;
    }
    ReachedInIs(m.tests, lvl, i);
  }

  /** The body of the test loop. */
  method RunTest(fw: UnitFw, mods: seq<Module>, lvl: nat, k: nat, i: nat) returns (faulted: bool)
    requires k < |mods| && i < |mods[k].tests| && fw.Valid()
    modifies fw, fw.repr
    ensures fw.Valid() && fresh(fw.repr - old(fw.repr))
    ensures fw.Value() == Attempt(mods, lvl, old(fw.Value()), k, i)
    ensures faulted <==> mods[k].tests[i].level <= lvl && mods[k].tests[i].outcome == Fault
    ensures var t := mods[k].tests[i];
            fw.Value() == AddRecord(old(fw.Value()), k, i,
                                    if t.level > lvl then Skipped else if t.outcome == Success then Passed else Failed,
                                    t.storeAlloc, t.recordAlloc)
  {
    var t := mods[k].tests[i];
    if t.level > lvl {
      var _ := fw.AddTestRecord(k, i, Skipped, t.storeAlloc, t.recordAlloc);
      return false;
    }
    if t.outcome.Fault? {
      // thread_error_handler
      var _ := fw.AddTestRecord(k, i, Failed, t.storeAlloc, t.recordAlloc);
      return true;
    }
    var _ := fw.AddTestRecord(k, i, if t.outcome.Success? then Passed else Failed, t.storeAlloc, t.recordAlloc);
    return false;
  }

  /** run_modules with one thread: the modules in order, until one exits. */
  method RunSequential(fw: UnitFw, mods: seq<Module>, lvl: nat) returns (exited: bool, ran: nat)
    requires fw.Valid() && fw.Value() == None
    modifies fw, fw.repr
    ensures fw.Valid() && fresh(fw.repr - old(fw.repr))
    ensures ran <= |mods| && fw.Value() == StoreAfter(mods, lvl, ran)
    ensures exited <==> AnyFaults(mods, lvl)
    ensures !exited ==> ran == |mods|
    ensures exited ==> ran > 0 && ModuleFaults(mods[ran - 1], lvl) && NoneFaults(mods, lvl, ran - 1)
  {
    hide UnitFw.Valid;
    hide UnitFw.Value;
    ran := 0;
    while ran < |mods|
      invariant 0 <= ran <= |mods|
      invariant fw.Valid() && fresh(fw.repr - old(fw.repr))
      invariant fw.Value() == StoreAfter(mods, lvl, ran)
      invariant NoneFaults(mods, lvl, ran)
    {
      exited := ExecModule(fw, mods, lvl, ran);
      ran := ran + 1;
      if exited {
        return;
      }
    }
    exited := false;
  }

  /** run_modules and the joins of core_exec with several threads, under any
      scheduler: whichever thread can step may be the next to do so.  Every
      such run ends, with the records of every module's reached tests unless
      some were lost for want of the store. */
  method RunThreaded(fw: UnitFw, c: Config)
    requires fw.Valid() && fw.Value() == None && c.threads >= 1
    modifies fw, fw.repr
    ensures fw.Valid() && fresh(fw.repr - old(fw.repr))
    ensures Sane(c.mods, fw.Value())
    ensures StoreReady(c.mods, c.lvl) ==> Matches(c.mods, c.lvl, fw.Value(), AllReached(c.mods, c.lvl))
  {
    var main, permits := Waiting(0), c.threads;
    var workers := seq(|c.mods|, _ => Idle);
    InitialInv(c);
    while !main.Finished?
      invariant fw.Valid() && fresh(fw.repr - old(fw.repr))
      invariant Inv(c, State(main, permits, workers, fw.Value()))
      decreases StepsLeft(c, State(main, permits, workers, fw.Value()))
    {
      main, permits, workers := Turn(fw, c, main, permits, workers);
    }
    FinishedMatches(c, State(main, permits, workers, fw.Value()));
  }

  /** One step of some thread that can take one. */
  method Turn(fw: UnitFw, c: Config, main: MainThread, permits: nat, workers: seq<Worker>)
    returns (main': MainThread, permits': nat, workers': seq<Worker>)
    requires fw.Valid() && c.threads >= 1 && !main.Finished?
    requires Inv(c, State(main, permits, workers, fw.Value()))
    modifies fw, fw.repr
    ensures fw.Valid() && fresh(fw.repr - old(fw.repr))
    ensures Inv(c, State(main', permits', workers', fw.Value()))
    ensures StepsLeft(c, State(main', permits', workers', fw.Value()))
            < StepsLeft(c, old(State(main, permits, workers, fw.Value())))
  {
    ghost var s := State(main, permits, workers, fw.Value());
    SomeEnabled(c, s);
    main', permits', workers' := main, permits, workers;
    if {
      case MainCanStep(c, main, permits, workers) =>
        StepKeepsInv(c, s, MainStep);
        StepDecreases(c, s, MainStep);
        main', permits', workers' := MainTurn(c, main, permits, workers);
      case exists k :: 0 <= k < |c.mods| && Active(workers[k]) =>
        var k :| 0 <= k < |c.mods| && Active(workers[k]);
        WorkerEnabled(c, s, k);
        StepKeepsInv(c, s, WorkerStep(k));
        StepDecreases(c, s, WorkerStep(k));
        permits', workers' := WorkerTurn(fw, c, k, main, permits, workers);
    }
  }

  /** One turn of the main thread. */
  method MainTurn(c: Config, main: MainThread, permits: nat, workers: seq<Worker>)
    returns (main': MainThread, permits': nat, workers': seq<Worker>)
    requires |workers| == |c.mods| && MainCanStep(c, main, permits, workers)
    ensures forall store :: State(main', permits', workers', store) == StepMain(c, State(main, permits, workers, store))
  {
    main', permits', workers' := main, permits, workers;
    match main
    case Waiting(k) =>
      if k >= |c.mods| {
        main' := Joining(0);
      } else {
        // sem_wait
        permits' := permits - 1;
        main' := Creating(k);
      }
    case Creating(k) =>
      // pthread_create
      workers' := workers[k := Setup];
      main' := Waiting(k + 1);
    case Joining(k) =>
      // pthread_join
      main' := if k >= |c.mods| then Finished else Joining(k + 1);
  }

  /** One turn of the worker of module `k`. */
  method WorkerTurn(fw: UnitFw, c: Config, k: nat, ghost main: MainThread, permits: nat, workers: seq<Worker>)
    returns (permits': nat, workers': seq<Worker>)
    requires fw.Valid() && |workers| == |c.mods|
    requires Enabled(c, State(main, permits, workers, fw.Value()), WorkerStep(k))
    modifies fw, fw.repr
    ensures fw.Valid() && fresh(fw.repr - old(fw.repr))
    ensures State(main, permits', workers', fw.Value())
            == StepWorker(c, State(main, permits, workers, old(fw.Value())), k)
  {
    permits', workers' := permits, workers;
    var m := c.mods[k];
    match workers[k]
    case Setup =>
      workers' := workers[k := if m.containerAlloc && m.probe then Next(0) else Exiting];
    case Next(i) =>
      workers' := workers[k := if i == |m.tests| then Exiting else Recording(i)];
    case Recording(i) =>
      var t := m.tests[i];
      var _ := fw.AddTestRecord(k, i, ResultOf(t, c.lvl), t.storeAlloc, t.recordAlloc);
      workers' := workers[k := if Faults(t, c.lvl) then Handling else Next(i + 1)];
    case Exiting =>
      // thread_exit: sem_post
      permits' := permits + 1;
      workers' := workers[k := Done];
    case Handling =>
      // thread_error_handler: sem_post and pthread_exit
      permits' := permits + 1;
      workers' := workers[k := Done];
  }

  predicate MainCanStep(c: Config, main: MainThread, permits: nat, workers: seq<Worker>)
    requires |workers| == |c.mods|
  {
    match main
    case Waiting(k) => k >= |c.mods| || permits > 0
    case Creating(k) => k < |c.mods|
    case Joining(k) => k >= |c.mods| || workers[k].Done?
    case Finished => false
  }
}
