/** The whole harness: main's code, its exit code as a function of the modules
    and the command line, and what that code says about the tests. */
module Harness {
  import opened Sequences
  import opened Results
  import opened ExecSpec
  import opened Exec
  import opened ExecRun
  import opened RequiredTests
  import opened IniParser
  import opened Verdict

  /** What running the modules in order leaves. */
  lemma StoreOk(mods: seq<Module>, lvl: nat)
    ensures var store := StoreAfter(mods, lvl, |mods|);
            && Sane(mods, store)
            && (StoreReady(mods, lvl) ==> Matches(mods, lvl, store, AllReached(mods, lvl)))
  {
    StoreAfterSane(mods, lvl, |mods|);
    if StoreReady(mods, lvl) {
      StoreAfterMatches(mods, lvl, |mods|);
      assert CountsAfter(mods, lvl, |mods|) == AllReached(mods, lvl);
    }
  }

  /** main's verdict on all the modules' records, taken in module order. */
  function InOrderVerdict(mods: seq<Module>, args: Args): int {
    StoreOk(mods, args.lvl);
    MainVerdict(mods, args, StoreAfter(mods, args.lvl, |mods|))
  }

  /** How the process ends: main or the handler exits, or the handler itself
      faults.  Having recorded the failure, the handler prints the results,
      which it reads through fw->results without a test for NULL. */
  datatype Status = Exit(code: int) | HandlerFaulted

  /** How many modules one thread gets to, from module `k` on: up to and
      including the first that faults. */
  ghost function Ran(mods: seq<Module>, lvl: nat, k: nat): (n: nat)
    requires k <= |mods|
    ensures n <= |mods|
    decreases |mods| - k
  {
    if k == |mods| then k else if ModuleFaults(mods[k], lvl) then k + 1 else Ran(mods, lvl, k + 1)
  }

  lemma {:induction false} RanIs(mods: seq<Module>, lvl: nat, k: nat, n: nat)
    requires k < n <= |mods| && ModuleFaults(mods[n - 1], lvl)
    requires forall j :: k <= j < n - 1 ==> !ModuleFaults(mods[j], lvl)
    ensures Ran(mods, lvl, k) == n
    decreases n - k
  {
    if k + 1 < n {
      RanIs(mods, lvl, k + 1, n);
    }
  }

  /** With one thread a signal ends the process from the handler. */
  ghost function ExitStatus(mods: seq<Module>, args: Args): Status {
    if args.threads == 1 && AnyFaults(mods, args.lvl) then
      if StoreAfter(mods, args.lvl, Ran(mods, args.lvl, 0)).None? then HandlerFaulted else Exit(-1)
    else Exit(InOrderVerdict(mods, args))
  }

  /** Among the first `n` modules some test was reached for which the store could
      be allocated. */
  ghost predicate StoreBy(mods: seq<Module>, lvl: nat, n: nat)
    requires n <= |mods|
  {
    exists k, i: nat :: 0 <= k < n && Arrives(mods[k], lvl, i) && mods[k].tests[i].storeAlloc
  }

  lemma BackedMeans(m: Module, lvl: nat)
    ensures Backed(m.tests, Reached(m, lvl)) <==> exists i: nat :: Arrives(m, lvl, i) && m.tests[i].storeAlloc
  {
    hide Reached;
    if Backed(m.tests, Reached(m, lvl)) {
      var i :| 0 <= i < Reached(m, lvl) && m.tests[i].storeAlloc;
      ArrivesMeans(m, lvl, i);
    }
    if i: nat :| Arrives(m, lvl, i) && m.tests[i].storeAlloc {
      ArrivesMeans(m, lvl, i);
    }
  }

  lemma {:induction false} StoreAtExists(mods: seq<Module>, lvl: nat, store: Option<Tally>, k: nat, n: nat)
    requires k < |mods| && n <= |mods[k].tests|
    ensures StoreAt(mods, lvl, store, k, n).Some? <==> store.Some? || Backed(mods[k].tests, n)
  {
    if n > 0 {
      StoreAtExists(mods, lvl, store, k, n - 1);
      BackedStep(mods[k].tests, n - 1);
      hide Backed;
    }
  }

  lemma {:induction false} StoreAfterExists(mods: seq<Module>, lvl: nat, n: nat)
    requires n <= |mods|
    ensures StoreAfter(mods, lvl, n).Some? <==> StoreBy(mods, lvl, n)
  {
    if n > 0 {
      StoreAfterExists(mods, lvl, n - 1);
      StoreAtExists(mods, lvl, StoreAfter(mods, lvl, n - 1), n - 1, Reached(mods[n - 1], lvl));
      BackedMeans(mods[n - 1], lvl);
      hide Backed;
      hide Arrives;
      hide Reached;
    }
  }

  /** The handler faults exactly when a test does and no test so far, that one
      included, could allocate the store. */
  lemma HandlerFaultsWhen(mods: seq<Module>, args: Args)
    ensures ExitStatus(mods, args) == HandlerFaulted <==>
              args.threads == 1 && AnyFaults(mods, args.lvl) && !StoreBy(mods, args.lvl, Ran(mods, args.lvl, 0))
  {
    StoreAfterExists(mods, args.lvl, Ran(mods, args.lvl, 0));
  }

  /** Schedule independence: every run of the threads that main sees the end of
      gives the same verdict, and that is the one of running the modules in
      order, whatever the number of threads. */
  lemma ScheduleIndependence(mods: seq<Module>, args: Args, states: seq<State>, actions: seq<Action>)
    requires Unambiguous(mods, args) && StoreReady(mods, args.lvl)
    requires IsRun(Config(mods, args.lvl, args.threads), states, actions)
    requires states[|actions|].main.Finished?
    ensures var store := states[|actions|].store;
            && (store.Some? ==> forall x :: x in store.value.passing ==> RecordOk(mods, x))
            && MainVerdict(mods, args, store) == InOrderVerdict(mods, args)
  {
    var c := Config(mods, args.lvl, args.threads);
    var s := states[|actions|];
    RunInv(c, states, actions, |actions|);
    FinishedMatches(c, s);
    StoreOk(mods, args.lvl);
    SameWorkSameVerdict(mods, args, s.store, StoreAfter(mods, args.lvl, |mods|), AllReached(mods, args.lvl));
  }

  // ----- the code -----

  /** check_executed_tests' input, read off the passing list. */
  method PassingKeys(mods: seq<Module>, passing: seq<Record>) returns (keys: seq<Key>)
    requires forall x :: x in passing ==> RecordOk(mods, x)
    ensures keys == Keys(mods, passing)
  {
    keys := [];
    var i := 0;
    while i < |passing|
      invariant 0 <= i <= |passing|
      invariant keys == Keys(mods, passing[..i])
    {
      assert passing[..i + 1][..i] == passing[..i] && passing[i] in passing;
      keys := keys + [KeyOf(mods, passing[i])];
      i := i + 1;
    }
    assert passing[..i] == passing;
  }

  /** main from the result check on. */
  method Judge(fw: UnitFw, mods: seq<Module>, args: Args) returns (code: int)
    requires fw.Valid()
    requires fw.results != null ==> forall x :: x in fw.results.passing.items ==> RecordOk(mods, x)
    ensures code == MainVerdict(mods, args, fw.Value())
  {
    if fw.results == null {
      return -1;
    }
    if fw.results.nrTests - fw.results.nrPassing - fw.results.nrSkipped != 0 {
      return -1;
    }
    if args.unitToRun {
      return -2;
    }
    if args.required.Some? {
      var list := new RequiredList();
      var ret := ParseReqFile(list, args.required.value, args.room);
      if ret != 0 {
        return -1;
      }
      var passing := fw.results.passing.Walk();
      var keys := PassingKeys(mods, passing);
      var missing := list.CheckExecutedTests(keys, args.lvl);
      if missing != 0 {
        return -1;
      }
    }
    return 0;
  }

  /** core_exec and the rest of main, for a command line that was accepted and
      modules that were loaded.  The scheduler of RunThreaded is arbitrary. */
  method UnitMain(mods: seq<Module>, args: Args) returns (status: Status)
    requires args.threads >= 1
    ensures args.threads == 1 || (Unambiguous(mods, args) && StoreReady(mods, args.lvl)) ==>
              status == ExitStatus(mods, args)
    ensures status.Exit? ==> status.code == 0 || status.code == -1 || status.code == -2
    ensures status.HandlerFaulted? ==> args.threads == 1
  {
    hide Matches;
    var fw := new UnitFw();
    ghost var counts := AllReached(mods, args.lvl);
    StoreOk(mods, args.lvl);
    if args.threads == 1 {
      var exited, ran := RunSequential(fw, mods, args.lvl);
      if exited {
        // thread_error_handler: core_print_test_status, exit(-1)
        RanIs(mods, args.lvl, 0, ran);
        return if fw.results == null then HandlerFaulted else Exit(-1);
      }
    } else {
      RunThreaded(fw, Config(mods, args.lvl, args.threads));
      if Unambiguous(mods, args) && StoreReady(mods, args.lvl) {
        SameWorkSameVerdict(mods, args, fw.Value(), StoreAfter(mods, args.lvl, |mods|), counts);
      }
    }
    var code := Judge(fw, mods, args);
    status := Exit(code);
  }

  // ----- what the exit code says -----

  /** A record that belongs in the list of result `r`: of a test that is arrived
      at, ends in `r` and gets its record. */
  ghost predicate Registered(mods: seq<Module>, lvl: nat, x: Record, r: Result) {
    && x.mod < |mods| && Arrives(mods[x.mod], lvl, x.test)
    && EndsIn(mods[x.mod].tests[x.test], lvl, r) && mods[x.mod].tests[x.test].recordAlloc
    && x.status == (r == Passed)
  }

  /** Some test was recorded as failed. */
  ghost predicate FailureRecorded(mods: seq<Module>, lvl: nat) {
    exists x :: Registered(mods, lvl, x, Failed)
  }

  /** Some module gets to a test for which the store could be allocated. */
  ghost predicate SomethingKept(mods: seq<Module>, lvl: nat) {
    exists k, i: nat :: 0 <= k < |mods| && Arrives(mods[k], lvl, i) && mods[k].tests[i].storeAlloc
  }

  /** A test "fn_name.case_name" passed in a module of that name, and was
      recorded. */
  ghost predicate PassedTest(mods: seq<Module>, lvl: nat, key: Key) {
    exists x :: Registered(mods, lvl, x, Passed) && key.unit == mods[x.mod].name
                && key.name == mods[x.mod].tests[x.test].fnName + "." + mods[x.mod].tests[x.test].caseName
  }

  lemma RecordedIn(mods: seq<Module>, lvl: nat, records: seq<Record>, r: Result)
    requires forall x :: x in records ==> RecordOk(mods, x)
    requires forall k :: 0 <= k < |mods| ==> Proj(records, k) == Recorded(mods, k, lvl, Reached(mods[k], lvl), r)
    ensures forall x :: x in records <==> Registered(mods, lvl, x, r)
  {
    forall x: Record
      ensures x in records <==> Registered(mods, lvl, x, r)
    {
      if x.mod < |mods| {
        ArrivesMeans(mods[x.mod], lvl, x.test);
        ProjIn(records, x.mod);
        assert x in records <==> x in Proj(records, x.mod);
        RecordedExactly(mods, x.mod, lvl, Reached(mods[x.mod], lvl), r);
      }
    }
  }

  lemma KeptMeans(mods: seq<Module>, lvl: nat)
    ensures Granted(mods, AllReached(mods, lvl)) <==> SomethingKept(mods, lvl)
  {
    hide Reached;
    if Granted(mods, AllReached(mods, lvl)) {
      var k, i :| 0 <= k < |mods| && 0 <= i < Reached(mods[k], lvl) && mods[k].tests[i].storeAlloc;
      ArrivesMeans(mods[k], lvl, i);
    }
    if SomethingKept(mods, lvl) {
      var k, i: nat :| 0 <= k < |mods| && Arrives(mods[k], lvl, i) && mods[k].tests[i].storeAlloc;
      ArrivesMeans(mods[k], lvl, i);
      assert i < AllReached(mods, lvl)[k];
    }
  }

  /** The store main judges: when there is one, which tests are in its lists, and
      what the subtraction says. */
  lemma InOrderLists(mods: seq<Module>, lvl: nat)
    requires StoreReady(mods, lvl)
    ensures var store := StoreAfter(mods, lvl, |mods|);
            && (store.Some? <==> SomethingKept(mods, lvl))
            && (store.Some? ==>
                  && (forall x :: x in store.value.passing ==> RecordOk(mods, x))
                  && (forall x :: x in store.value.passing <==> Registered(mods, lvl, x, Passed))
                  && (forall x :: x in store.value.failing <==> Registered(mods, lvl, x, Failed))
                  && (forall x :: x in store.value.skipped <==> Registered(mods, lvl, x, Skipped))
                  && (store.value.nrTests - store.value.nrPassing - store.value.nrSkipped == 0
                      <==> !FailureRecorded(mods, lvl)))
  {
    hide Matches;
    hide Recorded;
    hide StoreAfter;
    hide Registered;
    hide Granted;
    hide SomethingKept;
    var store, counts := StoreAfter(mods, lvl, |mods|), AllReached(mods, lvl);
    StoreOk(mods, lvl);
    MatchesLists(mods, lvl, store, counts);
    KeptMeans(mods, lvl);
    if store.Some? {
      RecordedIn(mods, lvl, store.value.passing, Passed);
      RecordedIn(mods, lvl, store.value.failing, Failed);
      RecordedIn(mods, lvl, store.value.skipped, Skipped);
      var failing := store.value.failing;
      assert failing != [] ==> failing[0] in failing;
    }
  }

  // ----- the required tests, by outcomes -----

  /** The records of the tests that passed in the first `n` modules. */
  function PassedRecords(mods: seq<Module>, lvl: nat, n: nat): seq<Record>
    requires n <= |mods|
    decreases n
  {
    if n == 0 then []
    else PassedRecords(mods, lvl, n - 1) + Recorded(mods, n - 1, lvl, Reached(mods[n - 1], lvl), Passed)
  }

  function PassingOf(store: Option<Tally>): seq<Record> {
    if store.Some? then store.value.passing else []
  }

  lemma {:induction false} StoreAtPassing(mods: seq<Module>, lvl: nat, store: Option<Tally>, k: nat, n: nat)
    requires StoreReady(mods, lvl) && k < |mods| && n <= Reached(mods[k], lvl)
    ensures PassingOf(StoreAt(mods, lvl, store, k, n)) == PassingOf(store) + Recorded(mods, k, lvl, n, Passed)
  {
    if n > 0 {
      var i, before := n - 1, StoreAt(mods, lvl, store, k, n - 1);
      assert StoreAt(mods, lvl, store, k, n) == Attempt(mods, lvl, before, k, i);
      StoreThere(mods, lvl, store, k, i);
      StoreAtPassing(mods, lvl, store, k, i);
      RecordedStep(mods, k, lvl, i, Passed);
      StepPassing(mods, lvl, before, k, i);
      hide StoreAt;
      hide Recorded;
      hide Attempt;
      hide PassingOf;
      hide StoreReady;
      hide Reached;
    }
  }

  /** A record that can be allocated finds a store. */
  lemma StoreThere(mods: seq<Module>, lvl: nat, store: Option<Tally>, k: nat, i: nat)
    requires StoreReady(mods, lvl) && k < |mods| && i < Reached(mods[k], lvl)
    ensures var t := mods[k].tests[i];
            t.recordAlloc ==> StoreAt(mods, lvl, store, k, i).Some? || t.storeAlloc
  {
    StoreAtExists(mods, lvl, store, k, i);
    assert mods[k].tests[i].recordAlloc ==> Backed(mods[k].tests, i + 1);
    BackedStep(mods[k].tests, i);
  }

  lemma StepPassing(mods: seq<Module>, lvl: nat, store: Option<Tally>, k: nat, i: nat)
    requires k < |mods| && i < |mods[k].tests|
    ensures var t := mods[k].tests[i];
            && (Attempt(mods, lvl, store, k, i).Some? <==> store.Some? || t.storeAlloc)
            && PassingOf(Attempt(mods, lvl, store, k, i)) == PassingOf(store)
               + if (store.Some? || t.storeAlloc) && t.recordAlloc && ResultOf(t, lvl).Passed?
                 then [Record(k, i, true)] else []
  {
  }

  /** In module order the passing list is the passed tests in module order. */
  lemma {:induction false} StoreAfterPassing(mods: seq<Module>, lvl: nat, n: nat)
    requires n <= |mods| && StoreReady(mods, lvl)
    ensures PassingOf(StoreAfter(mods, lvl, n)) == PassedRecords(mods, lvl, n)
  {
    if n > 0 {
      StoreAfterPassing(mods, lvl, n - 1);
      StoreAtPassing(mods, lvl, StoreAfter(mods, lvl, n - 1), n - 1, Reached(mods[n - 1], lvl));
    }
  }

  lemma {:induction false} PassedOk(mods: seq<Module>, lvl: nat, n: nat)
    requires n <= |mods|
    ensures forall x :: x in PassedRecords(mods, lvl, n) ==> RecordOk(mods, x)
  {
    if n > 0 {
      PassedOk(mods, lvl, n - 1);
      RecordedExactly(mods, n - 1, lvl, Reached(mods[n - 1], lvl), Passed);
    }
  }

  /** The file of required tests cannot be opened, cannot be parsed, has more
      lines than can be kept, or asks for a test at or below the level that the
      tests which passed, in module order, do not cancel. */
  ghost predicate RequirementUnmet(mods: seq<Module>, args: Args) {
    match args.required
    case None => false
    case Some(None) => true
    case Some(Some(text)) =>
      PassedOk(mods, args.lvl, |mods|);
      var p := ParseFile(text);
      !p.ok || Nodes(p.units) > args.room
      || Missing(p.units, Keys(mods, PassedRecords(mods, args.lvl, |mods|)), args.lvl) != 0
  }

  // ----- one thread or several -----

  /** Success, for any file: nothing ended the only thread, there is a store, no
      failure was recorded, no single unit was asked for, and no required test
      is unmet. */
  lemma SuccessMeans(mods: seq<Module>, args: Args)
    requires StoreReady(mods, args.lvl)
    ensures ExitStatus(mods, args) == Exit(0) <==>
              && (args.threads == 1 ==> !AnyFaults(mods, args.lvl))
              && SomethingKept(mods, args.lvl)
              && !FailureRecorded(mods, args.lvl)
              && !args.unitToRun
              && !RequirementUnmet(mods, args)
  {
    InOrderLists(mods, args.lvl);
    StoreAfterPassing(mods, args.lvl, |mods|);
    hide StoreReady;
    hide FailureRecorded;
    hide SomethingKept;
    hide StoreAfter;
  }

  /** Whether main or the handler ends the process with exit(-1): there is no
      store to judge, or a failure in it, or no single unit was asked for and
      required tests are unmet, or the only thread faults and there is a store
      to print. */
  lemma FailureMeans(mods: seq<Module>, args: Args)
    requires StoreReady(mods, args.lvl)
    ensures ExitStatus(mods, args) == Exit(-1) <==>
              if args.threads == 1 && AnyFaults(mods, args.lvl) then
                StoreBy(mods, args.lvl, Ran(mods, args.lvl, 0))
              else
                || !SomethingKept(mods, args.lvl)
                || FailureRecorded(mods, args.lvl)
                || (!args.unitToRun && RequirementUnmet(mods, args))
  {
    InOrderLists(mods, args.lvl);
    StoreAfterPassing(mods, args.lvl, |mods|);
    HandlerFaultsWhen(mods, args);
    hide StoreReady;
    hide FailureRecorded;
    hide SomethingKept;
    hide StoreAfter;
    hide StoreBy;
  }

  /** ... and with -2: all is well but that a single unit was asked for. */
  lemma SubsetMeans(mods: seq<Module>, args: Args)
    requires StoreReady(mods, args.lvl)
    ensures ExitStatus(mods, args) == Exit(-2) <==>
              && (args.threads == 1 ==> !AnyFaults(mods, args.lvl))
              && SomethingKept(mods, args.lvl)
              && !FailureRecorded(mods, args.lvl)
              && args.unitToRun
  {
    InOrderLists(mods, args.lvl);
    hide StoreReady;
    hide FailureRecorded;
    hide SomethingKept;
    hide StoreAfter;
  }

  /** A run of the threads that main sees the end of gives what one thread
      gives exactly when nothing faults, or the handler has a store to print and
      main notices that something else is wrong: a failure that was recorded, or
      required tests unmet.  A fault whose record could not be allocated is
      noticed by the single-threaded handler only. */
  lemma ThreadCountMatters(mods: seq<Module>, args: Args, states: seq<State>, actions: seq<Action>)
    requires Unambiguous(mods, args) && StoreReady(mods, args.lvl)
    requires IsRun(Config(mods, args.lvl, args.threads), states, actions)
    requires states[|actions|].main.Finished?
    ensures var store := states[|actions|].store;
            && (store.Some? ==> forall x :: x in store.value.passing ==> RecordOk(mods, x))
            && (Exit(MainVerdict(mods, args, store)) == ExitStatus(mods, args.(threads := 1)) <==>
                  || !AnyFaults(mods, args.lvl)
                  || (&& StoreBy(mods, args.lvl, Ran(mods, args.lvl, 0))
                      && (|| FailureRecorded(mods, args.lvl)
                          || (!args.unitToRun && RequirementUnmet(mods, args)))))
  {
    ScheduleIndependence(mods, args, states, actions);
    InOrderLists(mods, args.lvl);
    StoreAfterPassing(mods, args.lvl, |mods|);
    StoreAfterExists(mods, args.lvl, Ran(mods, args.lvl, 0));
    StoreAfterExists(mods, args.lvl, |mods|);
    hide Unambiguous;
    hide StoreReady;
    hide IsRun;
    hide FailureRecorded;
  }

  lemma {:induction false} FirstFault(tests: seq<Test>, lvl: nat) returns (i: nat)
    requires exists j :: 0 <= j < |tests| && Faults(tests[j], lvl)
    ensures i < |tests| && Faults(tests[i], lvl) && NoFaultBefore(tests, lvl, i)
  {
    i := 0;
    while !Faults(tests[i], lvl)
      invariant i < |tests| && NoFaultBefore(tests, lvl, i)
      invariant exists j :: i <= j < |tests| && Faults(tests[j], lvl)
      decreases |tests| - i
    {
      i := i + 1;
    }
  }

  /** So the number of threads does not matter when the records of faulting
      tests can be allocated. */
  lemma ThreadCountIrrelevant(mods: seq<Module>, args: Args, states: seq<State>, actions: seq<Action>)
    requires Unambiguous(mods, args) && StoreReady(mods, args.lvl)
    requires IsRun(Config(mods, args.lvl, args.threads), states, actions)
    requires states[|actions|].main.Finished?
    requires forall k, i :: 0 <= k < |mods| && 0 <= i < |mods[k].tests| && Faults(mods[k].tests[i], args.lvl)
                            ==> mods[k].tests[i].recordAlloc
    ensures var store := states[|actions|].store;
            && (store.Some? ==> forall x :: x in store.value.passing ==> RecordOk(mods, x))
            && Exit(MainVerdict(mods, args, store)) == ExitStatus(mods, args.(threads := 1))
  {
    if AnyFaults(mods, args.lvl) {
      FaultNoticed(mods, args.lvl);
    }
    hide FailureRecorded;
    hide StoreBy;
    hide AnyFaults;
    hide StoreReady;
    hide IsRun;
    ThreadCountMatters(mods, args, states, actions);
  }

  lemma FaultNoticed(mods: seq<Module>, lvl: nat)
    requires AnyFaults(mods, lvl) && StoreReady(mods, lvl)
    requires forall k, i :: 0 <= k < |mods| && 0 <= i < |mods[k].tests| && Faults(mods[k].tests[i], lvl)
                            ==> mods[k].tests[i].recordAlloc
    ensures FailureRecorded(mods, lvl) && StoreBy(mods, lvl, Ran(mods, lvl, 0))
  {
    var k := FirstFaulting(mods, lvl);
    var i := FirstFault(mods[k].tests, lvl);
    ReachedInIs(mods[k].tests, lvl, i);
    ArrivesMeans(mods[k], lvl, i);
    assert Registered(mods, lvl, Record(k, i, false), Failed);
    RanIs(mods, lvl, 0, k + 1);
    assert Backed(mods[k].tests, i + 1);
    BackedMeans(mods[k], lvl);
  }

  lemma FirstFaulting(mods: seq<Module>, lvl: nat) returns (k: nat)
    requires AnyFaults(mods, lvl)
    ensures k < |mods| && ModuleFaults(mods[k], lvl) && forall j :: 0 <= j < k ==> !ModuleFaults(mods[j], lvl)
  {
    hide ModuleFaults;
    k := 0;
    while !ModuleFaults(mods[k], lvl)
      invariant k < |mods| && forall j :: 0 <= j < k ==> !ModuleFaults(mods[j], lvl)
      invariant exists j :: k <= j < |mods| && ModuleFaults(mods[j], lvl)
      decreases |mods| - k
    {
      k := k + 1;
    }
  }

  /** One test that faults and whose record cannot be allocated: -1 with one
      thread, success with two. */
  lemma LostFault()
    ensures var mods := [Module("m", true, true, [Test("f", "c", 0, Fault, true, false)])];
            && StoreReady(mods, 0)
            && ExitStatus(mods, Args(0, 1, false, None, 0)) == Exit(-1)
            && ExitStatus(mods, Args(0, 2, false, None, 0)) == Exit(0)
  {
    var t := Test("f", "c", 0, Fault, true, false);
    var m := Module("m", true, true, [t]);
    var mods := [m];
    assert Faults(m.tests[0], 0) && ModuleFaults(mods[0], 0);
    assert Reached(m, 0) == 1;
    assert !FailureRecorded(mods, 0);
    InOrderLists(mods, 0);
    assert Arrives(mods[0], 0, 0) && mods[0].tests[0].storeAlloc;
    assert StoreBy(mods, 0, 1);
    HandlerFaultsWhen(mods, Args(0, 1, false, None, 0));
  }
}
