/** What running a module records (userspace/src/exec.c, core_exec_module and
    thread_error_handler), independently of who runs it and when. */
module ExecSpec {
  import opened Sequences
  import opened Results

  /** How a test function ends: UNIT_SUCCESS, another status, or a signal. */
  datatype Outcome = Success | Failure | Fault

  /** `storeAlloc` and `recordAlloc` are whether core_add_test_record can
      allocate the store, should there be none yet, and the test's record. */
  datatype Test = Test(fnName: string, caseName: string, level: nat, outcome: Outcome,
                       storeAlloc: bool, recordAlloc: bool)

  /** `containerAlloc` and `probe` are whether the fault-injection container
      can be allocated and whether nvgpu_posix_probe() succeeds. */
  datatype Module = Module(name: string, containerAlloc: bool, probe: bool, tests: seq<Test>)

  predicate Ready(m: Module) {
    m.containerAlloc && m.probe
  }

  function ResultOf(t: Test, lvl: nat): Result {
    if t.level > lvl then Skipped
    else if t.outcome.Success? then Passed
    else Failed
  }

  /** Whether the test is run and ends its thread. */
  predicate Faults(t: Test, lvl: nat) {
    t.level <= lvl && t.outcome.Fault?
  }

  /** The tests up to and including the first that faults. */
  function ReachedIn(tests: seq<Test>, lvl: nat): (n: nat)
    ensures n <= |tests|
  {
    if tests == [] then 0
    else if Faults(tests[0], lvl) then 1
    else 1 + ReachedIn(tests[1..], lvl)
  }

  /** How many tests of a module get as far as a record. */
  function Reached(m: Module, lvl: nat): (n: nat)
    ensures n <= |m.tests|
  {
    if Ready(m) then ReachedIn(m.tests, lvl) else 0
  }

  /** Running the module ends in a signal: it is set up, and some test up to the
      level faults. */
  ghost predicate ModuleFaults(m: Module, lvl: nat) {
    && m.containerAlloc && m.probe
    && exists i :: 0 <= i < |m.tests| && m.tests[i].level <= lvl && m.tests[i].outcome == Fault
  }

  /** The module is set up, and no test up to the level faults before test `i`. */
  ghost predicate Arrives(m: Module, lvl: nat, i: nat) {
    && m.containerAlloc && m.probe && i < |m.tests|
    && forall j :: 0 <= j < i ==> m.tests[j].level > lvl || m.tests[j].outcome != Fault
  }

  /** The result that is recorded for a test: above the level it is not run. */
  ghost predicate EndsIn(t: Test, lvl: nat, r: Result) {
    match r
    case Skipped => t.level > lvl
    case Passed => t.level <= lvl && t.outcome == Success
    case Failed => t.level <= lvl && t.outcome != Success
  }

  lemma ResultMeans(t: Test, lvl: nat, r: Result)
    ensures ResultOf(t, lvl) == r <==> EndsIn(t, lvl, r)
    ensures EndsIn(t, lvl, Skipped) <==> t.level > lvl
    ensures EndsIn(t, lvl, Passed) <==> t.level <= lvl && t.outcome == Success
    ensures EndsIn(t, lvl, Failed) <==> t.level <= lvl && (t.outcome == Failure || t.outcome == Fault)
  {
  }

  ghost predicate NoFaultBefore(tests: seq<Test>, lvl: nat, n: nat) {
    n <= |tests| && forall i :: 0 <= i < n ==> !Faults(tests[i], lvl)
  }

  /** The declarative reading of ReachedIn. */
  lemma {:induction false} ReachedInIs(tests: seq<Test>, lvl: nat, n: nat)
    requires NoFaultBefore(tests, lvl, n)
    ensures n < |tests| ==> ReachedIn(tests, lvl) > n
    ensures n < |tests| && Faults(tests[n], lvl) ==> ReachedIn(tests, lvl) == n + 1
    ensures n == |tests| ==> ReachedIn(tests, lvl) == n
  {
    if n > 0 {
      assert forall i :: 0 <= i < n - 1 ==> tests[1..][i] == tests[i + 1];
      ReachedInIs(tests[1..], lvl, n - 1);
    }
  }

  lemma {:induction false} ReachedNoFault(tests: seq<Test>, lvl: nat, i: nat)
    requires i < ReachedIn(tests, lvl)
    ensures forall j :: 0 <= j < i ==> !Faults(tests[j], lvl)
  {
    if i > 0 {
      ReachedNoFault(tests[1..], lvl, i - 1);
      assert forall j :: 1 <= j < i ==> tests[j] == tests[1..][j - 1];
    }
  }

  /** The tests that get as far as a record; none in a module whose set-up fails. */
  lemma ArrivesMeans(m: Module, lvl: nat, i: nat)
    ensures Arrives(m, lvl, i) <==> i < Reached(m, lvl)
    ensures i < Reached(m, lvl) <==>
              && m.containerAlloc && m.probe && i < |m.tests|
              && forall j :: 0 <= j < i ==> m.tests[j].level > lvl || m.tests[j].outcome != Fault
  {
    if Arrives(m, lvl, i) {
      ReachedInIs(m.tests, lvl, i);
    }
    if i < Reached(m, lvl) {
      ReachedNoFault(m.tests, lvl, i);
    }
  }

  /** Among the first `n` tests of module `k`, the records with result `r`. */
  function Recorded(mods: seq<Module>, k: nat, lvl: nat, n: nat, r: Result): seq<Record>
    requires k < |mods| && n <= |mods[k].tests|
    decreases n
  {
    if n == 0 then []
    else
      var t := mods[k].tests[n - 1];
      var before := Recorded(mods, k, lvl, n - 1, r);
      if ResultOf(t, lvl) == r && t.recordAlloc then before + [Record(k, n - 1, r.Passed?)] else before
  }

  /** The records of module `k`, in order. */
  function Proj(records: seq<Record>, k: nat): seq<Record> {
    if records == [] then []
    else
      var before := Proj(records[..|records| - 1], k);
      var x := records[|records| - 1];
      if x.mod == k then before + [x] else before
  }

  lemma ProjAppend(records: seq<Record>, x: Record, k: nat)
    ensures Proj(records + [x], k) == if x.mod == k then Proj(records, k) + [x] else Proj(records, k)
  {
    assert (records + [x])[..|records|] == records;
  }

  lemma {:induction false} ProjIn(records: seq<Record>, k: nat)
    ensures forall x :: x in Proj(records, k) <==> x in records && x.mod == k
  {
    if records != [] {
      ProjIn(records[..|records| - 1], k);
      assert records == records[..|records| - 1] + [records[|records| - 1]];
    }
  }

  ghost predicate Counts(mods: seq<Module>, counts: seq<nat>) {
    |counts| == |mods| && forall k :: 0 <= k < |mods| ==> counts[k] <= |mods[k].tests|
  }

  /** Some of the first counts[k] tests of some module k could allocate the
      store. */
  ghost predicate Granted(mods: seq<Module>, counts: seq<nat>)
    requires Counts(mods, counts)
  {
    exists k, i :: 0 <= k < |mods| && 0 <= i < counts[k] && mods[k].tests[i].storeAlloc
  }

  /** A record of an existing test. */
  predicate RecordOk(mods: seq<Module>, x: Record) {
    x.mod < |mods| && x.test < |mods[x.mod].tests|
  }

  ghost predicate Lists(mods: seq<Module>, lvl: nat, t: Tally, counts: seq<nat>, r: Result)
    requires Counts(mods, counts)
  {
    && (forall k :: 0 <= k < |mods| ==> Proj(t.Of(r), k) == Recorded(mods, k, lvl, counts[k], r))
    && (forall x :: x in t.Of(r) ==> RecordOk(mods, x))
  }

  ghost predicate Tallied(mods: seq<Module>, lvl: nat, t: Tally, counts: seq<nat>)
    requires Counts(mods, counts)
  {
    && t.Consistent()
    && Lists(mods, lvl, t, counts, Passed)
    && Lists(mods, lvl, t, counts, Failed)
    && Lists(mods, lvl, t, counts, Skipped)
  }

  /** The store when the first counts[k] tests of every module k have called
      core_add_test_record and none was lost: each list holds, of every module,
      the records it should, in order; and the store exists once a call could
      allocate it. */
  ghost predicate Matches(mods: seq<Module>, lvl: nat, store: Option<Tally>, counts: seq<nat>) {
    && Counts(mods, counts)
    && (store.Some? <==> Granted(mods, counts))
    && (store.Some? ==> Tallied(mods, lvl, store.value, counts))
  }

  function Attempt(mods: seq<Module>, lvl: nat, store: Option<Tally>, k: nat, i: nat): Option<Tally>
    requires k < |mods| && i < |mods[k].tests|
  {
    var t := mods[k].tests[i];
    AddRecord(store, k, i, ResultOf(t, lvl), t.storeAlloc, t.recordAlloc)
  }

  lemma ListsStep(mods: seq<Module>, lvl: nat, t: Tally, t': Tally, counts: seq<nat>, k: nat, r: Result)
    requires Counts(mods, counts) && k < |mods| && counts[k] < |mods[k].tests|
    requires Lists(mods, lvl, t, counts, r)
    requires var test := mods[k].tests[counts[k]];
             t'.Of(r) == if ResultOf(test, lvl) == r && test.recordAlloc
                         then t.Of(r) + [Record(k, counts[k], r.Passed?)] else t.Of(r)
    ensures Lists(mods, lvl, t', counts[k := counts[k] + 1], r)
  {
    hide Proj;
    hide Recorded;
    hide ResultOf;
    var list, list', counts' := t.Of(r), t'.Of(r), counts[k := counts[k] + 1];
    forall j | 0 <= j < |mods|
      ensures Proj(list', j) == Recorded(mods, j, lvl, counts'[j], r)
    {
      assert Proj(list, j) == Recorded(mods, j, lvl, counts[j], r);
      ListStep(mods, lvl, list, list', counts[k], k, j, r);
    }
  }

  lemma ListStep(mods: seq<Module>, lvl: nat, list: seq<Record>, list': seq<Record>, n: nat, k: nat, j: nat, r: Result)
    requires k < |mods| && j < |mods| && n < |mods[k].tests|
    requires j == k ==> Proj(list, k) == Recorded(mods, k, lvl, n, r)
    requires var test := mods[k].tests[n];
             list' == if ResultOf(test, lvl) == r && test.recordAlloc
                      then list + [Record(k, n, r.Passed?)] else list
    ensures Proj(list', j) == if j == k then Recorded(mods, k, lvl, n + 1, r) else Proj(list, j)
  {
    ProjAppend(list, Record(k, n, r.Passed?), j);
  }

  lemma TalliedStep(mods: seq<Module>, lvl: nat, t: Tally, t': Tally, counts: seq<nat>, k: nat)
    requires Counts(mods, counts) && k < |mods| && counts[k] < |mods[k].tests|
    requires Tallied(mods, lvl, t, counts)
    requires var test := mods[k].tests[counts[k]];
             t' == if test.recordAlloc
                   then Append(t, Record(k, counts[k], ResultOf(test, lvl).Passed?), ResultOf(test, lvl)) else t
    ensures Tallied(mods, lvl, t', counts[k := counts[k] + 1])
  {
    ListsStep(mods, lvl, t, t', counts, k, Passed);
    ListsStep(mods, lvl, t, t', counts, k, Failed);
    ListsStep(mods, lvl, t, t', counts, k, Skipped);
  }

  /** Each record that can be allocated finds a store, whatever the other
      modules have done: the store could be allocated for that test or for one
      before it in its module. */
  ghost predicate StoreReady(mods: seq<Module>, lvl: nat) {
    forall k, i :: 0 <= k < |mods| && 0 <= i < Reached(mods[k], lvl) && mods[k].tests[i].recordAlloc ==>
      Backed(mods[k].tests, i + 1)
  }

  /** The store could be allocated for one of the first `n` tests. */
  ghost predicate Backed(tests: seq<Test>, n: nat)
    requires n <= |tests|
  {
    exists j :: 0 <= j < n && tests[j].storeAlloc
  }

  lemma BackedStep(tests: seq<Test>, n: nat)
    requires n < |tests|
    ensures Backed(tests, n + 1) <==> Backed(tests, n) || tests[n].storeAlloc
  {
  }

  lemma {:induction false} NothingRecorded(mods: seq<Module>, k: nat, lvl: nat, n: nat, r: Result)
    requires k < |mods| && n <= |mods[k].tests|
    requires forall i :: 0 <= i < n ==> !mods[k].tests[i].recordAlloc
    ensures Recorded(mods, k, lvl, n, r) == []
  {
    if n > 0 {
      NothingRecorded(mods, k, lvl, n - 1, r);
    }
  }

  /** While no call could allocate the store there was nothing to record. */
  lemma EmptyTallied(mods: seq<Module>, lvl: nat, counts: seq<nat>)
    requires Counts(mods, counts) && StoreReady(mods, lvl) && !Granted(mods, counts)
    requires forall k :: 0 <= k < |mods| ==> counts[k] <= Reached(mods[k], lvl)
    ensures Tallied(mods, lvl, EMPTY_TALLY, counts)
  {
    forall k, r: Result | 0 <= k < |mods|
      ensures Recorded(mods, k, lvl, counts[k], r) == []
    {
      assert forall i :: 0 <= i < counts[k] ==> !mods[k].tests[i].storeAlloc;
      forall i | 0 <= i < counts[k]
        ensures !mods[k].tests[i].recordAlloc
      {
        assert !Backed(mods[k].tests, i + 1);
      }
      NothingRecorded(mods, k, lvl, counts[k], r);
    }
  }

  lemma GrantedStep(mods: seq<Module>, counts: seq<nat>, k: nat)
    requires Counts(mods, counts) && k < |mods| && counts[k] < |mods[k].tests|
    ensures Counts(mods, counts[k := counts[k] + 1])
    ensures Granted(mods, counts[k := counts[k] + 1])
            <==> Granted(mods, counts) || mods[k].tests[counts[k]].storeAlloc
  {
    var counts' := counts[k := counts[k] + 1];
    if mods[k].tests[counts[k]].storeAlloc {
      assert counts[k] < counts'[k];
    }
    if Granted(mods, counts) {
      var j, i :| 0 <= j < |mods| && 0 <= i < counts[j] && mods[j].tests[i].storeAlloc;
      assert i < counts'[j];
    }
    if Granted(mods, counts') && !mods[k].tests[counts[k]].storeAlloc {
      var j, i :| 0 <= j < |mods| && 0 <= i < counts'[j] && mods[j].tests[i].storeAlloc;
      assert i < counts[j];
    }
  }

  /** One more test recorded, by whatever thread. */
  lemma AttemptMatches(mods: seq<Module>, lvl: nat, store: Option<Tally>, counts: seq<nat>, k: nat)
    requires StoreReady(mods, lvl) && Matches(mods, lvl, store, counts)
    requires forall j :: 0 <= j < |mods| ==> counts[j] <= Reached(mods[j], lvl)
    requires k < |mods| && counts[k] < Reached(mods[k], lvl)
    ensures Matches(mods, lvl, Attempt(mods, lvl, store, k, counts[k]), counts[k := counts[k] + 1])
  {
    GrantedStep(mods, counts, k);
    var after := Attempt(mods, lvl, store, k, counts[k]);
    if after.Some? {
      if store.None? {
        EmptyTallied(mods, lvl, counts);
      }
      hide Granted;
      hide Tallied;
      hide StoreReady;
      hide Reached;
      var t := if store.Some? then store.value else EMPTY_TALLY;
      TalliedStep(mods, lvl, t, after.value, counts, k);
    }
  }

  lemma {:induction false} ProjTimes(records: seq<Record>, x: Record)
    ensures multiset(records)[x] == multiset(Proj(records, x.mod))[x]
  {
    if records != [] {
      var before, last := records[..|records| - 1], records[|records| - 1];
      assert records == before + [last];
      ProjTimes(before, x);
    }
  }

  lemma SameSize(a: seq<Record>, b: seq<Record>)
    requires multiset(a) == multiset(b)
    ensures |a| == |b|
  {
    assert |a| == |multiset(a)| && |b| == |multiset(b)|;
  }

  lemma SameTimes(mods: seq<Module>, a: seq<Record>, b: seq<Record>, x: Record)
    requires forall y :: y in a ==> RecordOk(mods, y)
    requires forall y :: y in b ==> RecordOk(mods, y)
    requires x.mod < |mods| ==> Proj(a, x.mod) == Proj(b, x.mod)
    ensures multiset(a)[x] == multiset(b)[x]
  {
    hide Proj;
    ProjTimes(a, x);
    ProjTimes(b, x);
    if x.mod >= |mods| {
      assert x !in a && x !in b;
    }
  }

  lemma SameProjections(mods: seq<Module>, a: seq<Record>, b: seq<Record>)
    requires forall x :: x in a ==> RecordOk(mods, x)
    requires forall x :: x in b ==> RecordOk(mods, x)
    requires forall k :: 0 <= k < |mods| ==> Proj(a, k) == Proj(b, k)
    ensures multiset(a) == multiset(b) && |a| == |b|
  {
    hide Proj;
    hide RecordOk;
    forall x: Record
      ensures multiset(a)[x] == multiset(b)[x]
    {
      SameTimes(mods, a, b, x);
    }
    assert multiset(a) == multiset(b);
    SameSize(a, b);
  }

  /** The same records as multisets, and the same counters. */
  predicate SameRecords(a: Option<Tally>, b: Option<Tally>) {
    match (a, b)
    case (None, None) => true
    case (Some(t), Some(u)) =>
      && multiset(t.passing) == multiset(u.passing)
      && multiset(t.failing) == multiset(u.failing)
      && multiset(t.skipped) == multiset(u.skipped)
      && t.nrTests == u.nrTests && t.nrPassing == u.nrPassing && t.nrSkipped == u.nrSkipped
    case _ => false
  }

  /** The work determines the store but for the order across modules. */
  lemma SameWorkSameRecords(mods: seq<Module>, lvl: nat, a: Option<Tally>, b: Option<Tally>, counts: seq<nat>)
    requires Matches(mods, lvl, a, counts) && Matches(mods, lvl, b, counts)
    ensures SameRecords(a, b)
  {
    if a.Some? {
      var t, u := a.value, b.value;
      hide Proj;
      hide Recorded;
      hide RecordOk;
      SameProjections(mods, t.Of(Passed), u.Of(Passed));
      SameProjections(mods, t.Of(Failed), u.Of(Failed));
      SameProjections(mods, t.Of(Skipped), u.Of(Skipped));
    }
  }

  /** What holds of the store whatever could be allocated. */
  ghost predicate Sane(mods: seq<Module>, store: Option<Tally>) {
    store.Some? ==>
      && store.value.Consistent()
      && (forall x :: x in store.value.passing ==> RecordOk(mods, x))
      && (forall x :: x in store.value.failing ==> RecordOk(mods, x))
      && (forall x :: x in store.value.skipped ==> RecordOk(mods, x))
  }

  lemma AttemptSane(mods: seq<Module>, lvl: nat, store: Option<Tally>, k: nat, i: nat)
    requires Sane(mods, store) && k < |mods| && i < |mods[k].tests|
    ensures Sane(mods, Attempt(mods, lvl, store, k, i))
  {
  }

  lemma RecordedStep(mods: seq<Module>, k: nat, lvl: nat, n: nat, r: Result)
    requires k < |mods| && n < |mods[k].tests|
    ensures var t := mods[k].tests[n];
            Recorded(mods, k, lvl, n + 1, r) == Recorded(mods, k, lvl, n, r)
            + if ResultOf(t, lvl) == r && t.recordAlloc then [Record(k, n, r.Passed?)] else []
  {
  }

  /** Recorded is exact: it has test `i` iff `i` is among the first `n`, ended
      in `r` and got its record; and it has them in test order, once each. */
  lemma {:induction false} RecordedExactly(mods: seq<Module>, k: nat, lvl: nat, n: nat, r: Result)
    requires k < |mods| && n <= |mods[k].tests|
    ensures var list := Recorded(mods, k, lvl, n, r);
            && (forall x :: x in list <==>
                  x.mod == k && x.test < n && x.status == (r == Passed)
                  && EndsIn(mods[k].tests[x.test], lvl, r) && mods[k].tests[x.test].recordAlloc)
            && (forall i, j :: 0 <= i < j < |list| ==> list[i].test < list[j].test)
  {
    if n > 0 {
      hide ResultOf;
      hide EndsIn;
      RecordedExactly(mods, k, lvl, n - 1, r);
      RecordedStep(mods, k, lvl, n - 1, r);
      ResultMeans(mods[k].tests[n - 1], lvl, r);
      var before := Recorded(mods, k, lvl, n - 1, r);
      hide Recorded;
      assert forall i :: 0 <= i < |before| ==> before[i] in before;
    }
  }

  function AllReached(mods: seq<Module>, lvl: nat): seq<nat> {
    seq(|mods|, k requires 0 <= k < |mods| => Reached(mods[k], lvl))
  }
}
