/** Building runs of the threads: every run can be brought to an end, and
    records can be lost for want of the store exactly when the tests allow it. */
module Runs {
  import opened Sequences
  import opened Results
  import opened ExecSpec
  import opened Exec

  datatype Trace = Trace(states: seq<State>, actions: seq<Action>)

  ghost predicate IsTrace(c: Config, t: Trace) {
    IsRun(c, t.states, t.actions)
  }

  function Now(t: Trace): State
    requires t.states != []
  {
    t.states[|t.states| - 1]
  }

  lemma Extend(c: Config, t: Trace, a: Action) returns (r: Trace)
    requires IsTrace(c, t) && Enabled(c, Now(t), a)
    ensures IsTrace(c, r) && Now(r) == Step(c, Now(t), a)
  {
    r := Trace(t.states + [Step(c, Now(t), a)], t.actions + [a]);
    forall i | 0 <= i < |r.actions|
      ensures Enabled(c, r.states[i], r.actions[i]) && r.states[i + 1] == Step(c, r.states[i], r.actions[i])
    {
      if i < |t.actions| {
        assert r.states[i] == t.states[i] && r.states[i + 1] == t.states[i + 1] && r.actions[i] == t.actions[i];
      }
    }
  }

  // ----- lost records -----

  function ListOf(store: Option<Tally>, r: Result): seq<Record> {
    if store.Some? then store.value.Of(r) else []
  }

  /** The store has every record of a reached test that could be allocated. */
  ghost predicate Complete(mods: seq<Module>, lvl: nat, store: Option<Tally>) {
    forall k, r :: 0 <= k < |mods| ==>
      Proj(ListOf(store, r), k) == Recorded(mods, k, lvl, Reached(mods[k], lvl), r)
  }

  ghost predicate Absent(records: seq<Record>, k: nat, i: nat) {
    forall x :: x in records ==> x.mod != k || x.test != i
  }

  /** Test `i` of module `k` is over and is in no list. */
  ghost predicate Lost(c: Config, s: State, k: nat, i: nat) {
    && |s.workers| == |c.mods| && k < |c.mods|
    && Progress(c, k, s.workers[k]) > i
    && forall r :: Absent(ListOf(s.store, r), k, i)
  }

  lemma AttemptAbsent(mods: seq<Module>, lvl: nat, store: Option<Tally>, j: nat, n: nat, k: nat, i: nat, r: Result)
    requires j < |mods| && n < |mods[j].tests| && (j != k || n != i)
    requires Absent(ListOf(store, r), k, i)
    ensures Absent(ListOf(Attempt(mods, lvl, store, j, n), r), k, i)
  {
  }

  /** What was lost stays lost. */
  lemma LostStep(c: Config, s: State, a: Action, k: nat, i: nat)
    requires Inv(c, s) && Enabled(c, s, a) && Lost(c, s, k, i)
    ensures Lost(c, Step(c, s, a), k, i)
  {
    hide Sane;
    hide Matches;
    hide Absent;
    if a.WorkerStep? {
      var j := a.k;
      WorkerKeepsOk(c, s, j);
      hide Progress;
      if s.workers[j].Recording? {
        var n := s.workers[j].i;
        assert Progress(c, j, s.workers[j]) == n by { assert Progress(c, j, Recording(n)) == n; }
        forall r
          ensures Absent(ListOf(Step(c, s, a).store, r), k, i)
        {
          assert Absent(ListOf(s.store, r), k, i);
          AttemptAbsent(c.mods, c.lvl, s.store, j, n, k, i, r);
        }
      }
    }
  }

  /** Every run can be brought to an end. */
  lemma {:induction false} Finish(c: Config, t: Trace, k: nat, i: nat) returns (r: Trace)
    requires IsTrace(c, t) && Inv(c, Now(t)) && c.threads >= 1
    ensures IsTrace(c, r) && Now(r).main.Finished?
    ensures Lost(c, Now(t), k, i) ==> Lost(c, Now(r), k, i)
    decreases StepsLeft(c, Now(t))
  {
    hide Inv;
    hide Lost;
    var s := Now(t);
    if s.main.Finished? {
      r := t;
    } else {
      var a := AnyEnabled(c, s);
      StepKeepsInv(c, s, a);
      StepDecreases(c, s, a);
      if Lost(c, s, k, i) {
        LostStep(c, s, a, k, i);
      }
      var next := Extend(c, t, a);
      r := Finish(c, next, k, i);
    }
  }

  lemma AnyEnabled(c: Config, s: State) returns (a: Action)
    requires Inv(c, s) && c.threads >= 1 && !s.main.Finished?
    ensures Enabled(c, s, a)
  {
    SomeEnabled(c, s);
    if Enabled(c, s, MainStep) {
      a := MainStep;
    } else {
      var k :| 0 <= k < |c.mods| && Enabled(c, s, WorkerStep(k));
      a := WorkerStep(k);
    }
  }

  /** With a permit for each module, main creates the first `n` threads before any of
      them takes a step. */
  lemma {:induction false} CreateFirst(c: Config, n: nat) returns (t: Trace)
    requires c.threads >= |c.mods| && n <= |c.mods|
    ensures IsTrace(c, t)
    ensures var ws := seq(|c.mods|, j => if j < n then Setup else Idle);
            Now(t) == State(Waiting(n), c.threads - n, ws, None)
  {
    if n == 0 {
      t := Trace([Initial(c)], []);
    } else {
      t := CreateFirst(c, n - 1);
      t := Extend(c, t, MainStep);
      t := Extend(c, t, MainStep);
    }
  }

  /** A worker alone, while the store is refused to it. */
  lemma {:induction false} DriveTo(c: Config, t: Trace, k: nat, i: nat) returns (r: Trace)
    requires IsTrace(c, t) && k < |c.mods| == |Now(t).workers| && Now(t).workers[k] == Setup && Now(t).store == None
    requires i < Reached(c.mods[k], c.lvl) && !Backed(c.mods[k].tests, i)
    ensures IsTrace(c, r) && |Now(r).workers| == |c.mods| && Now(r).workers[k] == Next(i) && Now(r).store == None
  {
    if i == 0 {
      r := Extend(c, t, WorkerStep(k));
    } else {
      r := DriveTo(c, t, k, i - 1);
      BackedStep(c.mods[k].tests, i - 1);
      r := Extend(c, r, WorkerStep(k));
      ReachedNoFault(c.mods[k].tests, c.lvl, i);
      r := Extend(c, r, WorkerStep(k));
    }
  }

  /** A record that can be allocated, in a module in which the store is refused
      up to that test, is lost when that module comes first. */
  lemma LosesOne(mods: seq<Module>, lvl: nat, k: nat, i: nat) returns (c: Config, t: Trace)
    requires k < |mods| && i < Reached(mods[k], lvl) && mods[k].tests[i].recordAlloc && !Backed(mods[k].tests, i + 1)
    ensures c.mods == mods && c.lvl == lvl && c.threads >= 2 && IsTrace(c, t) && Now(t).main.Finished?
    ensures Lost(c, Now(t), k, i)
  {
    c := Config(mods, lvl, |mods| + 1);
    t := CreateFirst(c, |mods|);
    BackedStep(mods[k].tests, i);
    t := DriveTo(c, t, k, i);
    t := Extend(c, t, WorkerStep(k));
    t := Extend(c, t, WorkerStep(k));
    assert Lost(c, Now(t), k, i);
    RunInv(c, t.states, t.actions, |t.actions|);
    hide Lost;
    t := Finish(c, t, k, i);
  }

  /** In every finished run of several threads every record that could be
      allocated is there. */
  ghost predicate NothingLost(mods: seq<Module>, lvl: nat) {
    forall threads: nat, states: seq<State>, actions: seq<Action> ::
      threads >= 2 && IsRun(Config(mods, lvl, threads), states, actions) && states[|actions|].main.Finished?
      ==> Complete(mods, lvl, states[|actions|].store)
  }

  lemma LostIsIncomplete(c: Config, s: State, k: nat, i: nat)
    requires Lost(c, s, k, i) && i < Reached(c.mods[k], c.lvl) && c.mods[k].tests[i].recordAlloc
    ensures !Complete(c.mods, c.lvl, s.store)
  {
    var r := ResultOf(c.mods[k].tests[i], c.lvl);
    var x := Record(k, i, r.Passed?);
    ResultMeans(c.mods[k].tests[i], c.lvl, r);
    RecordedExactly(c.mods, k, c.lvl, Reached(c.mods[k], c.lvl), r);
    assert x in Recorded(c.mods, k, c.lvl, Reached(c.mods[k], c.lvl), r);
    ProjIn(ListOf(s.store, r), k);
    assert Absent(ListOf(s.store, r), k, i);
  }

  lemma MatchesComplete(mods: seq<Module>, lvl: nat, store: Option<Tally>)
    requires StoreReady(mods, lvl) && Matches(mods, lvl, store, AllReached(mods, lvl))
    ensures Complete(mods, lvl, store)
  {
    var counts := AllReached(mods, lvl);
    if store.None? {
      EmptyTallied(mods, lvl, counts);
    }
    var t := if store.Some? then store.value else EMPTY_TALLY;
    forall k, r: Result | 0 <= k < |mods|
      ensures Proj(ListOf(store, r), k) == Recorded(mods, k, lvl, Reached(mods[k], lvl), r)
    {
      assert Lists(mods, lvl, t, counts, r);
      assert ListOf(store, r) == t.Of(r);
    }
  }

  /** No schedule loses a record exactly when each record that can be allocated
      finds a store by the tests of its own module. */
  lemma NothingLostIff(mods: seq<Module>, lvl: nat)
    ensures NothingLost(mods, lvl) <==> StoreReady(mods, lvl)
  {
    if StoreReady(mods, lvl) {
      forall threads: nat, states: seq<State>, actions: seq<Action>
        | IsRun(Config(mods, lvl, threads), states, actions) && states[|actions|].main.Finished?
        ensures Complete(mods, lvl, states[|actions|].store)
      {
        var c := Config(mods, lvl, threads);
        RunInv(c, states, actions, |actions|);
        FinishedMatches(c, states[|actions|]);
        MatchesComplete(mods, lvl, states[|actions|].store);
      }
    } else {
      var k, i :| 0 <= k < |mods| && 0 <= i < Reached(mods[k], lvl) && mods[k].tests[i].recordAlloc
                  && !Backed(mods[k].tests, i + 1);
      var c, t := LosesOne(mods, lvl, k, i);
      LostIsIncomplete(c, Now(t), k, i);
      assert IsRun(Config(mods, lvl, c.threads), t.states, t.actions);
    }
  }
}
