/** Runs of threads with one test each: whatever the order, some schedule records
    the tests in it. */
module AnyOrder {
  import opened Sequences
  import opened Results
  import opened ExecSpec
  import opened Exec
  import opened Runs
  import opened Verdict

  /** Each module has one test, which does not fault, and each has a permit. */
  ghost predicate Singles(c: Config) {
    && c.threads >= |c.mods|
    && forall k :: 0 <= k < |c.mods| ==>
         Ready(c.mods[k]) && |c.mods[k].tests| == 1 && !Faults(c.mods[k].tests[0], c.lvl)
  }

  ghost predicate Order(c: Config, order: seq<nat>) {
    Distinct(order) && forall j :: 0 <= j < |order| ==> order[j] < |c.mods|
  }

  /** The store when the modules record in that order. */
  function InOrder(c: Config, order: seq<nat>): Option<Tally>
    requires forall j :: 0 <= j < |order| ==> order[j] < |c.mods| && |c.mods[order[j]].tests| > 0
  {
    if order == [] then None
    else Attempt(c.mods, c.lvl, InOrder(c, order[..|order| - 1]), order[|order| - 1], 0)
  }

  /** The worker of module `k` runs from beginning to end. */
  lemma Drive(c: Config, t: Trace, k: nat) returns (r: Trace)
    requires Singles(c) && IsTrace(c, t) && k < |c.mods| == |Now(t).workers| && Now(t).workers[k].Setup?
    ensures IsTrace(c, r)
    ensures var s := Now(t);
            Now(r) == State(s.main, s.permits + 1, s.workers[k := Done], Attempt(c.mods, c.lvl, s.store, k, 0))
  {
    var ws := Now(t).workers;
    r := Extend(c, t, WorkerStep(k));
    r := Extend(c, r, WorkerStep(k));
    assert Now(r).workers == ws[k := Recording(0)];
    r := Extend(c, r, WorkerStep(k));
    r := Extend(c, r, WorkerStep(k));
    assert Now(r).workers == ws[k := Exiting];
    r := Extend(c, r, WorkerStep(k));
    assert Now(r).workers == ws[k := Done];
  }

  /** Main has created all threads; those in `order` have run, one by one. */
  lemma {:induction false} DriveAll(c: Config, order: seq<nat>) returns (t: Trace)
    requires Singles(c) && Order(c, order)
    ensures IsTrace(c, t) && Now(t).main == Waiting(|c.mods|) && |Now(t).workers| == |c.mods|
    ensures forall k :: 0 <= k < |c.mods| ==> Now(t).workers[k] == if k in order then Done else Setup
    ensures Now(t).store == InOrder(c, order)
  {
    if order == [] {
      t := CreateFirst(c, |c.mods|);
    } else {
      var n := |order| - 1;
      t := DriveAll(c, order[..n]);
      assert order == order[..n] + [order[n]];
      assert order[n] !in order[..n];
      t := Drive(c, t, order[n]);
    }
  }

  /** Main joins the first `n` threads. */
  lemma {:induction false} JoinFirst(c: Config, t: Trace, n: nat) returns (r: Trace)
    requires IsTrace(c, t) && Now(t).main == Waiting(|c.mods|) && |Now(t).workers| == |c.mods| && n <= |c.mods|
    requires forall k :: 0 <= k < |c.mods| ==> Now(t).workers[k].Done?
    ensures IsTrace(c, r) && Now(r) == Now(t).(main := Joining(n))
  {
    if n == 0 {
      r := Extend(c, t, MainStep);
    } else {
      r := JoinFirst(c, t, n - 1);
      r := Extend(c, r, MainStep);
    }
  }

  function UpTo(n: nat): set<nat> {
    if n == 0 then {} else UpTo(n - 1) + {n - 1}
  }

  lemma {:induction false} UpToIs(n: nat)
    ensures |UpTo(n)| == n && forall k: nat :: k in UpTo(n) <==> k < n
  {
    if n > 0 {
      UpToIs(n - 1);
    }
  }

  lemma AllThere(order: seq<nat>)
    requires Distinct(order) && forall j :: 0 <= j < |order| ==> order[j] < |order|
    ensures forall k: nat :: k < |order| ==> k in order
  {
    UpToIs(|order|);
    EnumeratesAll(order, UpTo(|order|));
  }

  /** Some run of the threads ends with this verdict. */
  ghost predicate CanEnd(mods: seq<Module>, args: Args, code: int) {
    exists states: seq<State>, actions: seq<Action> ::
      && IsRun(Config(mods, args.lvl, args.threads), states, actions)
      && states[|actions|].main.Finished?
      && Sane(mods, states[|actions|].store)
      && MainVerdict(mods, args, states[|actions|].store) == code
  }

  /** Any order of all the modules is the order of some run. */
  lemma RunInOrder(c: Config, order: seq<nat>) returns (states: seq<State>, actions: seq<Action>)
    requires Singles(c) && Order(c, order) && |order| == |c.mods|
    ensures IsRun(c, states, actions) && states[|actions|].main.Finished?
    ensures states[|actions|].store == InOrder(c, order)
  {
    var t := DriveAll(c, order);
    AllThere(order);
    t := JoinFirst(c, t, |c.mods|);
    t := Extend(c, t, MainStep);
    states, actions := t.states, t.actions;
  }

  lemma EndsWith(args: Args, c: Config, order: seq<nat>)
    requires Singles(c) && c == Config(c.mods, args.lvl, args.threads)
    requires Order(c, order) && |order| == |c.mods| && Sane(c.mods, InOrder(c, order))
    ensures CanEnd(c.mods, args, MainVerdict(c.mods, args, InOrder(c, order)))
  {
    hide Sane;
    var states, actions := RunInOrder(c, order);
  }
}
