/** What a scheduler is to its callers: the parameters of its live domains, its
    event log and everything it ever logged; and what holds of that after every
    run of create, destroy, clear and log reads. */
module SchedSpec {
  import opened Sequences
  import opened EventLog
  import opened DomainLists

  datatype View = View(
    doms: seq<Params>,      // live domains, oldest first
    log: Log,
    history: seq<Event>,    // everything logged, oldest first
    tsOffset: int)

  /** One event logged when the clock shows `now`. */
  function Logged(v: View, kind: EventKind, now: int): View {
    var e := Event(Stamp(now, v.tsOffset), 0, kind);
    v.(log := Emit(v.log, e), history := v.history + [e])
  }

  function LoggedAll(v: View, kind: EventKind, nows: seq<int>): View {
    if nows == [] then v
    else Logged(LoggedAll(v, kind, nows[..|nows| - 1]), kind, nows[|nows| - 1])
  }

  function Stored(p: Params): Params {
    p.(name := StoredName(p.name))
  }

  function Created(v: View, p: Params, now: int): View {
    Logged(v, CreateDomain, now).(doms := v.doms + [Stored(p)])
  }

  function Destroyed(v: View, i: nat, now: int): (r: View)
    requires i < |v.doms|
    ensures |r.doms| == |v.doms| - 1
  {
    Logged(v, RemoveDomain, now).(doms := RemoveAt(v.doms, i))
  }

  /** The first domains gone, one removal logged for each. */
  function Dropped(v: View, nows: seq<int>): View
    requires |nows| <= |v.doms|
  {
    LoggedAll(v, RemoveDomain, nows).(doms := v.doms[|nows|..])
  }

  function Got(v: View): View {
    v.(log := Take(v.log))
  }

  /** The state nvs_sched_create leaves when its allocations succeed. */
  function Fresh(entries: nat, tsOffset: int, now: int): View
    requires entries >= 1
  {
    Logged(View([], EmptyLog(entries - 1), [], tsOffset), CreateSched, now)
  }

  /** Dropping one more is destroying the head of the list. */
  lemma {:induction false} DroppedStep(v: View, nows: seq<int>, now: int)
    requires |nows| < |v.doms|
    ensures Dropped(v, nows + [now]) == Destroyed(Dropped(v, nows), 0, now)
  {
    assert (nows + [now])[..|nows|] == nows;
    assert RemoveAt(v.doms[|nows|..], 0) == v.doms[|nows| + 1..];
  }

  /** The operations with what the environment supplies: the clock's readings
      and whether an allocation is granted. */
  datatype SchedOp =
    | CreateOp(p: Params, granted: bool, now: int)
    | DestroyOp(i: nat, now: int)
    | ClearOp(nows: seq<int>)
    | GetOp

  /** Callers only destroy live domains, and clearing reads the clock once per
      domain. */
  predicate Legal(v: View, op: SchedOp) {
    match op
    case DestroyOp(i, _) => i < |v.doms|
    case ClearOp(nows) => |nows| == |v.doms|
    case _ => true
  }

  function Apply(v: View, op: SchedOp): View
    requires Legal(v, op)
  {
    match op
    case CreateOp(p, granted, now) => if granted then Created(v, p, now) else v
    case DestroyOp(i, now) => Destroyed(v, i, now)
    case ClearOp(nows) => Dropped(v, nows)
    case GetOp => Got(v)
  }

  /** `states` are the states of a run of `ops` from its first state. */
  ghost predicate IsRun(states: seq<View>, ops: seq<SchedOp>) {
    && |states| == |ops| + 1
    && forall i :: 0 <= i < |ops| ==> Legal(states[i], ops[i]) && states[i + 1] == Apply(states[i], ops[i])
  }

  function Count(history: seq<Event>, kind: EventKind): nat {
    if history == [] then 0
    else Count(history[..|history| - 1], kind) + if history[|history| - 1].kind == kind then 1 else 0
  }

  // ----- every run -----

  /** The log and the history come from one and the same run of the log. */
  ghost predicate LogRun(v: View, ops: seq<Op>) {
    v.log == Run(v.log.capacity, ops) && v.history == Emitted(ops)
  }

  ghost predicate Consistent(v: View) {
    && v.history != [] && v.history[0].kind == CreateSched
    && Count(v.history, CreateSched) == 1
    && |v.doms| + Count(v.history, RemoveDomain) == Count(v.history, CreateDomain)
    && (forall d :: d in v.doms ==> |d.name| < NAME_SIZE)
    && (forall e :: e in v.history ==> e.data == 0 && e.kind != NoEvent)
    && exists ops :: LogRun(v, ops)
  }

  lemma LoggedConsistent(v: View, kind: EventKind, now: int)
    requires v.history != [] && (exists ops :: LogRun(v, ops))
    ensures var r := Logged(v, kind, now);
            && (exists ops :: LogRun(r, ops))
            && r.history != [] && r.history[0] == v.history[0]
            && r.history == v.history + [Event(Stamp(now, v.tsOffset), 0, kind)]
            && r.log.capacity == v.log.capacity
            && (forall k :: Count(r.history, k) == Count(v.history, k) + if k == kind then 1 else 0)
  {
    var ops :| LogRun(v, ops);
    var e := Event(Stamp(now, v.tsOffset), 0, kind);
    var ops' := ops + [EmitOp(e)];
    assert ops'[..|ops|] == ops;
    assert (v.history + [e])[..|v.history|] == v.history;
    assert LogRun(Logged(v, kind, now), ops');
  }

  lemma FreshConsistent(entries: nat, tsOffset: int, now: int)
    requires entries >= 1
    ensures Consistent(Fresh(entries, tsOffset, now))
    ensures Fresh(entries, tsOffset, now).log.capacity == entries - 1
  {
    var v := Fresh(entries, tsOffset, now);
    var ops := [EmitOp(v.history[0])];
    assert ops[..0] == [];
    assert LogRun(v, ops);
    assert v.history[..0] == [];
  }

  lemma DestroyedConsistent(v: View, i: nat, now: int)
    requires Consistent(v) && i < |v.doms|
    ensures Consistent(Destroyed(v, i, now))
    ensures Destroyed(v, i, now).log.capacity == v.log.capacity
  {
    LoggedConsistent(v, RemoveDomain, now);
    var l, r := Logged(v, RemoveDomain, now), Destroyed(v, i, now);
    var ops :| LogRun(l, ops);
    assert LogRun(r, ops);
    assert forall d :: d in r.doms ==> d in v.doms;
  }

  lemma {:induction false} DroppedConsistent(v: View, nows: seq<int>)
    requires Consistent(v) && |nows| <= |v.doms|
    ensures Consistent(Dropped(v, nows)) && Dropped(v, nows).log.capacity == v.log.capacity
  {
    if nows == [] {
      assert Dropped(v, nows) == v;
    } else {
      var before := nows[..|nows| - 1];
      assert nows == before + [nows[|nows| - 1]];
      DroppedConsistent(v, before);
      DroppedStep(v, before, nows[|nows| - 1]);
      DestroyedConsistent(Dropped(v, before), 0, nows[|nows| - 1]);
    }
  }

  lemma ApplyConsistent(v: View, op: SchedOp)
    requires Consistent(v) && Legal(v, op)
    ensures Consistent(Apply(v, op)) && Apply(v, op).log.capacity == v.log.capacity
  {
    var r := Apply(v, op);
    match op
    case CreateOp(p, granted, now) =>
      if granted {
        LoggedConsistent(v, CreateDomain, now);
        var ops :| LogRun(Logged(v, CreateDomain, now), ops);
        assert LogRun(r, ops);
      }
    case DestroyOp(i, now) => DestroyedConsistent(v, i, now);
    case ClearOp(nows) => DroppedConsistent(v, nows);
    case GetOp =>
      var ops :| LogRun(v, ops);
      assert (ops + [TakeOp])[..|ops|] == ops;
      assert LogRun(r, ops + [TakeOp]);
  }

  /** In every reachable state the history begins with its only CREATE_SCHED,
      the live domains are the ones created minus the ones removed, and no event
      carries data. */
  lemma {:induction false} RunConsistent(entries: nat, tsOffset: int, now: int,
                                         states: seq<View>, ops: seq<SchedOp>)
    requires entries >= 1 && IsRun(states, ops) && states[0] == Fresh(entries, tsOffset, now)
    ensures forall v :: v in states ==> Consistent(v) && v.log.capacity == entries - 1
  {
    FreshConsistent(entries, tsOffset, now);
    var n := 0;
    while n < |ops|
      invariant 0 <= n <= |ops|
      invariant forall i :: 0 <= i <= n ==> Consistent(states[i]) && states[i].log.capacity == entries - 1
    {
      ApplyConsistent(states[n], ops[n]);
      n := n + 1;
    }
  }

  /** The live domains are what calls among the first `n` made, in that order:
      call made[i] was granted domain i with just these parameters. */
  ghost predicate MadeBy(ops: seq<SchedOp>, n: nat, doms: seq<Params>, made: seq<nat>) {
    && |made| == |doms|
    && (forall i :: 0 <= i < |made| ==>
          && made[i] < n && made[i] < |ops| && ops[made[i]].CreateOp? && ops[made[i]].granted
          && var d, p := doms[i], ops[made[i]].p;
             && d.timeslice == p.timeslice && d.grace == p.grace && d.priv == p.priv
             && d.name == if |p.name| < 32 then p.name else p.name[..31])
    && forall i, j :: 0 <= i < j < |made| ==> made[i] < made[j]
  }

  /** Every live domain of every reachable state has the parameters of the call
      that made it, whatever was created and destroyed since. */
  lemma {:induction false} RunParams(states: seq<View>, ops: seq<SchedOp>, n: nat) returns (made: seq<nat>)
    requires IsRun(states, ops) && states[0].doms == [] && n < |states|
    ensures MadeBy(ops, n, states[n].doms, made)
  {
    if n == 0 {
      made := [];
    } else {
      var before := states[n - 1];
      made := RunParams(states, ops, n - 1);
      assert Legal(before, ops[n - 1]) && states[n] == Apply(before, ops[n - 1]);
      match ops[n - 1]
      case CreateOp(p, granted, now) =>
        if granted {
          made := made + [n - 1];
        }
      case DestroyOp(i, now) =>
        made := RemoveAt(made, i);
      case ClearOp(nows) =>
        made := [];
      case GetOp =>
    }
  }

  /** The log loss theorem for the scheduler's own log: whatever was done to
      it, its history splits into events read, overwritten and retained. */
  lemma RunHistorySplits(entries: nat, tsOffset: int, now: int, states: seq<View>, ops: seq<SchedOp>, v: View)
    requires entries >= 1 && IsRun(states, ops) && states[0] == Fresh(entries, tsOffset, now)
    requires v in states
    ensures && (exists gone :: Splits(v.history, v.log, gone))
            && |v.log.read| + |v.log.overwritten| + |v.log.queue| == |v.history|
            && |v.log.queue| < entries
  {
    RunConsistent(entries, tsOffset, now, states, ops);
    var logOps :| LogRun(v, logOps);
    HistorySplits(v.log.capacity, logOps);
  }

  lemma {:induction false} LoggedAllHistory(v: View, kind: EventKind, nows: seq<int>)
    ensures var r := LoggedAll(v, kind, nows);
            && r.tsOffset == v.tsOffset
            && r.history == v.history + seq(|nows|, i requires 0 <= i < |nows| =>
                                                      Event(Stamp(nows[i], v.tsOffset), 0, kind))
  {
    if nows != [] {
      LoggedAllHistory(v, kind, nows[..|nows| - 1]);
    }
  }

  /** nvs_domain_clear_all leaves no domain and logs one REMOVE_DOMAIN per
      domain and nothing else, whatever the state. */
  lemma ClearLogs(v: View, nows: seq<int>)
    requires Legal(v, ClearOp(nows))
    ensures var r := Apply(v, ClearOp(nows));
            && r.doms == []
            && |r.history| == |v.history| + |v.doms|
            && v.history <= r.history
            && forall i :: |v.history| <= i < |r.history| ==> r.history[i].kind == RemoveDomain
  {
    LoggedAllHistory(v, RemoveDomain, nows);
  }

  /** In no run is a domain findable under a name of 32 bytes or more. */
  lemma RunLongNames(entries: nat, tsOffset: int, now: int, states: seq<View>, ops: seq<SchedOp>, v: View, name: string)
    requires entries >= 1 && IsRun(states, ops) && states[0] == Fresh(entries, tsOffset, now)
    requires v in states && |name| >= NAME_SIZE
    ensures FindName(v.doms, name).None?
  {
    RunConsistent(entries, tsOffset, now, states, ops);
    LongNameNeverFound(v.doms, name);
  }
}
