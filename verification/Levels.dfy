/** Tests above the level are not run: what they would do makes no difference. */
module Levels {
  import opened Sequences
  import opened Results
  import opened ExecSpec
  import opened ExecRun
  import opened RequiredTests
  import opened IniParser
  import opened Verdict
  import opened Harness

  /** The same test, or one that only ends differently and is above the level. */
  predicate SameBelow(t: Test, u: Test, lvl: nat) {
    t == u.(outcome := t.outcome) && (t.level <= lvl ==> t == u)
  }

  predicate SameModule(m: Module, n: Module, lvl: nat) {
    && m == n.(tests := m.tests) && |m.tests| == |n.tests|
    && forall i :: 0 <= i < |m.tests| ==> SameBelow(m.tests[i], n.tests[i], lvl)
  }

  predicate SameModules(a: seq<Module>, b: seq<Module>, lvl: nat) {
    |a| == |b| && forall k :: 0 <= k < |a| ==> SameModule(a[k], b[k], lvl)
  }

  lemma {:induction false} ReachedSame(a: seq<Test>, b: seq<Test>, lvl: nat)
    requires |a| == |b| && forall i :: 0 <= i < |a| ==> SameBelow(a[i], b[i], lvl)
    ensures ReachedIn(a, lvl) == ReachedIn(b, lvl)
  {
    if a != [] {
      assert SameBelow(a[0], b[0], lvl);
      assert forall i :: 0 <= i < |a| - 1 ==> a[1..][i] == a[i + 1] && b[1..][i] == b[i + 1];
      ReachedSame(a[1..], b[1..], lvl);
    }
  }

  lemma {:induction false} StoreAtSame(a: seq<Module>, b: seq<Module>, lvl: nat, store: Option<Tally>, k: nat, n: nat)
    requires SameModules(a, b, lvl) && k < |a| && n <= |a[k].tests|
    ensures |a[k].tests| == |b[k].tests|
    ensures StoreAt(a, lvl, store, k, n) == StoreAt(b, lvl, store, k, n)
  {
    assert SameModule(a[k], b[k], lvl);
    if n > 0 {
      StoreAtSame(a, b, lvl, store, k, n - 1);
      assert SameBelow(a[k].tests[n - 1], b[k].tests[n - 1], lvl);
    }
  }

  lemma {:induction false} StoreAfterSame(a: seq<Module>, b: seq<Module>, lvl: nat, n: nat)
    requires SameModules(a, b, lvl) && n <= |a|
    ensures StoreAfter(a, lvl, n) == StoreAfter(b, lvl, n)
  {
    if n > 0 {
      StoreAfterSame(a, b, lvl, n - 1);
      assert SameModule(a[n - 1], b[n - 1], lvl);
      ReachedSame(a[n - 1].tests, b[n - 1].tests, lvl);
      StoreAtSame(a, b, lvl, StoreAfter(a, lvl, n - 1), n - 1, Reached(a[n - 1], lvl));
    }
  }

  lemma FaultsSame(m: Module, n: Module, lvl: nat)
    requires SameModule(m, n, lvl)
    ensures ModuleFaults(m, lvl) <==> ModuleFaults(n, lvl)
  {
    assert forall i :: 0 <= i < |m.tests| ==> SameBelow(m.tests[i], n.tests[i], lvl);
  }

  lemma {:induction false} RanSame(a: seq<Module>, b: seq<Module>, lvl: nat, k: nat)
    requires SameModules(a, b, lvl) && k <= |a|
    ensures Ran(a, lvl, k) == Ran(b, lvl, k)
    decreases |a| - k
  {
    if k < |a| {
      FaultsSame(a[k], b[k], lvl);
      hide ModuleFaults;
      RanSame(a, b, lvl, k + 1);
    }
  }

  lemma {:induction false} KeysSame(a: seq<Module>, b: seq<Module>, lvl: nat, records: seq<Record>)
    requires SameModules(a, b, lvl) && forall x :: x in records ==> RecordOk(a, x)
    ensures forall x :: x in records ==> RecordOk(b, x)
    ensures Keys(a, records) == Keys(b, records)
  {
    if records != [] {
      var x := records[|records| - 1];
      assert x in records && SameModule(a[x.mod], b[x.mod], lvl);
      assert SameBelow(a[x.mod].tests[x.test], b[x.mod].tests[x.test], lvl);
      KeysSame(a, b, lvl, records[..|records| - 1]);
    }
  }

  lemma VerdictSame(a: seq<Module>, b: seq<Module>, args: Args, store: Option<Tally>)
    requires SameModules(a, b, args.lvl) && Sane(a, store)
    ensures Sane(b, store) ==> MainVerdict(a, args, store) == MainVerdict(b, args, store)
  {
    if store.Some? {
      KeysSame(a, b, args.lvl, store.value.passing);
    }
    hide Missing;
    hide ParseFile;
    hide Keys;
    hide Nodes;
  }

  /** How tests above the level would end changes neither which modules fault,
      nor the store, nor how the process ends, whatever memory is refused. */
  lemma AboveIsSkipped(a: seq<Module>, b: seq<Module>, args: Args)
    requires SameModules(a, b, args.lvl)
    ensures forall k :: 0 <= k < |a| ==> (ModuleFaults(a[k], args.lvl) <==> ModuleFaults(b[k], args.lvl))
    ensures StoreAfter(a, args.lvl, |a|) == StoreAfter(b, args.lvl, |b|)
    ensures ExitStatus(a, args) == ExitStatus(b, args)
  {
    forall k | 0 <= k < |a|
      ensures ModuleFaults(a[k], args.lvl) <==> ModuleFaults(b[k], args.lvl)
    {
      FaultsSame(a[k], b[k], args.lvl);
    }
    StoreAfterSame(a, b, args.lvl, |a|);
    RanSame(a, b, args.lvl, 0);
    StoreAfterSame(a, b, args.lvl, Ran(a, args.lvl, 0));
    StoreOk(a, args.lvl);
    StoreOk(b, args.lvl);
    hide ModuleFaults;
    hide StoreAfter;
    hide MainVerdict;
    hide Sane;
    hide Matches;
    hide SameModule;
    VerdictSame(a, b, args, StoreAfter(a, args.lvl, |a|));
  }
}
