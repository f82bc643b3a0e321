/** For which files of required tests, and other arguments, the verdict is settled
    by what the tests do, whatever the schedule: schedule independence and its
    converse, file by file. */
module Settled {
  import opened Sequences
  import opened Results
  import opened ExecSpec
  import opened Exec
  import opened ExecRun
  import opened RequiredTests
  import opened SectionOrder
  import opened FileOrders
  import opened IniFile
  import opened IniParser
  import opened Verdict
  import opened Harness
  import opened AnyOrder

  // ----- modules made for passes -----

  /** A module whose one test passes under that name. */
  function ModuleOf(key: Key): Module
    requires Dotted(key.name)
  {
    var i := Find(key.name, '.').value;
    Module(key.unit, true, true, [Test(key.name[..i], key.name[i + 1..], 0, Success, true, true)])
  }

  function ModulesOf(keys: seq<Key>): (mods: seq<Module>)
    requires AllDotted(keys)
    ensures |mods| == |keys| && forall k :: 0 <= k < |keys| ==> mods[k] == ModuleOf(keys[k])
  {
    seq(|keys|, k requires 0 <= k < |keys| => ModuleOf(keys[k]))
  }

  lemma KeyOfMade(keys: seq<Key>, k: nat)
    requires AllDotted(keys) && k < |keys|
    ensures KeyOf(ModulesOf(keys), Record(k, 0, true)) == keys[k]
  {
    var name := keys[k].name;
    var i := Find(name, '.').value;
    assert name == name[..i] + "." + name[i + 1..];
  }

  lemma MadeSingles(keys: seq<Key>, lvl: nat, threads: nat)
    requires AllDotted(keys) && threads >= |keys|
    ensures Singles(Config(ModulesOf(keys), lvl, threads)) && StoreReady(ModulesOf(keys), lvl)
  {
    var mods := ModulesOf(keys);
    assert forall k :: 0 <= k < |mods| ==> mods[k].tests[0].storeAlloc;
  }

  function RecordsOf(order: seq<nat>): (r: seq<Record>)
    ensures |r| == |order| && forall j :: 0 <= j < |order| ==> r[j] == Record(order[j], 0, true)
  {
    seq(|order|, j requires 0 <= j < |order| => Record(order[j], 0, true))
  }

  /** Each order of the modules records just that. */
  lemma {:induction false} AllPass(c: Config, keys: seq<Key>, order: seq<nat>)
    requires AllDotted(keys) && c.mods == ModulesOf(keys) && forall j :: 0 <= j < |order| ==> order[j] < |keys|
    ensures InOrder(c, order) ==
            if order == [] then None
            else Some(Tally(RecordsOf(order), [], [], |order|, |order|, 0))
  {
    if order != [] {
      var n := |order| - 1;
      AllPass(c, keys, order[..n]);
      assert RecordsOf(order) == RecordsOf(order[..n]) + [Record(order[n], 0, true)];
      if n == 0 {
        assert RecordsOf(order) == [] + [Record(order[0], 0, true)];
      }
    }
  }

  lemma KeysAppend(mods: seq<Module>, records: seq<Record>, x: Record)
    requires RecordOk(mods, x) && forall y :: y in records ==> RecordOk(mods, y)
    ensures forall y :: y in records + [x] ==> RecordOk(mods, y)
    ensures Keys(mods, records + [x]) == Keys(mods, records) + [KeyOf(mods, x)]
  {
    assert (records + [x])[..|records|] == records;
  }

  lemma {:induction false} KeysInOrder(keys: seq<Key>, order: seq<nat>, passes: seq<Key>)
    requires AllDotted(keys) && |passes| == |order|
    requires forall j :: 0 <= j < |order| ==> order[j] < |keys| && passes[j] == keys[order[j]]
    ensures forall x :: x in RecordsOf(order) ==> RecordOk(ModulesOf(keys), x)
    ensures Keys(ModulesOf(keys), RecordsOf(order)) == passes
  {
    if order != [] {
      var n := |order| - 1;
      KeysInOrder(keys, order[..n], passes[..n]);
      KeyOfMade(keys, order[n]);
      assert RecordsOf(order) == RecordsOf(order[..n]) + [Record(order[n], 0, true)];
      assert passes == passes[..n] + [passes[n]];
      hide Keys;
      hide KeyOf;
      hide RecordsOf;
      KeysAppend(ModulesOf(keys), RecordsOf(order[..n]), Record(order[n], 0, true));
    }
  }

  lemma RemovedBag(a: seq<Key>, i: nat)
    requires i < |a|
    ensures multiset(RemoveAt(a, i)) == multiset(a) - multiset{a[i]}
  {
    assert a == a[..i] + [a[i]] + a[i + 1..];
  }

  /** The numbers but `i` in the order of `rest`, and then `i`. */
  function Shifted(rest: seq<nat>, i: nat): (order: seq<nat>)
    ensures |order| == |rest| + 1 && order[|rest|] == i
    ensures forall j :: 0 <= j < |rest| ==> order[j] == if rest[j] < i then rest[j] else rest[j] + 1
  {
    seq(|rest|, j requires 0 <= j < |rest| => if rest[j] < i then rest[j] else rest[j] + 1) + [i]
  }

  lemma ShiftedDistinct(rest: seq<nat>, i: nat)
    requires Distinct(rest)
    ensures Distinct(Shifted(rest, i))
  {
    var order := Shifted(rest, i);
    forall j, k | 0 <= j < k < |order|
      ensures order[j] != order[k]
    {
      if k < |rest| {
        assert rest[j] != rest[k];
      }
    }
  }

  /** Two orders of the same passes differ by a permutation. */
  lemma {:induction false} Permutation(a: seq<Key>, b: seq<Key>) returns (order: seq<nat>)
    requires multiset(a) == multiset(b)
    ensures |order| == |a| == |b| && Distinct(order)
    ensures forall j :: 0 <= j < |b| ==> order[j] < |a| && b[j] == a[order[j]]
    decreases |b|
  {
    assert |a| == |multiset(a)| && |b| == |multiset(b)|;
    if b == [] {
      order := [];
    } else {
      var n := |b| - 1;
      assert b[n] in multiset(a);
      var i :| 0 <= i < |a| && a[i] == b[n];
      RemovedBag(a, i);
      RemovedBag(b, n);
      assert RemoveAt(b, n) == b[..n];
      var rest := Permutation(RemoveAt(a, i), b[..n]);
      order := Shifted(rest, i);
      ShiftedDistinct(rest, i);
      hide Distinct;
      forall j | 0 <= j < n
        ensures order[j] < |a| && b[j] == a[order[j]]
      {
        assert b[..n][j] == RemoveAt(a, i)[rest[j]];
      }
    }
  }

  /** The file can be used, and main gets as far as looking at it. */
  ghost predicate Judged(args: Args, text: string) {
    && args.required == Some(Some(text)) && !args.unitToRun
    && ParseFile(text).ok && Nodes(ParseFile(text).units) <= args.room
  }

  lemma JudgedVerdict(mods: seq<Module>, args: Args, text: string, passing: seq<Record>)
    requires Judged(args, text) && forall x :: x in passing ==> RecordOk(mods, x)
    ensures var store := Some(Tally(passing, [], [], |passing|, |passing|, 0));
            && Sane(mods, store)
            && MainVerdict(mods, args, store) ==
               if Missing(ParseFile(text).units, Keys(mods, passing), args.lvl) == 0 then 0 else -1
  {
    hide Missing;
    hide ParseFile;
    hide Nodes;
    hide Keys;
  }

  lemma VerdictOf(args: Args, text: string, keys: seq<Key>, order: seq<nat>, passes: seq<Key>)
    requires Judged(args, text) && AllDotted(keys) && order != [] && |passes| == |order|
    requires forall j :: 0 <= j < |order| ==> order[j] < |keys| && passes[j] == keys[order[j]]
    ensures var mods := ModulesOf(keys);
            var store := InOrder(Config(mods, args.lvl, args.threads), order);
            && Sane(mods, store)
            && MainVerdict(mods, args, store) == if Missing(ParseFile(text).units, passes, args.lvl) == 0 then 0 else -1
  {
    AllPass(Config(ModulesOf(keys), args.lvl, args.threads), keys, order);
    KeysInOrder(keys, order, passes);
    JudgedVerdict(ModulesOf(keys), args, text, RecordsOf(order));
    hide *;
  }

  lemma EndsInOrder(args: Args, text: string, a: seq<Key>, b: seq<Key>)
    requires Judged(args, text) && AllDotted(a) && multiset(a) == multiset(b) && a != [] && args.threads >= |a|
    ensures CanEnd(ModulesOf(a), args, if Missing(ParseFile(text).units, b, args.lvl) == 0 then 0 else -1)
  {
    var order := Permutation(a, b);
    var c := Config(ModulesOf(a), args.lvl, args.threads);
    MadeSingles(a, args.lvl, args.threads);
    VerdictOf(args, text, a, order, b);
    hide Missing;
    hide ParseFile;
    hide Sane;
    hide CanEnd;
    hide MainVerdict;
    hide Judged;
    EndsWith(args, c, order);
  }

  /** Both orders are the order of some run. */
  lemma BothEnd(args: Args, text: string, a: seq<Key>, b: seq<Key>)
    requires Judged(args, text) && AllDotted(a) && multiset(a) == multiset(b) && a != [] && args.threads >= |a|
    ensures StoreReady(ModulesOf(a), args.lvl)
    ensures CanEnd(ModulesOf(a), args, if Missing(ParseFile(text).units, a, args.lvl) == 0 then 0 else -1)
    ensures CanEnd(ModulesOf(a), args, if Missing(ParseFile(text).units, b, args.lvl) == 0 then 0 else -1)
  {
    MadeSingles(a, args.lvl, args.threads);
    EndsInOrder(args, text, a, a);
    EndsInOrder(args, text, a, b);
  }

  // ----- one thread -----

  function FirstOnes(n: nat): (order: seq<nat>)
    ensures |order| == n && forall j :: 0 <= j < n ==> order[j] == j
  {
    seq(n, j => j)
  }

  lemma {:induction false} AloneIsInOrder(c: Config, n: nat)
    requires Singles(c) && n <= |c.mods|
    ensures StoreAfter(c.mods, c.lvl, n) == InOrder(c, FirstOnes(n))
  {
    if n > 0 {
      AloneIsInOrder(c, n - 1);
      assert FirstOnes(n)[..n - 1] == FirstOnes(n - 1);
      var k := n - 1;
      assert Reached(c.mods[k], c.lvl) == 1;
      assert StoreAt(c.mods, c.lvl, StoreAfter(c.mods, c.lvl, k), k, 0) == StoreAfter(c.mods, c.lvl, k);
    }
  }

  lemma AloneInOrder(args: Args, text: string, a: seq<Key>)
    requires Judged(args, text) && AllDotted(a) && a != []
    ensures ExitStatus(ModulesOf(a), args.(threads := 1)) ==
            Exit(if Missing(ParseFile(text).units, a, args.lvl) == 0 then 0 else -1)
  {
    var mods, order := ModulesOf(a), FirstOnes(|a|);
    var args' := args.(threads := |a|);
    MadeSingles(a, args.lvl, |a|);
    AloneIsInOrder(Config(mods, args.lvl, |a|), |mods|);
    VerdictOf(args', text, a, order, a);
    assert !AnyFaults(mods, args.lvl);
    hide AnyFaults;
    hide Missing;
    hide ParseFile;
    hide Keys;
    hide StoreAfter;
    hide InOrder;
    hide Sane;
    hide Singles;
    SameVerdictHere(mods, args, args', StoreAfter(mods, args.lvl, |mods|));
  }

  /** main's verdict does not look at the number of threads. */
  lemma SameVerdictHere(mods: seq<Module>, args: Args, args': Args, store: Option<Tally>)
    requires args' == args.(threads := args'.threads) && Sane(mods, store)
    ensures MainVerdict(mods, args, store) == MainVerdict(mods, args', store)
    ensures MainVerdict(mods, args.(threads := 1), store) == MainVerdict(mods, args', store)
  {
  }

  // ----- every file -----

  /** Whatever the modules are, if no record can be lost: all runs of several
      threads end with the same verdict. */
  ghost predicate Settles(args: Args) {
    forall mods, n, code, code' ::
      n >= 2 && StoreReady(mods, args.lvl)
      && CanEnd(mods, args.(threads := n), code) && CanEnd(mods, args.(threads := n), code')
      ==> code == code'
  }

  /** What settles the verdict: main does not get to match the required tests; or no
      passes can meet them; or their order never shows. */
  ghost predicate Decided(args: Args) {
    forall text :: Judged(args, text) ==>
      !Attainable(ParseFile(text).units, args.lvl)
      || forall name :: OrderFree(Named(ParseFile(text).units, name), args.lvl)
  }

  lemma SameJudged(mods: seq<Module>, args: Args, a: Option<Tally>, b: Option<Tally>, counts: seq<nat>)
    requires Decided(args) && Matches(mods, args.lvl, a, counts) && Matches(mods, args.lvl, b, counts)
    requires Sane(mods, a) && Sane(mods, b)
    ensures MainVerdict(mods, args, a) == MainVerdict(mods, args, b)
  {
    hide Matches;
    hide Missing;
    hide ParseFile;
    hide Nodes;
    hide Keys;
    match args.required {
      case Some(Some(text)) =>
        if Judged(args, text) {
          var units := ParseFile(text).units;
          if Attainable(units, args.lvl) {
            assert Unambiguous(mods, args);
            SameWorkSameVerdict(mods, args, a, b, counts);
          } else {
            if a.Some? && b.Some? {
              KeysDotted(mods, a.value.passing);
              KeysDotted(mods, b.value.passing);
              AlwaysMissing(units, Keys(mods, a.value.passing), args.lvl);
              AlwaysMissing(units, Keys(mods, b.value.passing), args.lvl);
            }
            SameJudgement(mods, args, a, b, counts);
          }
        } else {
          SameJudgement(mods, args, a, b, counts);
        }
      case _ =>
        SameJudgement(mods, args, a, b, counts);
    }
  }

  lemma EndsAlike(mods: seq<Module>, args: Args, code: int, code': int)
    requires Decided(args) && StoreReady(mods, args.lvl)
    requires CanEnd(mods, args, code) && CanEnd(mods, args, code')
    ensures code == code'
  {
    hide Decided;
    hide StoreReady;
    hide MainVerdict;
    hide Sane;
    hide Matches;
    var c := Config(mods, args.lvl, args.threads);
    var s, acts := OneEnd(mods, args, code);
    var s', acts' := OneEnd(mods, args, code');
    RunInv(c, s, acts, |acts|);
    RunInv(c, s', acts', |acts'|);
    FinishedMatches(c, s[|acts|]);
    FinishedMatches(c, s'[|acts'|]);
    SameJudged(mods, args, s[|acts|].store, s'[|acts'|].store, AllReached(mods, args.lvl));
  }

  lemma OneEnd(mods: seq<Module>, args: Args, code: int) returns (states: seq<State>, actions: seq<Action>)
    requires CanEnd(mods, args, code)
    ensures IsRun(Config(mods, args.lvl, args.threads), states, actions) && states[|actions|].main.Finished?
    ensures Sane(mods, states[|actions|].store) && MainVerdict(mods, args, states[|actions|].store) == code
  {
    states, actions :| && IsRun(Config(mods, args.lvl, args.threads), states, actions)
                       && states[|actions|].main.Finished?
                       && Sane(mods, states[|actions|].store)
                       && MainVerdict(mods, args, states[|actions|].store) == code;
  }

  /** The verdict is settled exactly when main does not get to match the
      required tests, no passes can meet them, or their order never shows. */
  lemma SettlesIff(args: Args)
    ensures Settles(args) <==> Decided(args)
  {
    if Decided(args) {
      forall mods, n, code, code' | n >= 2 && StoreReady(mods, args.lvl)
             && CanEnd(mods, args.(threads := n), code) && CanEnd(mods, args.(threads := n), code')
        ensures code == code'
      {
        DecidedFor(args, n);
        EndsAlike(mods, args.(threads := n), code, code');
      }
    } else {
      var text :| Judged(args, text) && Attainable(ParseFile(text).units, args.lvl)
                  && !forall name :: OrderFree(Named(ParseFile(text).units, name), args.lvl);
      Unsettled(args, text);
    }
  }

  lemma DecidedFor(args: Args, n: nat)
    ensures Decided(args) ==> Decided(args.(threads := n))
  {
    assert forall text :: Judged(args.(threads := n), text) ==> Judged(args, text);
  }

  lemma Unsettled(args: Args, text: string)
    requires Judged(args, text) && Attainable(ParseFile(text).units, args.lvl)
    requires exists name :: !OrderFree(Named(ParseFile(text).units, name), args.lvl)
    ensures !Settles(args)
  {
    var units := ParseFile(text).units;
    var name :| !OrderFree(Named(units, name), args.lvl);
    var a, b := MetOrNot(units, name, args.lvl);
    TwoAtLeast(a, b);
    var args' := args.(threads := |a|);
    hide ParseFile;
    hide Missing;
    hide Attainable;
    hide OrderFree;
    assert Judged(args', text);
    BothEnd(args', text, a, b);
    hide CanEnd;
    hide StoreReady;
    assert CanEnd(ModulesOf(a), args', 0) && CanEnd(ModulesOf(a), args', -1);
  }

  lemma TwoAtLeast(a: seq<Key>, b: seq<Key>)
    requires multiset(a) == multiset(b)
    ensures |a| >= 2 || a == b
  {
    var order := Permutation(a, b);
    if |a| <= 1 {
      assert forall j :: 0 <= j < |a| ==> order[j] == j;
      assert a == b;
    }
  }
}
