/** What success means: exit code 0 read back to the text of the required-tests
    file and the outcomes of the tests. */
module ExitZero {
  import opened Sequences
  import opened Results
  import opened ExecSpec
  import opened ExecRun
  import opened RequiredTests
  import opened SectionOrder
  import opened IniFile
  import opened IniParser
  import opened IniRoundTrip
  import opened IniLines
  import opened Verdict
  import opened Harness

  ghost predicate DistinctTests(tests: seq<TestNode>) {
    forall i, j :: 0 <= i < j < |tests| ==> tests[i].name != tests[j].name
  }

  /** With every name required once, nothing is left exactly when every required
      test of the level is among the passed ones. */
  lemma {:induction false} NothingSurvives(tests: seq<TestNode>, passed: multiset<string>, lvl: int)
    requires DistinctTests(tests)
    ensures CountTests(Survive(tests, passed), lvl) == 0
            <==> forall t :: t in tests && t.level <= lvl ==> t.name in passed
  {
    if tests != [] {
      var head, rest := tests[0], tests[1..];
      assert tests == [head] + rest;
      assert forall t :: t in rest ==> t.name != head.name;
      if head.name in passed {
        NothingSurvives(rest, passed - multiset{head.name}, lvl);
      } else {
        NothingSurvives(rest, passed, lvl);
        assert ([head] + Survive(rest, passed))[1..] == Survive(rest, passed);
      }
    }
  }

  /** Whether each required test of the level is among `keys`. */
  ghost predicate Covered(u: UnitNode, keys: seq<Key>, lvl: int) {
    forall t :: t in u.tests && t.level <= lvl ==> Key(u.name, t.name) in keys
  }

  lemma {:induction false} NothingLeft(units: seq<UnitNode>, keys: seq<Key>, lvl: int)
    requires forall u :: u in units ==> DistinctTests(u.tests)
    ensures Leftover(units, keys, lvl) == 0 <==> forall u :: u in units ==> Covered(u, keys, lvl)
  {
    if units != [] {
      var u := units[0];
      NothingSurvives(u.tests, multiset(NamesIn(keys, u.name)), lvl);
      forall name
        ensures name in multiset(NamesIn(keys, u.name)) <==> Key(u.name, name) in keys
      {
        NameInKeys(keys, u.name, name);
      }
      NothingLeft(units[1..], keys, lvl);
      assert units == [u] + units[1..];
    }
  }

  lemma {:induction false} NameInKeys(keys: seq<Key>, unit: string, name: string)
    ensures name in NamesIn(keys, unit) <==> Key(unit, name) in keys
  {
    if keys != [] {
      NameInKeys(keys[1..], unit, name);
      assert keys == [keys[0]] + keys[1..];
    }
  }

  lemma {:induction false} KeyInKeys(mods: seq<Module>, records: seq<Record>, key: Key)
    requires forall x :: x in records ==> RecordOk(mods, x)
    ensures key in Keys(mods, records) <==> exists x :: x in records && KeyOf(mods, x) == key
  {
    if records != [] {
      var before, x := records[..|records| - 1], records[|records| - 1];
      assert records == before + [x] && x in records;
      KeyInKeys(mods, before, key);
    }
  }

  /** A key is among the passing ones exactly when such a test passed. */
  lemma PassedKeys(mods: seq<Module>, lvl: nat, passing: seq<Record>, key: Key)
    requires forall x :: x in passing ==> RecordOk(mods, x)
    requires forall x :: x in passing <==> Registered(mods, lvl, x, Passed)
    ensures key in Keys(mods, passing) <==> PassedTest(mods, lvl, key)
  {
    KeyInKeys(mods, passing, key);
    hide Registered;
    hide Keys;
    if PassedTest(mods, lvl, key) {
      var x :| Registered(mods, lvl, x, Passed) && key.unit == mods[x.mod].name
               && key.name == mods[x.mod].tests[x.test].fnName + "." + mods[x.mod].tests[x.test].caseName;
      assert x in passing && KeyOf(mods, x) == key;
    }
  }

  lemma {:induction false} ReverseAt<T>(s: seq<T>, i: nat)
    requires i < |s|
    ensures Reverse(s)[|s| - 1 - i] == s[i]
  {
    if i > 0 {
      ReverseAt(s[1..], i - 1);
    }
  }

  lemma {:induction false} ListedAt(units: seq<UnitNode>, i: nat)
    requires i < |units|
    ensures Listed(units)[|units| - 1 - i] == UnitNode(units[i].name, Reverse(units[i].tests))
  {
    if i > 0 {
      ListedAt(units[1..], i - 1);
    }
  }

  lemma ListedDistinct(units: seq<UnitNode>)
    requires DistinctNames(units) && forall u :: u in units ==> DistinctTests(u.tests)
    ensures DistinctNames(Listed(units)) && forall u :: u in Listed(units) ==> DistinctTests(u.tests)
  {
    var n, listed := |units|, Listed(units);
    forall i | 0 <= i < n
      ensures listed[i] == UnitNode(units[n - 1 - i].name, Reverse(units[n - 1 - i].tests))
      ensures DistinctTests(listed[i].tests)
    {
      ListedAt(units, n - 1 - i);
      var tests := units[n - 1 - i].tests;
      assert units[n - 1 - i] in units;
      forall a, b | 0 <= a < b < |tests|
        ensures Reverse(tests)[a].name != Reverse(tests)[b].name
      {
        ReverseAt(tests, |tests| - 1 - a);
        ReverseAt(tests, |tests| - 1 - b);
      }
    }
  }

  /** Whether each required test of the level has passed. */
  ghost predicate UnitPassed(mods: seq<Module>, lvl: nat, u: UnitNode) {
    forall t :: t in u.tests && t.level <= lvl ==> PassedTest(mods, lvl, Key(u.name, t.name))
  }

  lemma {:induction false} ListedRequiresSame(mods: seq<Module>, lvl: nat, units: seq<UnitNode>)
    ensures (forall u :: u in Listed(units) ==> UnitPassed(mods, lvl, u))
            <==> forall u :: u in units ==> UnitPassed(mods, lvl, u)
  {
    if units != [] {
      hide PassedTest;
      var u, rest := units[0], units[1..];
      var r := UnitNode(u.name, Reverse(u.tests));
      ListedRequiresSame(mods, lvl, rest);
      ReverseSameElements(u.tests);
      assert forall t :: t in r.tests <==> t in multiset(r.tests);
      assert forall t :: t in u.tests <==> t in multiset(u.tests);
      assert units == [u] + rest && Listed(units) == Listed(rest) + [r];
      assert UnitPassed(mods, lvl, r) <==> UnitPassed(mods, lvl, u);
    }
  }

  lemma {:induction false} NodesConcat(a: seq<UnitNode>, b: seq<UnitNode>)
    ensures Nodes(a + b) == Nodes(a) + Nodes(b)
  {
    if a == [] {
      assert a + b == b;
    } else {
      assert (a + b)[1..] == a[1..] + b;
      NodesConcat(a[1..], b);
    }
  }

  lemma {:induction false} ListedNodes(units: seq<UnitNode>)
    ensures Nodes(Listed(units)) == Nodes(units)
  {
    if units != [] {
      var last := UnitNode(units[0].name, Reverse(units[0].tests));
      NodesConcat(Listed(units[1..]), [last]);
      assert [last][1..] == [];
      ListedNodes(units[1..]);
    }
  }

  lemma ShortIsFree(s: seq<UnitNode>, lvl: int)
    requires |s| <= 1
    ensures OrderFree(s, lvl)
  {
  }

  lemma DistinctIsFree(units: seq<UnitNode>, lvl: int)
    requires DistinctNames(units)
    ensures forall name :: OrderFree(Named(units, name), lvl)
  {
    forall name
      ensures OrderFree(Named(units, name), lvl)
    {
      NamedDistinct(units, name);
      ShortIsFree(Named(units, name), lvl);
    }
  }

  /** Nothing is listed twice. */
  ghost predicate ListedOnce(units: seq<UnitNode>) {
    DistinctNames(units) && forall u :: u in units ==> DistinctTests(u.tests)
  }

  /** From the text to the exit code: with a file that lists, decorated in any
      way, `units` as required (no section and no test twice), the harness
      exits with 0 exactly when it is not ended by a signal in its only thread,
      has a store, records no failure, is not asked for a single unit, has room
      for the list, and every listed test up to the level passed; and no
      schedule changes that. */
  lemma ExitZeroMeans(mods: seq<Module>, args: Args, units: seq<UnitNode>, entries: seq<(Item, Decor)>)
    requires Contents(entries) == Items(units) && StoreReady(mods, args.lvl)
    requires forall i :: 0 <= i < |entries| ==> EntryOk(entries[i])
    requires ListedOnce(units)
    requires args.required == Some(Some(Text(entries)))
    ensures Unambiguous(mods, args)
    ensures ExitStatus(mods, args) == Exit(0) <==>
              && (args.threads == 1 ==> !AnyFaults(mods, args.lvl))
              && SomethingKept(mods, args.lvl)
              && !FailureRecorded(mods, args.lvl)
              && !args.unitToRun
              && Nodes(units) <= args.room
              && forall u :: u in units ==> UnitPassed(mods, args.lvl, u)
  {
    SuccessMeans(mods, args);
    hide ExitStatus;
    hide SomethingKept;
    hide FailureRecorded;
    hide StoreReady;
    FileRoundTrip(units, entries);
    ListedDistinct(units);
    assert ListedOnce(Listed(units));
    ListedNodes(units);
    DistinctIsFree(Listed(units), args.lvl);
    UnmetMeans(mods, args, Text(entries));
    FileReadable(Text(entries));
    hide Readable;
    ListedRequiresSame(mods, args.lvl, units);
    hide OrderFree;
    hide DistinctNames;
    hide UnitPassed;
    hide RequirementUnmet;
  }

  /** The search finds nothing missing exactly when every required test of the
      level passed. */
  lemma RequiredMeans(mods: seq<Module>, lvl: nat, passing: seq<Record>, units: seq<UnitNode>)
    requires ListedOnce(units)
    requires forall x :: x in passing ==> RecordOk(mods, x)
    requires forall x :: x in passing <==> Registered(mods, lvl, x, Passed)
    ensures Missing(units, Keys(mods, passing), lvl) == 0
            <==> forall u :: u in units ==> UnitPassed(mods, lvl, u)
  {
    var keys := Keys(mods, passing);
    MissingIsLeftover(units, keys, lvl);
    NothingLeft(units, keys, lvl);
    forall key
      ensures key in keys <==> PassedTest(mods, lvl, key)
    {
      PassedKeys(mods, lvl, passing, key);
    }
    assert forall u :: Covered(u, keys, lvl) <==> UnitPassed(mods, lvl, u);
  }

  lemma {:induction false} PassedRecordsAre(mods: seq<Module>, lvl: nat, n: nat)
    requires n <= |mods|
    ensures forall x :: x in PassedRecords(mods, lvl, n) <==> x.mod < n && Registered(mods, lvl, x, Passed)
  {
    if n > 0 {
      PassedRecordsAre(mods, lvl, n - 1);
      RecordedExactly(mods, n - 1, lvl, Reached(mods[n - 1], lvl), Passed);
      hide Recorded;
      hide EndsIn;
      forall x: Record
        ensures x in PassedRecords(mods, lvl, n) <==> x.mod < n && Registered(mods, lvl, x, Passed)
      {
        ArrivesMeans(mods[n - 1], lvl, x.test);
        hide Arrives;
        hide Reached;
      }
    }
  }

  /** Without such a file nothing is unmet; one that cannot be opened is. */
  lemma UnmetWithout(mods: seq<Module>, args: Args)
    ensures args.required == None ==> !RequirementUnmet(mods, args)
    ensures args.required == Some(None) ==> RequirementUnmet(mods, args)
  {
  }

  /** What it is for required tests to be unmet, when nothing is listed twice. */
  lemma UnmetMeans(mods: seq<Module>, args: Args, text: string)
    requires args.required == Some(Some(text)) && ListedOnce(ParseFile(text).units)
    ensures RequirementUnmet(mods, args) <==>
              || !Readable(CleanLines(Chunks(text)), false)
              || Nodes(ParseFile(text).units) > args.room
              || exists u :: u in ParseFile(text).units && !UnitPassed(mods, args.lvl, u)
  {
    PassedOk(mods, args.lvl, |mods|);
    PassedRecordsAre(mods, args.lvl, |mods|);
    RequiredMeans(mods, args.lvl, PassedRecords(mods, args.lvl, |mods|), ParseFile(text).units);
    FileReadable(text);
    hide Readable;
    hide ParseFile;
  }
}
