/** The harness's exit code (userspace/src/unit_main.c, main): what it is, that
    no schedule changes it, and when the number of threads does. */
module Verdict {
  import opened Sequences
  import opened Results
  import opened ExecSpec
  import opened RequiredTests
  import opened SectionOrder
  import opened IniParser

  /** The command line, as far as main looks at it; `required` is the file of
      required tests, whose contents are None when it cannot be opened, and
      `room` is how many list nodes can be allocated for what it lists. */
  datatype Args = Args(lvl: nat, threads: nat, unitToRun: bool, required: Option<Option<string>>, room: nat)

  // ----- what passed, as the matching sees it -----

  /** cmp_test_name's "fn_name.case_name", under the module's name. */
  function KeyOf(mods: seq<Module>, x: Record): Key
    requires RecordOk(mods, x)
  {
    var t := mods[x.mod].tests[x.test];
    Key(mods[x.mod].name, t.fnName + "." + t.caseName)
  }

  function Keys(mods: seq<Module>, records: seq<Record>): seq<Key>
    requires forall x :: x in records ==> RecordOk(mods, x)
  {
    if records == [] then []
    else
      assert records[|records| - 1] in records;
      Keys(mods, records[..|records| - 1]) + [KeyOf(mods, records[|records| - 1])]
  }

  /** Every pass has a dot in its name. */
  lemma {:induction false} KeysDotted(mods: seq<Module>, records: seq<Record>)
    requires forall x :: x in records ==> RecordOk(mods, x)
    ensures AllDotted(Keys(mods, records))
  {
    if records != [] {
      var before, x := records[..|records| - 1], records[|records| - 1];
      assert x in records;
      KeysDotted(mods, before);
      var t := mods[x.mod].tests[x.test];
      assert (t.fnName + "." + t.caseName)[|t.fnName|] == '.';
    }
  }

  lemma {:induction false} NamesInAppend(keys: seq<Key>, key: Key, unit: string)
    ensures NamesIn(keys + [key], unit) == NamesIn(keys, unit) + if key.unit == unit then [key.name] else []
  {
    if keys == [] {
      assert [] + [key] == [key];
    } else {
      assert (keys + [key])[1..] == keys[1..] + [key];
      NamesInAppend(keys[1..], key, unit);
    }
  }

  /** The names of unit `unit` among the records, in order. */
  function Names(mods: seq<Module>, records: seq<Record>, unit: string): seq<string>
    requires forall x :: x in records ==> RecordOk(mods, x)
  {
    NamesIn(Keys(mods, records), unit)
  }

  lemma NamesLast(mods: seq<Module>, records: seq<Record>, x: Record, unit: string)
    requires RecordOk(mods, x) && forall y :: y in records ==> RecordOk(mods, y)
    ensures forall y :: y in records + [x] ==> RecordOk(mods, y)
    ensures Names(mods, records + [x], unit)
            == Names(mods, records, unit) + if mods[x.mod].name == unit then [KeyOf(mods, x).name] else []
  {
    assert (records + [x])[..|records|] == records;
    NamesInAppend(Keys(mods, records), KeyOf(mods, x), unit);
  }

  /** When only module `k` has that name, its names are those of its records. */
  lemma {:induction false} NamesOfOne(mods: seq<Module>, records: seq<Record>, k: nat, unit: string)
    requires k < |mods| && forall j :: 0 <= j < |mods| && mods[j].name == unit ==> j == k
    requires forall x :: x in records ==> RecordOk(mods, x)
    ensures forall x :: x in Proj(records, k) ==> RecordOk(mods, x)
    ensures Names(mods, records, unit) == Names(mods, Proj(records, k), unit)
  {
    ProjIn(records, k);
    if records != [] {
      var before, x := records[..|records| - 1], records[|records| - 1];
      assert records == before + [x] && x in records;
      NamesOfOne(mods, before, k, unit);
      ProjAppend(before, x, k);
      NamesLast(mods, before, x, unit);
      if x.mod == k {
        NamesLast(mods, Proj(before, k), x, unit);
      }
    }
  }

  /** The names of a unit, gathered module by module. */
  function Gathered(mods: seq<Module>, records: seq<Record>, unit: string, n: nat): multiset<string>
    requires n <= |mods| && forall x :: x in records ==> RecordOk(mods, x)
    decreases n
  {
    if n == 0 then multiset{}
    else
      ProjIn(records, n - 1);
      Gathered(mods, records, unit, n - 1) + multiset(Names(mods, Proj(records, n - 1), unit))
  }

  lemma {:induction false} GatheredLast(mods: seq<Module>, records: seq<Record>, x: Record, unit: string, n: nat)
    requires n <= |mods| && RecordOk(mods, x) && forall y :: y in records ==> RecordOk(mods, y)
    ensures forall y :: y in records + [x] ==> RecordOk(mods, y)
    ensures Gathered(mods, records + [x], unit, n)
            == Gathered(mods, records, unit, n)
               + if x.mod < n && mods[x.mod].name == unit then multiset{KeyOf(mods, x).name} else multiset{}
    decreases n
  {
    hide Names;
    if n > 0 {
      GatheredLast(mods, records, x, unit, n - 1);
      ProjAppend(records, x, n - 1);
      ProjIn(records, n - 1);
      if x.mod == n - 1 {
        NamesLast(mods, Proj(records, n - 1), x, unit);
      }
    }
  }

  lemma {:induction false} NamesGathered(mods: seq<Module>, records: seq<Record>, unit: string)
    requires forall x :: x in records ==> RecordOk(mods, x)
    ensures multiset(Names(mods, records, unit)) == Gathered(mods, records, unit, |mods|)
  {
    if records == [] {
      GatheredNone(mods, unit, |mods|);
    } else {
      var before, x := records[..|records| - 1], records[|records| - 1];
      assert records == before + [x] && x in records;
      NamesGathered(mods, before, unit);
      NamesLast(mods, before, x, unit);
      GatheredLast(mods, before, x, unit, |mods|);
    }
  }

  lemma {:induction false} GatheredNone(mods: seq<Module>, unit: string, n: nat)
    requires n <= |mods|
    ensures Gathered(mods, [], unit, n) == multiset{}
    decreases n
  {
    if n > 0 {
      GatheredNone(mods, unit, n - 1);
    }
  }

  lemma {:induction false} GatheredAgrees(mods: seq<Module>, a: seq<Record>, b: seq<Record>, unit: string, n: nat)
    requires n <= |mods|
    requires forall x :: x in a ==> RecordOk(mods, x)
    requires forall x :: x in b ==> RecordOk(mods, x)
    requires forall k :: 0 <= k < |mods| ==> Proj(a, k) == Proj(b, k)
    ensures Gathered(mods, a, unit, n) == Gathered(mods, b, unit, n)
    decreases n
  {
    if n > 0 {
      GatheredAgrees(mods, a, b, unit, n - 1);
    }
  }

  // ----- the exit code -----

  /** What main returns once core_exec has left `store`. */
  function MainVerdict(mods: seq<Module>, args: Args, store: Option<Tally>): int
    requires store.Some? ==> forall x :: x in store.value.passing ==> RecordOk(mods, x)
  {
    match store
    case None => -1
    case Some(t) =>
      if t.nrTests - t.nrPassing - t.nrSkipped != 0 then -1
      else if args.unitToRun then -2
      else if RequirementFails(mods, args, t.passing) then -1
      else 0
  }

  /** The required tests cannot be loaded, or some did not pass. */
  predicate RequirementFails(mods: seq<Module>, args: Args, passing: seq<Record>)
    requires forall x :: x in passing ==> RecordOk(mods, x)
  {
    match args.required
    case None => false
    case Some(None) => true
    case Some(Some(text)) =>
      var p := ParseFile(text);
      !p.ok || Nodes(p.units) > args.room || Missing(p.units, Keys(mods, passing), args.lvl) != 0
  }

  /** Where modules share a name, the order in which their tests pass does not
      show in the sections of that name; one section always qualifies. */
  ghost predicate Unambiguous(mods: seq<Module>, args: Args) {
    match args.required
    case Some(Some(text)) =>
      forall i, j :: 0 <= i < j < |mods| && mods[i].name == mods[j].name ==>
        OrderFree(Named(ParseFile(text).units, mods[i].name), args.lvl)
    case _ => true
  }

  lemma MatchesLists(mods: seq<Module>, lvl: nat, store: Option<Tally>, counts: seq<nat>)
    requires Matches(mods, lvl, store, counts)
    ensures Counts(mods, counts)
    ensures store.Some? ==> forall x :: x in store.value.passing ==> RecordOk(mods, x)
    ensures store.Some? ==> forall x :: x in store.value.failing ==> RecordOk(mods, x)
    ensures store.Some? ==> forall x :: x in store.value.skipped ==> RecordOk(mods, x)
    ensures store.Some? ==> forall k :: 0 <= k < |mods| ==>
              && Proj(store.value.passing, k) == Recorded(mods, k, lvl, counts[k], Passed)
              && Proj(store.value.failing, k) == Recorded(mods, k, lvl, counts[k], Failed)
              && Proj(store.value.skipped, k) == Recorded(mods, k, lvl, counts[k], Skipped)
    ensures store.Some? ==> store.value.nrTests - store.value.nrPassing - store.value.nrSkipped == |store.value.failing|
    ensures store.Some? <==> Granted(mods, counts)
  {
    if store.Some? {
      var t := store.value;
      assert t.Of(Passed) == t.passing && t.Of(Failed) == t.failing && t.Of(Skipped) == t.skipped;
    }
  }

  lemma {:induction false} NoneProjected(mods: seq<Module>, records: seq<Record>)
    requires forall x :: x in records ==> RecordOk(mods, x)
    ensures records == [] <==> forall k :: 0 <= k < |mods| ==> Proj(records, k) == []
  {
    if records != [] {
      var x := records[0];
      ProjIn(records, x.mod);
      assert x in records;
      assert x in Proj(records, x.mod);
    }
  }

  lemma MissingSameWork(mods: seq<Module>, units: seq<UnitNode>, lvl: int, a: seq<Record>, b: seq<Record>)
    requires forall x :: x in a ==> RecordOk(mods, x)
    requires forall x :: x in b ==> RecordOk(mods, x)
    requires forall k :: 0 <= k < |mods| ==> Proj(a, k) == Proj(b, k)
    requires forall i, j :: 0 <= i < j < |mods| && mods[i].name == mods[j].name ==>
               OrderFree(Named(units, mods[i].name), lvl)
    ensures Missing(units, Keys(mods, a), lvl) == Missing(units, Keys(mods, b), lvl)
  {
    forall name
      ensures multiset(NamesIn(Keys(mods, a), name)) == multiset(NamesIn(Keys(mods, b), name))
      ensures NamesIn(Keys(mods, a), name) == NamesIn(Keys(mods, b), name) || OrderFree(Named(units, name), lvl)
    {
      NamesGathered(mods, a, name);
      NamesGathered(mods, b, name);
      GatheredAgrees(mods, a, b, name, |mods|);
      if forall k :: 0 <= k < |mods| ==> mods[k].name != name {
        NobodysNames(mods, a, name);
        NobodysNames(mods, b, name);
      } else {
        var k :| 0 <= k < |mods| && mods[k].name == name;
        if forall j :: 0 <= j < |mods| && mods[j].name == name ==> j == k {
          NamesOfOne(mods, a, k, name);
          NamesOfOne(mods, b, k, name);
        } else {
          var j :| 0 <= j < |mods| && mods[j].name == name && j != k;
          var lo, hi := if j < k then j else k, if j < k then k else j;
          assert mods[lo].name == mods[hi].name;
        }
      }
    }
    KeysDotted(mods, a);
    KeysDotted(mods, b);
    MissingAgrees(units, Keys(mods, a), Keys(mods, b), lvl);
  }

  lemma {:induction false} NobodysNames(mods: seq<Module>, records: seq<Record>, name: string)
    requires forall k :: 0 <= k < |mods| ==> mods[k].name != name
    requires forall x :: x in records ==> RecordOk(mods, x)
    ensures Names(mods, records, name) == []
  {
    if records != [] {
      var before, x := records[..|records| - 1], records[|records| - 1];
      assert records == before + [x] && x in records;
      NobodysNames(mods, before, name);
      NamesLast(mods, before, x, name);
    }
  }

  /** For the same work the verdict is the same if main's judgement of the
      required tests is. */
  lemma SameJudgement(mods: seq<Module>, args: Args, a: Option<Tally>, b: Option<Tally>, counts: seq<nat>)
    requires Matches(mods, args.lvl, a, counts) && Matches(mods, args.lvl, b, counts)
    requires a.Some? ==> forall x :: x in a.value.passing ==> RecordOk(mods, x)
    requires b.Some? ==> forall x :: x in b.value.passing ==> RecordOk(mods, x)
    requires a.Some? && b.Some? && !args.unitToRun ==>
               RequirementFails(mods, args, a.value.passing) == RequirementFails(mods, args, b.value.passing)
    ensures MainVerdict(mods, args, a) == MainVerdict(mods, args, b)
  {
    MatchesLists(mods, args.lvl, a, counts);
    MatchesLists(mods, args.lvl, b, counts);
    hide Matches;
    hide RequirementFails;
    if a.Some? {
      NoneProjected(mods, a.value.failing);
      NoneProjected(mods, b.value.failing);
    }
  }

  /** The order in which the same work was recorded does not show in main's
      verdict. */
  lemma SameWorkSameVerdict(mods: seq<Module>, args: Args, a: Option<Tally>, b: Option<Tally>, counts: seq<nat>)
    requires Unambiguous(mods, args)
    requires Matches(mods, args.lvl, a, counts) && Matches(mods, args.lvl, b, counts)
    ensures a.Some? ==> forall x :: x in a.value.passing ==> RecordOk(mods, x)
    ensures b.Some? ==> forall x :: x in b.value.passing ==> RecordOk(mods, x)
    ensures MainVerdict(mods, args, a) == MainVerdict(mods, args, b)
  {
    MatchesLists(mods, args.lvl, a, counts);
    MatchesLists(mods, args.lvl, b, counts);
    hide Matches;
    if a.Some? && args.required.Some? && args.required.value.Some? {
      MissingSameWork(mods, ParseFile(args.required.value.value).units, args.lvl, a.value.passing, b.value.passing);
    }
    SameJudgement(mods, args, a, b, counts);
  }
}
