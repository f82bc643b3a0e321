/** Matching the tests that passed against the required ones
    (userspace/src/required_tests.c, check_executed_tests): the destructive
    search, proved equal to a count that does not depend on the order in which
    the tests passed. */
module RequiredTests {
  import opened Sequences

  datatype TestNode = TestNode(name: string, level: int)
  datatype UnitNode = UnitNode(name: string, tests: seq<TestNode>)

  /** A passing record as the matching sees it: the module's name and
      "fn_name.case_name". */
  datatype Key = Key(unit: string, name: string)

  // ----- the search -----

  function RemoveFirst(tests: seq<TestNode>, name: string): seq<TestNode> {
    if tests == [] then []
    else if tests[0].name == name then tests[1..]
    else [tests[0]] + RemoveFirst(tests[1..], name)
  }

  predicate HasTest(tests: seq<TestNode>, name: string) {
    exists i :: 0 <= i < |tests| && tests[i].name == name
  }

  /** One passing record: only the first unit of that name is searched, its
      first matching test goes, and the unit goes with its last test. */
  function Match(units: seq<UnitNode>, key: Key): seq<UnitNode> {
    if units == [] then []
    else if units[0].name == key.unit then
      if !HasTest(units[0].tests, key.name) then units
      else
        var left := RemoveFirst(units[0].tests, key.name);
        if left == [] then units[1..] else [UnitNode(units[0].name, left)] + units[1..]
    else [units[0]] + Match(units[1..], key)
  }

  function MatchAll(units: seq<UnitNode>, keys: seq<Key>): seq<UnitNode>
    decreases |keys|
  {
    if keys == [] then units else MatchAll(Match(units, keys[0]), keys[1..])
  }

  function CountTests(tests: seq<TestNode>, lvl: int): nat {
    if tests == [] then 0
    else (if tests[0].level <= lvl then 1 else 0) + CountTests(tests[1..], lvl)
  }

  function CountLeft(units: seq<UnitNode>, lvl: int): nat {
    if units == [] then 0
    else CountTests(units[0].tests, lvl) + CountLeft(units[1..], lvl)
  }

  /** check_executed_tests as a function of what was required and what passed. */
  function Missing(units: seq<UnitNode>, keys: seq<Key>, lvl: int): nat {
    CountLeft(MatchAll(units, keys), lvl)
  }

  // ----- the same without an order: cancelling a multiset -----

  /** What is left of `tests` when each element of `passed` takes away one test
      of its name, the first ones first. */
  function Survive(tests: seq<TestNode>, passed: multiset<string>): seq<TestNode> {
    if tests == [] then []
    else if tests[0].name in passed then Survive(tests[1..], passed - multiset{tests[0].name})
    else [tests[0]] + Survive(tests[1..], passed)
  }

  /** The names that passed in unit `unit`, in order. */
  function NamesIn(keys: seq<Key>, unit: string): seq<string> {
    if keys == [] then []
    else if keys[0].unit == unit then [keys[0].name] + NamesIn(keys[1..], unit)
    else NamesIn(keys[1..], unit)
  }

  /** The required tests left, unit by unit. */
  function Leftover(units: seq<UnitNode>, keys: seq<Key>, lvl: int): nat {
    if units == [] then 0
    else CountTests(Survive(units[0].tests, multiset(NamesIn(keys, units[0].name))), lvl)
         + Leftover(units[1..], keys, lvl)
  }

  ghost predicate DistinctNames(units: seq<UnitNode>) {
    forall i, j :: 0 <= i < j < |units| ==> units[i].name != units[j].name
  }

  lemma {:induction false} SurviveNone(tests: seq<TestNode>)
    ensures Survive(tests, multiset{}) == tests
  {
    if tests != [] {
      SurviveNone(tests[1..]);
    }
  }

  /** Removing the first test of a name and then cancelling is cancelling once
      more; without a test of that name both do nothing. */
  lemma {:induction false} SurviveRemoved(tests: seq<TestNode>, name: string, passed: multiset<string>)
    ensures Survive(tests, passed + multiset{name}) == Survive(RemoveFirst(tests, name), passed)
  {
    if tests != [] {
      var head := tests[0].name;
      if head == name {
        assert passed + multiset{name} - multiset{name} == passed;
      } else {
        var rest := RemoveFirst(tests[1..], name);
        assert RemoveFirst(tests, name)[1..] == rest;
        if head in passed {
          assert passed + multiset{name} - multiset{head} == passed - multiset{head} + multiset{name};
          SurviveRemoved(tests[1..], name, passed - multiset{head});
        } else {
          SurviveRemoved(tests[1..], name, passed);
        }
      }
    }
  }

  lemma {:induction false} RemoveFirstAbsent(tests: seq<TestNode>, name: string)
    ensures !HasTest(tests, name) ==> RemoveFirst(tests, name) == tests
    ensures HasTest(tests, name) ==> |RemoveFirst(tests, name)| == |tests| - 1
  {
    if tests != [] {
      RemoveFirstAbsent(tests[1..], name);
      assert forall i :: 0 <= i < |tests| - 1 ==> tests[1..][i] == tests[i + 1];
      if HasTest(tests, name) && tests[0].name != name {
        var i :| 0 <= i < |tests| && tests[i].name == name;
        assert tests[1..][i - 1].name == name;
      }
    }
  }

  /** How many of a name are left: required minus passed, at least zero; so
      exactly min(passed, required) nodes of that name are gone. */
  function Times(tests: seq<TestNode>, name: string): nat {
    if tests == [] then 0 else (if tests[0].name == name then 1 else 0) + Times(tests[1..], name)
  }

  lemma {:induction false} SurviveTimes(tests: seq<TestNode>, passed: multiset<string>, name: string)
    ensures Times(Survive(tests, passed), name) ==
            if passed[name] >= Times(tests, name) then 0 else Times(tests, name) - passed[name]
  {
    if tests != [] {
      var head := tests[0];
      if head.name in passed {
        SurviveTimes(tests[1..], passed - multiset{head.name}, name);
      } else {
        SurviveTimes(tests[1..], passed, name);
        assert ([head] + Survive(tests[1..], passed))[1..] == Survive(tests[1..], passed);
      }
    }
  }

  // ----- one unit name at a time -----

  /** The units of one name, in list order. */
  function Named(units: seq<UnitNode>, name: string): seq<UnitNode> {
    if units == [] then []
    else if units[0].name == name then [units[0]] + Named(units[1..], name)
    else Named(units[1..], name)
  }

  /** The keys of one unit name, in order. */
  function KeysOf(keys: seq<Key>, unit: string): seq<Key> {
    if keys == [] then []
    else if keys[0].unit == unit then [keys[0]] + KeysOf(keys[1..], unit)
    else KeysOf(keys[1..], unit)
  }

  lemma {:induction false} NamedOnly(units: seq<UnitNode>, name: string)
    ensures forall i :: 0 <= i < |Named(units, name)| ==> Named(units, name)[i].name == name
    ensures |Named(units, name)| <= |units|
  {
    if units != [] {
      NamedOnly(units[1..], name);
    }
  }

  lemma {:induction false} NamedConcat(a: seq<UnitNode>, b: seq<UnitNode>, name: string)
    ensures Named(a + b, name) == Named(a, name) + Named(b, name)
  {
    if a == [] {
      assert a + b == b;
    } else {
      assert (a + b)[1..] == a[1..] + b;
      NamedConcat(a[1..], b, name);
    }
  }

  /** A record of one unit concerns the units of that name only, and does to
      them what it would do to them alone. */
  lemma {:induction false} MatchNamed(units: seq<UnitNode>, key: Key, name: string)
    ensures Named(Match(units, key), name) ==
            if key.unit == name then Match(Named(units, name), key) else Named(units, name)
  {
    if units != [] {
      var rest := units[1..];
      if units[0].name == key.unit {
        if HasTest(units[0].tests, key.name) {
          var left := RemoveFirst(units[0].tests, key.name);
          NamedConcat([UnitNode(units[0].name, left)], rest, name);
          if key.unit == name {
            assert Named(units, name)[1..] == Named(rest, name);
          }
        }
      } else {
        MatchNamed(rest, key, name);
        NamedConcat([units[0]], Match(rest, key), name);
      }
    }
  }

  lemma {:induction false} MatchAllNamed(units: seq<UnitNode>, keys: seq<Key>, name: string)
    ensures Named(MatchAll(units, keys), name) == MatchAll(Named(units, name), KeysOf(keys, name))
    decreases |keys|
  {
    if keys != [] {
      MatchNamed(units, keys[0], name);
      MatchAllNamed(Match(units, keys[0]), keys[1..], name);
      if keys[0].unit == name {
        assert KeysOf(keys, name)[1..] == KeysOf(keys[1..], name);
      }
    }
  }

  /** The count of a whole list follows from the counts of its names. */
  function Others(units: seq<UnitNode>, name: string): seq<UnitNode> {
    if units == [] then []
    else if units[0].name == name then Others(units[1..], name)
    else [units[0]] + Others(units[1..], name)
  }

  lemma {:induction false} CountSplits(units: seq<UnitNode>, name: string, lvl: int)
    ensures CountLeft(units, lvl) == CountLeft(Named(units, name), lvl) + CountLeft(Others(units, name), lvl)
    ensures |Others(units, name)| + |Named(units, name)| == |units|
  {
    if units != [] {
      CountSplits(units[1..], name, lvl);
      if units[0].name == name {
        assert Named(units, name)[1..] == Named(units[1..], name);
      } else {
        assert Others(units, name)[1..] == Others(units[1..], name);
      }
    }
  }

  lemma {:induction false} NamedOthers(units: seq<UnitNode>, name: string, other: string)
    ensures Named(Others(units, name), other) == if other == name then [] else Named(units, other)
  {
    if units != [] {
      NamedOthers(units[1..], name, other);
      if units[0].name != name {
        NamedConcat([units[0]], Others(units[1..], name), other);
      }
    }
  }

  lemma {:induction false} CountByName(a: seq<UnitNode>, b: seq<UnitNode>, lvl: int)
    requires forall name :: CountLeft(Named(a, name), lvl) == CountLeft(Named(b, name), lvl)
    ensures CountLeft(a, lvl) == CountLeft(b, lvl)
    decreases |a| + |b|
  {
    if |a| + |b| > 0 {
      var name := if a != [] then a[0].name else b[0].name;
      CountSplits(a, name, lvl);
      CountSplits(b, name, lvl);
      assert a != [] ==> |Named(a, name)| > 0;
      assert a == [] ==> |Named(b, name)| > 0;
      var a', b' := Others(a, name), Others(b, name);
      forall n
        ensures CountLeft(Named(a', n), lvl) == CountLeft(Named(b', n), lvl)
      {
        NamedOthers(a, name, n);
        NamedOthers(b, name, n);
      }
      CountByName(a', b', lvl);
    }
  }

  lemma {:induction false} MatchNothing(keys: seq<Key>)
    ensures MatchAll([], keys) == []
    decreases |keys|
  {
    if keys != [] {
      MatchNothing(keys[1..]);
    }
  }

  lemma {:induction false} KeysOfOnly(keys: seq<Key>, unit: string)
    ensures forall i :: 0 <= i < |KeysOf(keys, unit)| ==> KeysOf(keys, unit)[i].unit == unit
    ensures NamesIn(KeysOf(keys, unit), unit) == NamesIn(keys, unit)
  {
    if keys != [] {
      KeysOfOnly(keys[1..], unit);
      if keys[0].unit == unit {
        assert KeysOf(keys, unit)[1..] == KeysOf(keys[1..], unit);
      }
    }
  }

  /** The keys of a unit are told apart only by their names. */
  lemma {:induction false} SameNamesSameKeys(a: seq<Key>, b: seq<Key>, unit: string)
    requires NamesIn(a, unit) == NamesIn(b, unit)
    ensures KeysOf(a, unit) == KeysOf(b, unit)
    decreases |a| + |b|
  {
    KeysFromNames(a, unit);
    KeysFromNames(b, unit);
  }

  lemma {:induction false} KeysFromNames(keys: seq<Key>, unit: string)
    ensures KeysOf(keys, unit) ==
            seq(|NamesIn(keys, unit)|, i requires 0 <= i < |NamesIn(keys, unit)| => Key(unit, NamesIn(keys, unit)[i]))
  {
    if keys != [] {
      KeysFromNames(keys[1..], unit);
    }
  }

  // ----- the code -----

  /** The global list of required units. */
  class RequiredList {
    var units: seq<UnitNode>

    constructor ()
      ensures units == []
    {
      units := [];
    }

    /** The two nested searches of check_executed_tests. */
    method Find(key: Key) returns (u: nat, t: nat, found: bool)
      ensures found ==> u < |units| && t < |units[u].tests|
                        && units[u].name == key.unit && units[u].tests[t].name == key.name
                        && (forall i :: 0 <= i < u ==> units[i].name != key.unit)
                        && (forall j :: 0 <= j < t ==> units[u].tests[j].name != key.name)
      ensures !found ==> (forall i :: 0 <= i < |units| ==> units[i].name != key.unit)
                         || (u < |units| && units[u].name == key.unit && !HasTest(units[u].tests, key.name)
                             && forall i :: 0 <= i < u ==> units[i].name != key.unit)
    {
      found := false;
      u, t := 0, 0;
      while u < |units|
        invariant 0 <= u <= |units| && !found
        invariant forall i :: 0 <= i < u ==> units[i].name != key.unit
      {
        if units[u].name == key.unit {
          while t < |units[u].tests|
            invariant 0 <= t <= |units[u].tests|
            invariant forall j :: 0 <= j < t ==> units[u].tests[j].name != key.name
          {
            if units[u].tests[t].name == key.name {
              found := true;
              return;
            }
            t := t + 1;
          }
          return;
        }
        u := u + 1;
      }
    }

    /** The body of the first loop for one passing record. */
    method Cancel(key: Key)
      modifies this
      ensures units == Match(old(units), key)
    {
      var u, t, found := Find(key);
      if found {
        RemovedAt(units[u].tests, key.name, t);
        assert HasTest(units[u].tests, key.name);
        MatchAt(units, key, u);
        var left := RemoveAt(units[u].tests, t);
        if left == [] {
          units := RemoveAt(units, u);
        } else {
          units := units[u := UnitNode(units[u].name, left)];
        }
      } else {
        if exists i :: 0 <= i < |units| && units[i].name == key.unit {
          MatchAt(units, key, u);
        } else {
          MatchNowhere(units, key);
        }
      }
    }

    /** check_executed_tests. */
    method CheckExecutedTests(passing: seq<Key>, lvl: int) returns (missing: nat)
      modifies this
      ensures units == MatchAll(old(units), passing)
      ensures missing == Missing(old(units), passing, lvl)
    {
      var r := 0;
      while r < |passing|
        invariant 0 <= r <= |passing|
        invariant MatchAll(units, passing[r..]) == MatchAll(old(units), passing)
      {
        Cancel(passing[r]);
        assert passing[r..][1..] == passing[r + 1..];
        r := r + 1;
      }
      missing := 0;
      var u := 0;
      while u < |units|
        invariant 0 <= u <= |units|
        invariant missing + CountLeft(units[u..], lvl) == CountLeft(units, lvl)
      {
        var t := 0;
        ghost var before := missing;
        var tests := units[u].tests;
        while t < |tests|
          invariant 0 <= t <= |tests|
          invariant missing + CountTests(tests[t..], lvl) == before + CountTests(tests, lvl)
        {
          assert tests[t..][1..] == tests[t + 1..];
          if tests[t].level <= lvl {
            missing := missing + 1;
          }
          t := t + 1;
        }
        assert units[u..][1..] == units[u + 1..];
        u := u + 1;
      }
    }
  }

  lemma {:induction false} RemovedAt(tests: seq<TestNode>, name: string, t: nat)
    requires t < |tests| && tests[t].name == name && forall j :: 0 <= j < t ==> tests[j].name != name
    ensures RemoveFirst(tests, name) == RemoveAt(tests, t)
  {
    if t > 0 {
      RemovedAt(tests[1..], name, t - 1);
    }
  }

  lemma {:induction false} MatchAt(units: seq<UnitNode>, key: Key, u: nat)
    requires u < |units| && units[u].name == key.unit && forall i :: 0 <= i < u ==> units[i].name != key.unit
    ensures var left := RemoveFirst(units[u].tests, key.name);
            Match(units, key) ==
            if !HasTest(units[u].tests, key.name) then units
            else if left == [] then RemoveAt(units, u)
            else units[u := UnitNode(units[u].name, left)]
  {
    if u > 0 {
      MatchAt(units[1..], key, u - 1);
    }
  }

  lemma {:induction false} MatchNowhere(units: seq<UnitNode>, key: Key)
    requires forall i :: 0 <= i < |units| ==> units[i].name != key.unit
    ensures Match(units, key) == units
  {
    if units != [] {
      MatchNowhere(units[1..], key);
    }
  }
}
