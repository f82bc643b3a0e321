/** For which files of required tests some passes leave nothing missing in one
    order and something in another. */
module FileOrders {
  import opened RequiredTests
  import opened SectionOrder
  import opened OrderWitness

  /** The sections of one unit: every test up to the level can be cancelled, as
      passes have dots and the sections before it can be emptied. */
  ghost predicate Clearable(s: seq<UnitNode>, lvl: int) {
    forall k, t :: 0 <= k < |s| && t in s[k].tests && t.level <= lvl ==> Dotted(t.name) && Reachable(s, k)
  }

  ghost predicate Attainable(units: seq<UnitNode>, lvl: int) {
    forall name :: Clearable(Named(units, name), lvl)
  }

  // ----- not attainable: something is always missing -----

  /** Test `t` of section k is never cancelled. */
  ghost predicate Stuck(s: seq<UnitNode>, lvl: int, k: nat, t: TestNode) {
    k < |s| && t in s[k].tests && t.level <= lvl && (!Dotted(t.name) || !Reachable(s, k))
  }

  lemma StuckCounts(s: seq<UnitNode>, lvl: int, k: nat, t: TestNode)
    requires Stuck(s, lvl, k, t)
    ensures CountLeft(s, lvl) > 0
  {
    assert s == s[..k] + s[k..];
    CountConcat(s[..k], s[k..], lvl);
    TestCounts(s[k].tests, t, lvl);
  }

  lemma StuckBehind(s: seq<UnitNode>, lvl: int, k: nat, t: TestNode)
    requires Stuck(s, lvl, k, t) && Passable(s[0].tests) && |s[0].tests| == 1
    requires k == 0 ==> t.name != s[0].tests[0].name
    ensures k > 0 && Stuck(s[1..], lvl, k - 1, t)
  {
    var r := s[1..];
    assert forall j :: 0 <= j < |r| ==> r[j] == s[j + 1];
    assert Reachable(s, 0);
    if Dotted(t.name) && k > 0 {
      var j :| 0 <= j < k && !Passable(s[j].tests);
      assert r[j - 1] == s[j];
    }
  }

  lemma StuckFirst(s: seq<UnitNode>, name: string, lvl: int, k: nat, t: TestNode)
    requires Stuck(s, lvl, k, t) && Dotted(name) && HasTest(s[0].tests, name)
    ensures Stuck([UnitNode(s[0].name, RemoveFirst(s[0].tests, name))] + s[1..], lvl, k, t)
            || (k == 0 && Dotted(t.name))
  {
    var tests, left := s[0].tests, RemoveFirst(s[0].tests, name);
    var r := [UnitNode(s[0].name, left)] + s[1..];
    assert forall j :: 0 < j < |s| ==> r[j] == s[j];
    if k == 0 {
      if !Dotted(t.name) {
        RemovedKeeps(tests, name, t);
      }
    } else if Dotted(t.name) {
      var j :| 0 <= j < k && !Passable(s[j].tests);
      if j == 0 {
        var i :| 0 <= i < |tests| && tests[i].name == name;
        var u :| u in tests && !Dotted(u.name);
        RemovedKeeps(tests, name, u);
        assert !Passable(r[0].tests);
      } else {
        assert r[j] == s[j];
      }
    }
  }

  lemma MatchStuck(s: seq<UnitNode>, key: Key, lvl: int, k: nat, t: TestNode) returns (k': nat)
    requires Stuck(s, lvl, k, t) && AllNamed(s, key.unit) && Dotted(key.name)
    ensures Stuck(Match(s, key), lvl, k', t) && AllNamed(Match(s, key), key.unit)
  {
    var tests := s[0].tests;
    k' := k;
    assert Reachable(s, 0);
    if HasTest(tests, key.name) {
      if RemoveFirst(tests, key.name) == [] {
        OnlyOne(tests, key.name);
        assert tests == [tests[0]];
        StuckBehind(s, lvl, k, t);
        k' := k - 1;
      } else {
        StuckFirst(s, key.name, lvl, k, t);
      }
    }
  }

  lemma OnlyOne(tests: seq<TestNode>, name: string)
    requires HasTest(tests, name) && RemoveFirst(tests, name) == []
    ensures |tests| == 1 && tests[0].name == name
  {
    RemoveFirstAbsent(tests, name);
  }

  lemma {:induction false} NeverClear(s: seq<UnitNode>, keys: seq<Key>, unit: string, lvl: int, k: nat, t: TestNode)
    requires Stuck(s, lvl, k, t) && AllNamed(s, unit) && Passes(keys, unit)
    ensures CountLeft(MatchAll(s, keys), lvl) > 0
    decreases |keys|
  {
    if keys == [] {
      StuckCounts(s, lvl, k, t);
    } else {
      var k' := MatchStuck(s, keys[0], lvl, k, t);
      NeverClear(Match(s, keys[0]), keys[1..], unit, lvl, k', t);
    }
  }

  /** Whatever passes, in whatever order. */
  lemma AlwaysMissing(units: seq<UnitNode>, keys: seq<Key>, lvl: int)
    requires !Attainable(units, lvl) && AllDotted(keys)
    ensures Missing(units, keys, lvl) > 0
  {
    var unit :| !Clearable(Named(units, unit), lvl);
    var s := Named(units, unit);
    NamedOnly(units, unit);
    var k, t :| 0 <= k < |s| && t in s[k].tests && t.level <= lvl && !(Dotted(t.name) && Reachable(s, k));
    KeysOfOnly(keys, unit);
    KeysOfDotted(keys, unit);
    NeverClear(s, KeysOf(keys, unit), unit, lvl, k, t);
    MatchAllNamed(units, keys, unit);
    CountSplits(MatchAll(units, keys), unit, lvl);
  }

  // ----- attainable: passes that leave nothing -----

  lemma {:induction false} NoneUpTo(tests: seq<TestNode>, lvl: int)
    requires forall t :: t in tests ==> t.level > lvl
    ensures CountTests(tests, lvl) == 0
  {
    if tests != [] {
      assert tests[0] in tests;
      NoneUpTo(tests[1..], lvl);
    }
  }

  lemma {:induction false} NoneBehind(s: seq<UnitNode>, lvl: int)
    requires forall k, t :: 0 <= k < |s| && t in s[k].tests ==> t.level > lvl
    ensures CountLeft(s, lvl) == 0
  {
    if s != [] {
      NoneUpTo(s[0].tests, lvl);
      assert forall j :: 0 <= j < |s| - 1 ==> s[1..][j] == s[j + 1];
      NoneBehind(s[1..], lvl);
    }
  }

  lemma ClearableTail(s: seq<UnitNode>, lvl: int)
    requires s != [] && Passable(s[0].tests) && Clearable(s, lvl)
    ensures Clearable(s[1..], lvl)
  {
    var g := s[1..];
    assert forall j :: 0 <= j < |g| ==> g[j] == s[j + 1];
    forall k, t | 0 <= k < |g| && t in g[k].tests && t.level <= lvl
      ensures Dotted(t.name) && Reachable(g, k)
    {
      assert Reachable(s, k + 1);
    }
  }

  /** Passes for all tests of one unit that can be cancelled. */
  lemma {:induction false} Clear(s: seq<UnitNode>, unit: string, lvl: int) returns (keys: seq<Key>)
    requires AllNamed(s, unit) && Clearable(s, lvl)
    ensures Passes(keys, unit) && CountLeft(MatchAll(s, keys), lvl) == 0
  {
    if s == [] {
      keys := [];
    } else {
      var tests, g := s[0].tests, s[1..];
      StayingAre(tests, "");
      NoneUpTo(Staying(tests, ""), lvl);
      CountRest(unit, Staying(tests, ""), g, lvl);
      if tests != [] {
        assert s == Rest(unit, tests, g);
        PassThem(unit, tests, "", g);
      }
      keys := KeysFor(unit, Passing(tests, ""));
      if Passable(tests) {
        NoUndotted(tests);
        ClearableTail(s, lvl);
        var others := Clear(g, unit, lvl);
        MatchAllConcat(s, keys, others);
        keys := keys + others;
      } else {
        NotPast(s, lvl);
        NoneBehind(g, lvl);
      }
    }
  }

  lemma NotPast(s: seq<UnitNode>, lvl: int)
    requires s != [] && !Passable(s[0].tests) && Clearable(s, lvl)
    ensures forall k, t :: 0 <= k < |s| - 1 && t in s[1..][k].tests ==> t.level > lvl
  {
    forall k, t | 0 <= k < |s| - 1 && t in s[1..][k].tests
      ensures t.level > lvl
    {
      assert s[1..][k] == s[k + 1] && !Reachable(s, k + 1);
    }
  }

  /** The last section with a test up to the level. */
  lemma LastTelling(s: seq<UnitNode>, lvl: int, k: nat, r: TestNode) returns (last: nat, t: TestNode)
    requires k < |s| && r in s[k].tests && r.level <= lvl
    ensures k <= last < |s| && t in s[last].tests && t.level <= lvl
    ensures last == k ==> t == r
    ensures forall j, u :: last < j < |s| && u in s[j].tests ==> u.level > lvl
  {
    last, t := k, r;
    var n := k + 1;
    while n < |s|
      invariant k <= last < n <= |s| && t in s[last].tests && t.level <= lvl && (last == k ==> t == r)
      invariant forall j, u :: last < j < n && u in s[j].tests ==> u.level > lvl
    {
      if u :| u in s[n].tests && u.level <= lvl {
        last, t := n, u;
      }
      n := n + 1;
    }
  }

  /** Sections that can be cleared but are not free of order: two orders of the
      same passes, one of which clears them and the other does not. */
  lemma ClearOrNot(s: seq<UnitNode>, unit: string, lvl: int) returns (a: seq<Key>, b: seq<Key>)
    requires AllNamed(s, unit) && Clearable(s, lvl) && !OrderFree(s, lvl)
    ensures Passes(a, unit) && Passes(b, unit) && multiset(a) == multiset(b)
    ensures CountLeft(MatchAll(s, a), lvl) == 0 && CountLeft(MatchAll(s, b), lvl) > 0
  {
    hide MatchAll;
    hide Rest;
    hide CountLeft;
    hide Tells;
    hide Holds;
    hide OrderFree;
    var k, name, good, bad, left := AtTheLast(s, unit, lvl);
    var others := KeysFor(unit, Passing(left, name));
    PassThem(unit, left, name, s[k + 1..]);
    OthersOnly(unit, left, name);
    hide KeysFor;
    hide Passing;
    NothingStays(s, unit, lvl, k, left, name);
    a, b := good + others, bad + others;
    MatchAllConcat(s, good, others);
    MatchAllConcat(s, bad, others);
    MatchAllHolds(MatchAll(s, bad), others, name, lvl);
    HoldsCounts(MatchAll(s, b), name, lvl);
    assert multiset(a) == multiset(good) + multiset(others);
    assert multiset(b) == multiset(bad) + multiset(others);
    PassesBoth(unit, good, others);
    PassesBoth(unit, bad, others);
    hide Passes;
  }

  /** Two orders that differ at the last section with a test up to the level. */
  lemma AtTheLast(s: seq<UnitNode>, unit: string, lvl: int)
    returns (k: nat, name: string, good: seq<Key>, bad: seq<Key>, left: seq<TestNode>)
    requires AllNamed(s, unit) && Clearable(s, lvl) && !OrderFree(s, lvl)
    ensures k < |s| && forall j, u :: k < j < |s| && u in s[j].tests ==> u.level > lvl
    ensures Passes(good, unit) && Passes(bad, unit) && multiset(good) == multiset(bad)
    ensures MatchAll(s, good) == Rest(unit, left, s[k + 1..])
    ensures (forall t :: t in left ==> t in s[k].tests) && !Tells(left, name, lvl)
    ensures Holds(MatchAll(s, bad), name, lvl)
  {
    var i: nat, k0: nat, p, q, r0 :| ShowsAt(s, lvl, i, k0, p, q, r0);
    var r;
    k, r := LastTelling(s, lvl, k0, r0);
    assert ShowsAt(s, lvl, i, k, p, q, r);
    name := r.name;
    good, bad, left := GoodAndBad(s, unit, lvl, i, k, p, q, r);
  }

  lemma NothingStays(s: seq<UnitNode>, unit: string, lvl: int, k: nat, left: seq<TestNode>, name: string)
    requires Clearable(s, lvl) && k < |s| && (forall t :: t in left ==> t in s[k].tests) && !Tells(left, name, lvl)
    requires forall j, u :: k < j < |s| && u in s[j].tests ==> u.level > lvl
    ensures CountLeft(Rest(unit, Staying(left, name), s[k + 1..]), lvl) == 0
  {
    var g := s[k + 1..];
    StayAbove(s, lvl, k, left, name);
    NoneUpTo(Staying(left, name), lvl);
    assert forall j :: 0 <= j < |g| ==> g[j] == s[k + 1 + j];
    NoneBehind(g, lvl);
    CountRest(unit, Staying(left, name), g, lvl);
  }

  lemma StayAbove(s: seq<UnitNode>, lvl: int, k: nat, left: seq<TestNode>, name: string)
    requires Clearable(s, lvl) && k < |s| && (forall t :: t in left ==> t in s[k].tests) && !Tells(left, name, lvl)
    ensures forall t :: t in Staying(left, name) ==> t.level > lvl
  {
    StayingAre(left, name);
    forall t | t in Staying(left, name)
      ensures t.level > lvl
    {
      assert t in left && t in s[k].tests;
      assert t.name == name ==> !Telling(t, lvl);
    }
  }

  lemma {:induction false} OthersOnly(unit: string, tests: seq<TestNode>, x: string)
    ensures forall i :: 0 <= i < |KeysFor(unit, Passing(tests, x))| ==> KeysFor(unit, Passing(tests, x))[i].name != x
  {
    if tests != [] {
      OthersOnly(unit, tests[1..], x);
      if Dotted(tests[0].name) && tests[0].name != x {
        assert Passing(tests, x)[1..] == Passing(tests[1..], x);
      }
    }
  }

  // ----- all units -----

  lemma {:induction false} KeysOfConcat(a: seq<Key>, b: seq<Key>, unit: string)
    ensures KeysOf(a + b, unit) == KeysOf(a, unit) + KeysOf(b, unit)
  {
    if a == [] {
      assert a + b == b;
    } else {
      assert (a + b)[1..] == a[1..] + b;
      KeysOfConcat(a[1..], b, unit);
    }
  }

  lemma {:induction false} KeysOfNone(keys: seq<Key>, unit: string, other: string)
    requires OfUnit(keys, unit) && other != unit
    ensures KeysOf(keys, other) == []
  {
    if keys != [] {
      KeysOfNone(keys[1..], unit, other);
    }
  }

  /** Passes that clear the units of some names and concern no other. */
  lemma {:induction false} ClearNames(units: seq<UnitNode>, names: set<string>, lvl: int) returns (keys: seq<Key>)
    requires Attainable(units, lvl)
    ensures AllDotted(keys)
    ensures forall name :: name !in names ==> KeysOf(keys, name) == []
    ensures forall name :: name in names ==>
              CountLeft(MatchAll(Named(units, name), KeysOf(keys, name)), lvl) == 0
  {
    if names == {} {
      keys := [];
    } else {
      var unit :| unit in names;
      NamedOnly(units, unit);
      var first := Clear(Named(units, unit), unit, lvl);
      var others := ClearNames(units, names - {unit}, lvl);
      keys := first + others;
      forall name
        ensures KeysOf(keys, name) == if name == unit then first else KeysOf(others, name)
      {
        KeysOfConcat(first, others, name);
        if name == unit {
          KeysOfAll(first, unit);
        } else {
          KeysOfNone(first, unit, name);
        }
      }
    }
  }

  function Names(units: seq<UnitNode>): set<string> {
    set u | u in units :: u.name
  }

  lemma {:induction false} NamedNobody(units: seq<UnitNode>, name: string)
    requires name !in Names(units)
    ensures Named(units, name) == []
  {
    if units != [] {
      assert units[0] in units;
      NamedNobody(units[1..], name);
    }
  }

  /** A file that can be met, with a unit whose sections are not free of order:
      two orders of the same passes, one of which leaves nothing missing and the
      other something. */
  lemma MetOrNot(units: seq<UnitNode>, unit: string, lvl: int) returns (a: seq<Key>, b: seq<Key>)
    requires Attainable(units, lvl) && !OrderFree(Named(units, unit), lvl)
    ensures AllDotted(a) && AllDotted(b) && multiset(a) == multiset(b)
    ensures Missing(units, a, lvl) == 0 && Missing(units, b, lvl) > 0
  {
    NamedOnly(units, unit);
    var good, bad := ClearOrNot(Named(units, unit), unit, lvl);
    var others := ClearNames(units, Names(units) - {unit}, lvl);
    a, b := others + good, others + bad;
    hide Attainable;
    hide OrderFree;
    hide CountLeft;
    hide MatchAll;
    forall name
      ensures CountLeft(Named(MatchAll(units, a), name), lvl) == 0
    {
      OneUnit(units, others, good, unit, name);
      if name != unit && name !in Names(units) {
        NamedNobody(units, name);
        MatchNothing(KeysOf(others, name));
        NoneBehind([], lvl);
      }
    }
    OneUnit(units, others, bad, unit, unit);
    CountSplits(MatchAll(units, b), unit, lvl);
    NoneNamed(MatchAll(units, a), lvl);
  }

  lemma OneUnit(units: seq<UnitNode>, others: seq<Key>, keys: seq<Key>, unit: string, name: string)
    requires OfUnit(keys, unit) && KeysOf(others, unit) == []
    ensures Named(MatchAll(units, others + keys), name)
            == MatchAll(Named(units, name), if name == unit then keys else KeysOf(others, name))
  {
    MatchAllNamed(units, others + keys, name);
    KeysOfConcat(others, keys, name);
    if name == unit {
      KeysOfAll(keys, unit);
      assert [] + keys == keys;
    } else {
      KeysOfNone(keys, unit, name);
      assert KeysOf(others, name) + [] == KeysOf(others, name);
    }
  }

  lemma NoneNamed(units: seq<UnitNode>, lvl: int)
    requires forall name :: CountLeft(Named(units, name), lvl) == 0
    ensures CountLeft(units, lvl) == 0
  {
    forall name
      ensures CountLeft(Named(units, name), lvl) == CountLeft(Named([], name), lvl)
    {
    }
    CountByName(units, [], lvl);
  }
}
