/** When the order in which tests passed shows in the count of missing ones
    (userspace/src/required_tests.c, check_executed_tests): what the sections of
    one unit must be like for it not to show. */
module SectionOrder {
  import opened RequiredTests

  // ----- the sections of one unit -----

  /** A pass is "fn_name.case_name", so only such names are ever cancelled. */
  predicate Dotted(name: string) {
    '.' in name
  }

  ghost predicate AllDotted(keys: seq<Key>) {
    forall i :: 0 <= i < |keys| ==> Dotted(keys[i].name)
  }

  ghost predicate AllNamed(s: seq<UnitNode>, unit: string) {
    forall i :: 0 <= i < |s| ==> s[i].name == unit
  }

  ghost predicate OfUnit(keys: seq<Key>, unit: string) {
    forall i :: 0 <= i < |keys| ==> keys[i].unit == unit
  }

  /** The section can be emptied, which lets the search past it. */
  ghost predicate Passable(tests: seq<TestNode>) {
    tests != [] && forall t :: t in tests ==> Dotted(t.name)
  }

  ghost predicate Reachable(s: seq<UnitNode>, k: nat) {
    k < |s| && forall j :: 0 <= j < k ==> Passable(s[j].tests)
  }

  /** Whether it shows in the count that the test was cancelled. */
  predicate Telling(t: TestNode, lvl: int) {
    Dotted(t.name) && t.level <= lvl
  }

  /** The sections of one unit, in list order: the neighbours i and i + 1 hold
      tests of different names, so that a pass of `q` is lost before section i
      is empty and not after it; and the pass that is then wanting shows at test
      `r` of a section behind section i that can be reached. */
  ghost predicate ShowsAt(s: seq<UnitNode>, lvl: int, i: nat, k: nat, p: TestNode, q: TestNode, r: TestNode) {
    && i < k && Reachable(s, k)
    && p in s[i].tests && q in s[i + 1].tests && Dotted(q.name) && p.name != q.name
    && r in s[k].tests && Telling(r, lvl)
    && (k == i + 1 ==> r.name == q.name)
  }

  ghost predicate OrderFree(s: seq<UnitNode>, lvl: int) {
    forall i: nat, k: nat, p, q, r :: !ShowsAt(s, lvl, i, k, p, q, r)
  }

  lemma ShowsBehind(s: seq<UnitNode>, lvl: int, i: nat, k: nat, p: TestNode, q: TestNode, r: TestNode)
    requires s != [] && Passable(s[0].tests)
    ensures Reachable(s[1..], k) ==> Reachable(s, k + 1)
    ensures ShowsAt(s[1..], lvl, i, k, p, q, r) ==> ShowsAt(s, lvl, i + 1, k + 1, p, q, r)
  {
    assert forall j :: 0 <= j < |s| - 1 ==> s[1..][j] == s[j + 1];
  }

  lemma OrderFreeTail(s: seq<UnitNode>, lvl: int)
    requires s != [] && Passable(s[0].tests) && OrderFree(s, lvl)
    ensures OrderFree(s[1..], lvl)
  {
    forall i: nat, k: nat, p, q, r
      ensures !ShowsAt(s[1..], lvl, i, k, p, q, r)
    {
      ShowsBehind(s, lvl, i, k, p, q, r);
      assert !ShowsAt(s, lvl, i + 1, k + 1, p, q, r);
    }
  }

  lemma ShowsFuller(s: seq<UnitNode>, left: seq<TestNode>, lvl: int, i: nat, k: nat,
                    p: TestNode, q: TestNode, r: TestNode)
    requires s != [] && s[0].tests != [] && forall t :: t in left ==> t in s[0].tests
    requires forall t :: t in s[0].tests ==> t in left || Dotted(t.name)
    ensures ShowsAt([UnitNode(s[0].name, left)] + s[1..], lvl, i, k, p, q, r) ==> ShowsAt(s, lvl, i, k, p, q, r)
  {
    var less := [UnitNode(s[0].name, left)] + s[1..];
    assert forall j :: 0 < j < |s| ==> less[j] == s[j];
    if ShowsAt(less, lvl, i, k, p, q, r) {
      assert Passable(less[0].tests);
    }
  }

  lemma OrderFreeHead(s: seq<UnitNode>, left: seq<TestNode>, lvl: int)
    requires s != [] && s[0].tests != [] && forall t :: t in left ==> t in s[0].tests
    requires forall t :: t in s[0].tests ==> t in left || Dotted(t.name)
    requires OrderFree(s, lvl)
    ensures OrderFree([UnitNode(s[0].name, left)] + s[1..], lvl)
  {
    forall i: nat, k: nat, p, q, r
      ensures !ShowsAt([UnitNode(s[0].name, left)] + s[1..], lvl, i, k, p, q, r)
    {
      ShowsFuller(s, left, lvl, i, k, p, q, r);
      assert !ShowsAt(s, lvl, i, k, p, q, r);
    }
  }

  function NameBag(tests: seq<TestNode>): multiset<string> {
    if tests == [] then multiset{} else multiset{tests[0].name} + NameBag(tests[1..])
  }

  lemma {:induction false} BagHas(tests: seq<TestNode>, name: string)
    ensures name in NameBag(tests) <==> HasTest(tests, name)
    ensures |NameBag(tests)| == |tests|
  {
    if tests != [] {
      BagHas(tests[1..], name);
      if HasTest(tests, name) && tests[0].name != name {
        var i :| 0 <= i < |tests| && tests[i].name == name;
        assert tests[1..][i - 1].name == name;
      }
      if HasTest(tests[1..], name) {
        var i :| 0 <= i < |tests[1..]| && tests[1..][i].name == name;
        assert tests[i + 1].name == name;
      }
    }
  }

  lemma {:induction false} BagRemoved(tests: seq<TestNode>, name: string)
    requires HasTest(tests, name)
    ensures NameBag(tests) == NameBag(RemoveFirst(tests, name)) + multiset{name}
    ensures forall t :: t in RemoveFirst(tests, name) ==> t in tests
    ensures forall t :: t in tests ==> t in RemoveFirst(tests, name) || t.name == name
  {
    var rest := tests[1..];
    assert tests == [tests[0]] + rest;
    if tests[0].name != name {
      var i :| 0 <= i < |tests| && tests[i].name == name;
      assert rest[i - 1].name == name;
      hide HasTest;
      BagRemoved(rest, name);
      var left := RemoveFirst(rest, name);
      assert RemoveFirst(tests, name) == [tests[0]] + left;
      assert ([tests[0]] + left)[1..] == left;
    }
  }

  lemma BagCancel(a: multiset<string>, b: multiset<string>, k: string)
    requires a + multiset{k} == b + multiset{k}
    ensures a == b
  {
    assert a + multiset{k} - multiset{k} == a && b + multiset{k} - multiset{k} == b;
  }

  /** What is left of the sections of one unit when `passed` passed, without an
      order: the sections that run empty are gone, the first that does not
      keeps what survives, and those behind it are untouched; nothing gets past
      a section that was written empty. */
  function Left(s: seq<UnitNode>, passed: multiset<string>, lvl: int): nat {
    if s == [] then 0
    else if s[0].tests == [] then CountLeft(s, lvl)
    else if Survive(s[0].tests, passed) == [] then Left(s[1..], passed - NameBag(s[0].tests), lvl)
    else CountTests(Survive(s[0].tests, passed), lvl) + CountLeft(s[1..], lvl)
  }

  // ----- what survives -----

  ghost predicate DottedBag(passed: multiset<string>) {
    forall n :: n in passed ==> Dotted(n)
  }

  ghost predicate Quiet(tests: seq<TestNode>, lvl: int) {
    forall t :: t in tests ==> !Telling(t, lvl)
  }

  lemma {:induction false} SurviveNames(tests: seq<TestNode>, passed: multiset<string>)
    ensures Survive(tests, passed) == [] ==> forall t :: t in tests ==> t.name in passed
  {
    if tests != [] && tests[0].name in passed {
      SurviveNames(tests[1..], passed - multiset{tests[0].name});
      assert tests == [tests[0]] + tests[1..];
    }
  }

  lemma {:induction false} SurviveQuiet(tests: seq<TestNode>, passed: multiset<string>, lvl: int)
    requires Quiet(tests, lvl) && DottedBag(passed)
    ensures CountTests(Survive(tests, passed), lvl) == CountTests(tests, lvl)
  {
    if tests != [] {
      assert tests[0] in tests;
      if tests[0].name in passed {
        SurviveQuiet(tests[1..], passed - multiset{tests[0].name}, lvl);
      } else {
        SurviveQuiet(tests[1..], passed, lvl);
        assert ([tests[0]] + Survive(tests[1..], passed))[1..] == Survive(tests[1..], passed);
      }
    }
  }

  /** A pass for tests above the level does not show. */
  lemma {:induction false} SurviveMute(tests: seq<TestNode>, passed: multiset<string>, name: string, lvl: int)
    requires forall t :: t in tests && t.name == name ==> t.level > lvl
    ensures CountTests(Survive(tests, passed + multiset{name}), lvl) == CountTests(Survive(tests, passed), lvl)
  {
    if tests != [] {
      var head, rest := tests[0], tests[1..];
      assert head in tests;
      if head.name == name {
        assert passed + multiset{name} - multiset{name} == passed;
        if name in passed {
          SurviveMute(rest, passed - multiset{name}, name, lvl);
          assert passed - multiset{name} + multiset{name} == passed;
        } else {
          assert ([head] + Survive(rest, passed))[1..] == Survive(rest, passed);
        }
      } else if head.name in passed {
        assert passed + multiset{name} - multiset{head.name} == passed - multiset{head.name} + multiset{name};
        SurviveMute(rest, passed - multiset{head.name}, name, lvl);
      } else {
        SurviveMute(rest, passed, name, lvl);
        assert ([head] + Survive(rest, passed))[1..] == Survive(rest, passed);
        assert ([head] + Survive(rest, passed + multiset{name}))[1..] == Survive(rest, passed + multiset{name});
      }
    }
  }

  /** No section that can be reached holds a test that shows. */
  ghost predicate Blind(s: seq<UnitNode>, lvl: int) {
    forall k: nat :: Reachable(s, k) ==> Quiet(s[k].tests, lvl)
  }

  lemma BlindTail(s: seq<UnitNode>, lvl: int)
    requires s != [] && Passable(s[0].tests) && Blind(s, lvl)
    ensures Blind(s[1..], lvl)
  {
    forall k: nat | Reachable(s[1..], k)
      ensures Quiet(s[1..][k].tests, lvl)
    {
      assert forall j :: 0 <= j < |s| - 1 ==> s[1..][j] == s[j + 1];
      assert Reachable(s, k + 1);
    }
  }

  lemma {:induction false} LeftBlind(s: seq<UnitNode>, passed: multiset<string>, lvl: int)
    requires Blind(s, lvl) && DottedBag(passed)
    ensures Left(s, passed, lvl) == CountLeft(s, lvl)
  {
    if s != [] && s[0].tests != [] {
      var tests := s[0].tests;
      assert Reachable(s, 0);
      SurviveQuiet(tests, passed, lvl);
      SurviveNames(tests, passed);
      if Survive(tests, passed) == [] {
        BlindTail(s, lvl);
        LeftBlind(s[1..], passed - NameBag(tests), lvl);
      }
    }
  }

  /** ... then only the first section counts. */
  lemma LeftFirst(s: seq<UnitNode>, passed: multiset<string>, lvl: int)
    requires s != [] && s[0].tests != [] && DottedBag(passed)
    requires Passable(s[0].tests) ==> Blind(s[1..], lvl)
    ensures Left(s, passed, lvl) == CountTests(Survive(s[0].tests, passed), lvl) + CountLeft(s[1..], lvl)
  {
    var tests := s[0].tests;
    SurviveNames(tests, passed);
    if Survive(tests, passed) == [] {
      LeftBlind(s[1..], passed - NameBag(tests), lvl);
    }
  }

  /** What must hold of the second section for the name of a test in it that the
      first section does not have. */
  lemma SecondSection(s: seq<UnitNode>, name: string, lvl: int)
    requires |s| >= 2 && OrderFree(s, lvl) && Passable(s[0].tests) && Dotted(name)
    requires !HasTest(s[0].tests, name) && HasTest(s[1].tests, name)
    ensures forall t :: t in s[1].tests && t.name == name ==> t.level > lvl
    ensures Passable(s[1].tests) ==> Blind(s[2..], lvl)
  {
    var p := s[0].tests[0];
    var j :| 0 <= j < |s[1].tests| && s[1].tests[j].name == name;
    var q := s[1].tests[j];
    assert Reachable(s, 1);
    forall t | t in s[1].tests && t.name == name
      ensures t.level > lvl
    {
      assert !ShowsAt(s, lvl, 0, 1, p, t, t);
    }
    forall k: nat, r | Passable(s[1].tests) && Reachable(s[2..], k) && r in s[2..][k].tests
      ensures !Telling(r, lvl)
    {
      assert forall j :: 0 <= j < |s| - 2 ==> s[2..][j] == s[j + 2];
      assert Reachable(s, k + 2);
      assert !ShowsAt(s, lvl, 0, k + 2, p, q, r);
    }
  }

  /** A pass that the first section has no test for shows nowhere. */
  lemma {:induction false} LeftIgnores(s: seq<UnitNode>, passed: multiset<string>, name: string, lvl: int)
    requires s != [] && OrderFree(s, lvl) && s[0].tests != [] && !HasTest(s[0].tests, name)
    requires DottedBag(passed) && Dotted(name)
    ensures Left(s, passed + multiset{name}, lvl) == Left(s, passed, lvl)
  {
    var tests, rest := s[0].tests, s[1..];
    SurviveRemoved(tests, name, passed);
    RemoveFirstAbsent(tests, name);
    SurviveNames(tests, passed);
    if Survive(tests, passed) == [] {
      BagHas(tests, name);
      var now := passed - NameBag(tests);
      assert passed + multiset{name} - NameBag(tests) == now + multiset{name};
      if rest != [] && rest[0].tests != [] {
        if HasTest(rest[0].tests, name) {
          SecondSection(s, name, lvl);
          assert rest[1..] == s[2..];
          LeftFirst(rest, now, lvl);
          LeftFirst(rest, now + multiset{name}, lvl);
          SurviveMute(rest[0].tests, now, name, lvl);
        } else {
          OrderFreeTail(s, lvl);
          LeftIgnores(rest, now, name, lvl);
        }
      }
    }
  }

  /** One pass, now or later. */
  lemma LeftStep(s: seq<UnitNode>, passed: multiset<string>, key: Key, lvl: int)
    requires OrderFree(s, lvl) && AllNamed(s, key.unit) && DottedBag(passed) && Dotted(key.name)
    ensures Left(s, passed + multiset{key.name}, lvl) == Left(Match(s, key), passed, lvl)
    ensures OrderFree(Match(s, key), lvl) && AllNamed(Match(s, key), key.unit)
  {
    if s != [] {
      var tests, rest, name := s[0].tests, s[1..], key.name;
      if !HasTest(tests, name) {
        if tests != [] {
          LeftIgnores(s, passed, name, lvl);
        }
      } else {
        var left := RemoveFirst(tests, name);
        SurviveRemoved(tests, name, passed);
        BagRemoved(tests, name);
        OrderFreeHead(s, left, lvl);
        assert passed + multiset{name} - NameBag(tests) == passed - NameBag(left);
        if left == [] {
          OrderFreeTail(s, lvl);
          assert passed - NameBag(left) == passed;
        } else {
          var r := [UnitNode(s[0].name, left)] + rest;
          assert r[1..] == rest;
        }
      }
    }
  }

  lemma {:induction false} LeftNone(s: seq<UnitNode>, lvl: int)
    ensures Left(s, multiset{}, lvl) == CountLeft(s, lvl)
  {
    if s != [] {
      SurviveNone(s[0].tests);
    }
  }

  /** For sections that are free of order the search leaves a function of the
      multiset that passed. */
  lemma {:induction false} LeftIs(s: seq<UnitNode>, keys: seq<Key>, unit: string, lvl: int)
    requires OrderFree(s, lvl) && AllNamed(s, unit) && OfUnit(keys, unit) && AllDotted(keys)
    ensures CountLeft(MatchAll(s, keys), lvl) == Left(s, multiset(NamesIn(keys, unit)), lvl)
    ensures DottedBag(multiset(NamesIn(keys, unit)))
    decreases |keys|
  {
    if keys == [] {
      LeftNone(s, lvl);
    } else {
      var rest := keys[1..];
      LeftIs(s, rest, unit, lvl);
      var passed := multiset(NamesIn(rest, unit));
      assert multiset(NamesIn(keys, unit)) == passed + multiset{keys[0].name};
      LeftStep(s, passed, keys[0], lvl);
      LeftIs(Match(s, keys[0]), rest, unit, lvl);
    }
  }

  // ----- whole files -----

  /** The count is the same for two lists of passing tests when, for every unit
      name, they have the same tests of that unit and either in the same order
      or the sections of that name are free of order. */
  lemma MissingAgrees(units: seq<UnitNode>, a: seq<Key>, b: seq<Key>, lvl: int)
    requires AllDotted(a) && AllDotted(b)
    requires forall name :: multiset(NamesIn(a, name)) == multiset(NamesIn(b, name))
    requires forall name :: NamesIn(a, name) == NamesIn(b, name) || OrderFree(Named(units, name), lvl)
    ensures Missing(units, a, lvl) == Missing(units, b, lvl)
  {
    forall name
      ensures CountLeft(Named(MatchAll(units, a), name), lvl) == CountLeft(Named(MatchAll(units, b), name), lvl)
    {
      MatchAllNamed(units, a, name);
      MatchAllNamed(units, b, name);
      if NamesIn(a, name) == NamesIn(b, name) {
        SameNamesSameKeys(a, b, name);
      } else {
        KeysOfOnly(a, name);
        KeysOfOnly(b, name);
        KeysOfDotted(a, name);
        KeysOfDotted(b, name);
        NamedOnly(units, name);
        LeftIs(Named(units, name), KeysOf(a, name), name, lvl);
        LeftIs(Named(units, name), KeysOf(b, name), name, lvl);
      }
    }
    CountByName(MatchAll(units, a), MatchAll(units, b), lvl);
  }

  lemma {:induction false} KeysOfDotted(keys: seq<Key>, unit: string)
    requires AllDotted(keys)
    ensures AllDotted(KeysOf(keys, unit))
  {
    if keys != [] {
      KeysOfDotted(keys[1..], unit);
    }
  }

  /** For a name that heads one section, the section's leftover tests are a
      function of the multiset that passed, also once the section was unlinked
      because it ran empty. */
  lemma {:induction false} SingleSection(u: UnitNode, keys: seq<Key>, lvl: int)
    requires OfUnit(keys, u.name)
    ensures CountLeft(MatchAll([u], keys), lvl)
            == CountTests(Survive(u.tests, multiset(NamesIn(keys, u.name))), lvl)
    decreases |keys|
  {
    if keys == [] {
      SurviveNone(u.tests);
      assert CountLeft([u], lvl) == CountTests(u.tests, lvl);
    } else {
      var name, rest := keys[0].name, keys[1..];
      var left := RemoveFirst(u.tests, name);
      var passed := multiset(NamesIn(rest, u.name));
      RemoveFirstAbsent(u.tests, name);
      SurviveRemoved(u.tests, name, passed);
      assert multiset(NamesIn(keys, u.name)) == passed + multiset{name};
      MatchOne(u, keys[0]);
      if HasTest(u.tests, name) && left == [] {
        MatchNothing(rest);
      } else {
        SingleSection(UnitNode(u.name, left), rest, lvl);
      }
    }
  }

  lemma MatchOne(u: UnitNode, key: Key)
    requires key.unit == u.name
    ensures var left := RemoveFirst(u.tests, key.name);
            Match([u], key) == if HasTest(u.tests, key.name) && left == [] then [] else [UnitNode(u.name, left)]
  {
    RemoveFirstAbsent(u.tests, key.name);
  }

  lemma {:induction false} NamedDistinct(units: seq<UnitNode>, name: string)
    requires DistinctNames(units)
    ensures |Named(units, name)| <= 1
  {
    if units != [] {
      NamedDistinct(units[1..], name);
      if units[0].name == name && Named(units[1..], name) != [] {
        NamedFrom(units[1..], name);
      }
    }
  }

  lemma {:induction false} NamedFrom(units: seq<UnitNode>, name: string)
    requires Named(units, name) != []
    ensures exists i :: 0 <= i < |units| && units[i].name == name
  {
    if units[0].name != name {
      NamedFrom(units[1..], name);
      var i :| 0 <= i < |units[1..]| && units[1..][i].name == name;
      assert units[i + 1].name == name;
    }
  }

  /** The destructive search computes a multiset difference: with distinct
      section names, what is missing is, section by section, what is left when
      every passing test cancels one required test of its name. */
  lemma {:induction false} MissingIsLeftover(units: seq<UnitNode>, keys: seq<Key>, lvl: int)
    requires DistinctNames(units)
    ensures Missing(units, keys, lvl) == Leftover(units, keys, lvl)
  {
    var after := MatchAll(units, keys);
    if units == [] {
      MatchNothing(keys);
    } else {
      var u, rest := units[0], units[1..];
      CountSplits(after, u.name, lvl);
      MatchAllNamed(units, keys, u.name);
      assert Named(units, u.name) == [u] by {
        NamedDistinct(units, u.name);
      }
      KeysOfOnly(keys, u.name);
      SingleSection(u, KeysOf(keys, u.name), lvl);
      forall name
        ensures CountLeft(Named(Others(after, u.name), name), lvl) == CountLeft(Named(MatchAll(rest, keys), name), lvl)
      {
        NamedOthers(after, u.name, name);
        MatchAllNamed(units, keys, name);
        MatchAllNamed(rest, keys, name);
        if name == u.name {
          assert Named(rest, name) == [];
          MatchNothing(KeysOf(keys, name));
        } else {
          assert Named(units, name) == Named(rest, name);
        }
      }
      CountByName(Others(after, u.name), MatchAll(rest, keys), lvl);
      MissingIsLeftover(rest, keys, lvl);
    }
  }

  /** With two sections of one name the order matters: the same two tests pass,
      and one is missing or none. */
  lemma DuplicateSectionsOrder()
    ensures var units := [UnitNode("u", [TestNode("f.a", 0)]), UnitNode("u", [TestNode("f.b", 0)])];
            && Missing(units, [Key("u", "f.a"), Key("u", "f.b")], 0) == 0
            && Missing(units, [Key("u", "f.b"), Key("u", "f.a")], 0) == 1
  {
    var ua, ub := UnitNode("u", [TestNode("f.a", 0)]), UnitNode("u", [TestNode("f.b", 0)]);
    var ka, kb := Key("u", "f.a"), Key("u", "f.b");
    var units := [ua, ub];
    assert ua.tests[0].name == "f.a" && ub.tests[0].name == "f.b";
    assert "f.a" != "f.b" by { assert "f.a"[2] == 'a' && "f.b"[2] == 'b'; }
    assert HasTest(ua.tests, "f.a") && HasTest(ub.tests, "f.b") && !HasTest(ua.tests, "f.b");
    // in section order, each test empties its section and unlinks it
    assert RemoveFirst(ua.tests, "f.a") == [] && RemoveFirst(ub.tests, "f.b") == [];
    assert Match(units, ka) == units[1..] == [ub];
    assert Match([ub], kb) == [ub][1..] == [];
    assert [ka, kb][1..] == [kb] && [kb][1..] == [];
    assert MatchAll([ub], [kb]) == MatchAll([], []) == [];
    assert MatchAll(units, [ka, kb]) == MatchAll([ub], [kb]);
    // the other way round, the second test is looked for in the wrong section
    assert Match(units, kb) == units;
    assert MatchAll(units, [ka]) == MatchAll([ub], []) == [ub] by { assert [ka][1..] == []; }
    assert [kb, ka][1..] == [ka];
    assert MatchAll(units, [kb, ka]) == MatchAll(units, [ka]);
    assert CountLeft([ub], 0) == 1 by { assert [ub][1..] == [] && ub.tests[1..] == []; }
  }
}
