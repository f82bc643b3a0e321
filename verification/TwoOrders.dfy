/** Runs of two threads in which the schedule shows in the exit code: with
    modules of one name and ambiguous sections of that name, and with a store
    that only some tests can allocate. */
module TwoOrders {
  import opened Sequences
  import opened Results
  import opened ExecSpec
  import opened Exec
  import opened RequiredTests
  import opened SectionOrder
  import opened IniParser
  import opened IniRoundTrip
  import opened Verdict
  import opened Harness
  import opened AnyOrder
  import opened Settled

  // ----- ambiguous sections -----

  /** The module's one test passes. */
  ghost predicate PassesAlone(m: Module, lvl: nat) {
    && m.containerAlloc && m.probe && |m.tests| == 1
    && m.tests[0].level <= lvl && m.tests[0].outcome == Success && m.tests[0].storeAlloc && m.tests[0].recordAlloc
  }

  lemma MadeAlone(keys: seq<Key>)
    requires AllDotted(keys)
    ensures forall k :: 0 <= k < |keys| ==>
              PassesAlone(ModulesOf(keys)[k], 0) && ModulesOf(keys)[k].name == keys[k].unit
  {
  }

  /** Every test passes, the file asks for just these tests, and one thread
      succeeds; but two threads succeed in one run and fail in another. */
  lemma AmbiguousVerdict() returns (mods: seq<Module>, args: Args)
    ensures args.threads == 2 && |mods| == 2 && mods[0].name == mods[1].name
    ensures PassesAlone(mods[0], args.lvl) && PassesAlone(mods[1], args.lvl) && StoreReady(mods, args.lvl)
    ensures ExitStatus(mods, args.(threads := 1)) == Exit(0)
    ensures CanEnd(mods, args, 0) && CanEnd(mods, args, -1)
  {
    var text := AmbiguousText();
    var x, y := Key("u", "f.a"), Key("u", "f.b");
    assert "f.a"[1] == '.' && "f.b"[1] == '.';
    MadeAlone([x, y]);
    hide ParseFile;
    hide Nodes;
    args := Args(0, 2, false, Some(Some(text)), 4);
    mods := ModulesOf([x, y]);
    assert Judged(args, text);
    DuplicateSectionsOrder();
    Swapped(x, y);
    hide Missing;
    hide Judged;
    hide CanEnd;
    hide ExitStatus;
    hide PassesAlone;
    hide StoreReady;
    hide ModuleOf;
    BothEnd(args, text, [x, y], [y, x]);
    AloneInOrder(args, text, [x, y]);
  }

  lemma Swapped(x: Key, y: Key)
    ensures multiset([x, y]) == multiset([y, x])
  {
  }

  /** [u], f.b=0, [u], f.a=0: the parser's list has them the other way round. */
  lemma AmbiguousText() returns (text: string)
    ensures ParseFile(text) == Parsed([UnitNode("u", [TestNode("f.a", 0)]), UnitNode("u", [TestNode("f.b", 0)])], true)
    ensures Nodes(ParseFile(text).units) == 4
  {
    var ua, ub := UnitNode("u", [TestNode("f.a", 0)]), UnitNode("u", [TestNode("f.b", 0)]);
    var d := Decor([], [], None);
    var s, a, b := SectionItem("u"), TestItem("f.a", 0), TestItem("f.b", 0);
    var entries := [(s, d), (b, d), (s, d), (a, d)];
    hide Text;
    hide ParseFile;
    text := Text(entries);
    assert entries == [(s, d)] + ([(b, d)] + ([(s, d)] + ([(a, d)] + [])));
    ContentsCons((a, d), []);
    ContentsCons((s, d), [(a, d)]);
    ContentsCons((b, d), [(s, d), (a, d)]);
    ContentsCons((s, d), [(b, d), (s, d), (a, d)]);
    OneItem(ua, []);
    OneItem(ub, [ua]);
    SmallEntry(s);
    SmallEntry(a);
    SmallEntry(b);
    hide EntryOk;
    hide Contents;
    hide Items;
    FileRoundTrip([ub, ua], entries);
    assert [ua, ub][1..] == [ub] && [ub][1..] == [];
    assert Nodes([ub]) == 2;
  }

  lemma SmallEntry(item: Item)
    requires item in {SectionItem("u"), TestItem("f.a", 0), TestItem("f.b", 0)}
    ensures EntryOk((item, Decor([], [], None)))
  {
    assert Decimal(0) == "0";
  }

  lemma ContentsCons(e: (Item, Decor), rest: seq<(Item, Decor)>)
    requires !e.0.Filler?
    ensures Contents([e] + rest) == [e.0] + Contents(rest)
  {
    assert ([e] + rest)[1..] == rest;
  }

  lemma OneItem(u: UnitNode, rest: seq<UnitNode>)
    requires |u.tests| == 1
    ensures Items([u] + rest) == [SectionItem(u.name), TestItem(u.tests[0].name, u.tests[0].level)] + Items(rest)
    ensures Listed([u] + rest) == Listed(rest) + [u]
  {
    assert ([u] + rest)[1..] == rest && u.tests[1..] == [];
    assert TestItems([]) == [] && Reverse<TestNode>([]) == [];
    assert Reverse(u.tests) == [] + [u.tests[0]] == u.tests;
    assert TestItems(u.tests) == [TestItem(u.tests[0].name, u.tests[0].level)];
  }

  // ----- a store that only one test can allocate -----

  /** Two modules with one test each: the first fails, and cannot allocate the
      store; the second passes, and can. */
  ghost predicate FailThenPass(mods: seq<Module>, lvl: nat) {
    && |mods| == 2 && mods[0].containerAlloc && mods[0].probe && mods[1].containerAlloc && mods[1].probe
    && |mods[0].tests| == 1 && |mods[1].tests| == 1
    && var t, u := mods[0].tests[0], mods[1].tests[0];
       && t.level <= lvl && t.outcome == Failure && !t.storeAlloc && t.recordAlloc
       && u.level <= lvl && u.outcome == Success && u.storeAlloc && u.recordAlloc
  }

  /** When the failing test comes first its failure is lost and the run succeeds;
      otherwise it fails. */
  lemma RefusedStore() returns (mods: seq<Module>, args: Args)
    ensures args.threads == 2 && args.required == None && Unambiguous(mods, args)
    ensures FailThenPass(mods, args.lvl)
    ensures CanEnd(mods, args, 0) && CanEnd(mods, args, -1)
  {
    mods := [Module("m", true, true, [Test("f", "c", 0, Failure, false, true)]),
             Module("n", true, true, [Test("f", "c", 0, Success, true, true)])];
    args := Args(0, 2, false, None, 0);
    assert FailThenPass(mods, 0);
    hide FailThenPass;
    hide CanEnd;
    BothCodes(mods, args);
  }

  lemma BothCodes(mods: seq<Module>, args: Args)
    requires FailThenPass(mods, args.lvl) && args.threads == 2 && args.required == None && !args.unitToRun
    ensures CanEnd(mods, args, 0) && CanEnd(mods, args, -1)
  {
    var c := Config(mods, args.lvl, 2);
    assert Singles(c) && Order(c, [0, 1]) && Order(c, [1, 0]);
    LostOrNot(c);
    hide CanEnd;
    hide InOrder;
    hide Singles;
    hide Order;
    hide FailThenPass;
    EndsWith(args, c, [0, 1]);
    EndsWith(args, c, [1, 0]);
  }

  lemma LostOrNot(c: Config)
    requires FailThenPass(c.mods, c.lvl)
    ensures InOrder(c, [0, 1]) == Some(Tally([Record(1, 0, true)], [], [], 1, 1, 0))
    ensures InOrder(c, [1, 0]) == Some(Tally([Record(1, 0, true)], [Record(0, 0, false)], [], 2, 1, 0))
  {
    var x, y := Record(0, 0, false), Record(1, 0, true);
    assert [] + [x] == [x] && [] + [y] == [y];
    assert [0, 1][..1] == [0] && [1, 0][..1] == [1] && [0][..0] == [] && [1][..0] == [];
    assert InOrder(c, [0]) == Attempt(c.mods, c.lvl, None, 0, 0) == None;
    assert InOrder(c, [1]) == Attempt(c.mods, c.lvl, None, 1, 0) == Some(Tally([y], [], [], 1, 1, 0));
  }
}
