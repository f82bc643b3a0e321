/** Files for which the order of the passes does show: from neighbouring sections
    of one unit that are not free of order to two orders of the same passes, one
    of which leaves more tests missing than the other. */
module OrderWitness {
  import opened RequiredTests
  import opened SectionOrder

  // ----- passes of one unit -----

  ghost predicate Passes(keys: seq<Key>, unit: string) {
    OfUnit(keys, unit) && AllDotted(keys)
  }

  lemma {:induction false} MatchAllConcat(units: seq<UnitNode>, a: seq<Key>, b: seq<Key>)
    ensures MatchAll(units, a + b) == MatchAll(MatchAll(units, a), b)
    decreases |a|
  {
    if a == [] {
      assert a + b == b;
    } else {
      assert (a + b)[1..] == a[1..] + b;
      MatchAllConcat(Match(units, a[0]), a[1..], b);
    }
  }

  lemma MatchAllOne(units: seq<UnitNode>, key: Key)
    ensures MatchAll(units, [key]) == Match(units, key)
  {
    assert [key][1..] == [];
  }

  /** A section and those behind it; an empty one is not there. */
  function Rest(unit: string, tests: seq<TestNode>, g: seq<UnitNode>): seq<UnitNode> {
    if tests == [] then g else [UnitNode(unit, tests)] + g
  }

  lemma MatchRest(unit: string, tests: seq<TestNode>, g: seq<UnitNode>, name: string)
    requires HasTest(tests, name)
    ensures Match(Rest(unit, tests, g), Key(unit, name)) == Rest(unit, RemoveFirst(tests, name), g)
  {
    assert ([UnitNode(unit, tests)] + g)[1..] == g;
  }

  lemma MatchLost(unit: string, tests: seq<TestNode>, g: seq<UnitNode>, name: string)
    requires tests != [] && !HasTest(tests, name)
    ensures Match(Rest(unit, tests, g), Key(unit, name)) == Rest(unit, tests, g)
  {
  }

  lemma CountRest(unit: string, tests: seq<TestNode>, g: seq<UnitNode>, lvl: int)
    ensures CountLeft(Rest(unit, tests, g), lvl) == CountTests(tests, lvl) + CountLeft(g, lvl)
  {
    assert ([UnitNode(unit, tests)] + g)[1..] == g;
  }

  function KeysFor(unit: string, tests: seq<TestNode>): seq<Key> {
    if tests == [] then [] else [Key(unit, tests[0].name)] + KeysFor(unit, tests[1..])
  }

  /** The tests that a pass can cancel but for those named `x`, and the others. */
  function Passing(tests: seq<TestNode>, x: string): seq<TestNode> {
    if tests == [] then []
    else if Dotted(tests[0].name) && tests[0].name != x then [tests[0]] + Passing(tests[1..], x)
    else Passing(tests[1..], x)
  }

  function Staying(tests: seq<TestNode>, x: string): seq<TestNode> {
    if tests == [] then []
    else if Dotted(tests[0].name) && tests[0].name != x then Staying(tests[1..], x)
    else [tests[0]] + Staying(tests[1..], x)
  }

  lemma {:induction false} PassingFirst(tests: seq<TestNode>, x: string)
    requires Passing(tests, x) != []
    ensures var name := Passing(tests, x)[0].name;
            && Dotted(name) && name != x && HasTest(tests, name)
            && Passing(RemoveFirst(tests, name), x) == Passing(tests, x)[1..]
            && Staying(RemoveFirst(tests, name), x) == Staying(tests, x)
  {
    var head, rest := tests[0], tests[1..];
    if Dotted(head.name) && head.name != x {
      assert Passing(tests, x)[0] == head;
    } else {
      PassingFirst(rest, x);
      var name := Passing(tests, x)[0].name;
      var i :| 0 <= i < |rest| && rest[i].name == name;
      assert tests[i + 1].name == name && head.name != name;
      assert RemoveFirst(tests, name) == [head] + RemoveFirst(rest, name);
      assert ([head] + RemoveFirst(rest, name))[1..] == RemoveFirst(rest, name);
    }
  }

  lemma {:induction false} PassThem(unit: string, tests: seq<TestNode>, x: string, g: seq<UnitNode>)
    ensures Passes(KeysFor(unit, Passing(tests, x)), unit)
    ensures |KeysFor(unit, Passing(tests, x))| == |Passing(tests, x)|
    ensures MatchAll(Rest(unit, tests, g), KeysFor(unit, Passing(tests, x))) == Rest(unit, Staying(tests, x), g)
    decreases |Passing(tests, x)|
  {
    var todo := Passing(tests, x);
    if todo == [] {
      NonePassing(tests, x);
    } else {
      PassingFirst(tests, x);
      var name := todo[0].name;
      MatchRest(unit, tests, g, name);
      PassThem(unit, RemoveFirst(tests, name), x, g);
      assert KeysFor(unit, todo)[1..] == KeysFor(unit, todo[1..]);
    }
  }

  lemma {:induction false} NonePassing(tests: seq<TestNode>, x: string)
    requires Passing(tests, x) == []
    ensures Staying(tests, x) == tests
  {
    if tests != [] {
      NonePassing(tests[1..], x);
    }
  }

  lemma {:induction false} StayingAre(tests: seq<TestNode>, x: string)
    ensures forall t :: t in Staying(tests, x) ==> t in tests && (!Dotted(t.name) || t.name == x)
    ensures |Passing(tests, x)| + |Staying(tests, x)| == |tests|
  {
    if tests != [] {
      StayingAre(tests[1..], x);
      assert tests == [tests[0]] + tests[1..];
    }
  }

  lemma {:induction false} NoUndotted(tests: seq<TestNode>)
    requires forall t :: t in tests ==> Dotted(t.name)
    ensures Staying(tests, "") == []
  {
    if tests != [] {
      assert tests[0] in tests;
      NoUndotted(tests[1..]);
    }
  }

  function Total(s: seq<UnitNode>): nat {
    if s == [] then 0 else |s[0].tests| + Total(s[1..])
  }

  /** Passes that empty the first `n` sections, one for each test. */
  lemma {:induction false} EmptyFront(s: seq<UnitNode>, unit: string, n: nat) returns (keys: seq<Key>)
    requires AllNamed(s, unit) && n <= |s| && forall j :: 0 <= j < n ==> Passable(s[j].tests)
    ensures Passes(keys, unit) && |keys| == Total(s[..n])
    ensures MatchAll(s, keys) == s[n..]
  {
    if n == 0 {
      keys := [];
    } else {
      var tests, g := s[0].tests, s[1..];
      assert s == Rest(unit, tests, g);
      NoUndotted(tests);
      StayingAre(tests, "");
      PassThem(unit, tests, "", g);
      var first := KeysFor(unit, Passing(tests, ""));
      var others := EmptyFront(g, unit, n - 1);
      keys := first + others;
      MatchAllConcat(s, first, others);
      assert s[..n][1..] == g[..n - 1];
    }
  }

  lemma PassesBoth(unit: string, a: seq<Key>, b: seq<Key>)
    requires Passes(a, unit) && Passes(b, unit)
    ensures Passes(a + b, unit)
  {
  }

  lemma PassOne(unit: string, tests: seq<TestNode>, g: seq<UnitNode>, name: string, others: seq<Key>)
    requires HasTest(tests, name) && Dotted(name) && Passes(others, unit)
    ensures Passes([Key(unit, name)] + others, unit)
    ensures MatchAll(Rest(unit, tests, g), [Key(unit, name)] + others)
            == MatchAll(Rest(unit, RemoveFirst(tests, name), g), others)
  {
    hide Rest;
    MatchRest(unit, tests, g, name);
    PassesBoth(unit, [Key(unit, name)], others);
    MatchAllConcat(Rest(unit, tests, g), [Key(unit, name)], others);
    MatchAllOne(Rest(unit, tests, g), Key(unit, name));
  }

  /** Passes of a section's tests but one leave that one. */
  lemma {:induction false} DownToOne(unit: string, tests: seq<TestNode>, g: seq<UnitNode>, t: TestNode)
    returns (keys: seq<Key>, last: TestNode)
    requires Passable(tests) && t in tests
    ensures Passes(keys, unit) && last.name == t.name
    ensures MatchAll(Rest(unit, tests, g), keys) == Rest(unit, [last], g)
    decreases |tests|
  {
    if |tests| == 1 {
      keys, last := [], tests[0];
      assert tests == [last];
    } else {
      var k :| 0 <= k < |tests| && tests[k] == t;
      var j := if k == 0 then 1 else 0;
      var name := tests[j].name;
      assert tests[j] in tests && HasTest(tests, name);
      BagRemoved(tests, name);
      RemoveFirstAbsent(tests, name);
      var left := RemoveFirst(tests, name);
      StillNamed(tests, j, k);
      var i :| 0 <= i < |left| && left[i].name == t.name;
      assert forall u :: u in left ==> Dotted(u.name);
      assert Dotted(name);
      hide Passes;
      hide MatchAll;
      hide Rest;
      var others;
      others, last := DownToOne(unit, left, g, left[i]);
      keys := [Key(unit, name)] + others;
      PassOne(unit, tests, g, name, others);
    }
  }

  /** Removing a test of one name leaves another test's name, or another test of
      the same name. */
  lemma {:induction false} StillNamed(tests: seq<TestNode>, j: nat, k: nat)
    requires j < |tests| && k < |tests| && j != k
    ensures HasTest(RemoveFirst(tests, tests[j].name), tests[k].name)
  {
    var name, wanted := tests[j].name, tests[k].name;
    if tests[0].name == name {
      if k == 0 {
        assert tests[1..][j - 1].name == wanted;
      } else {
        assert tests[1..][k - 1].name == wanted;
      }
    } else {
      var left := RemoveFirst(tests[1..], name);
      assert RemoveFirst(tests, name) == [tests[0]] + left;
      if k == 0 {
        assert ([tests[0]] + left)[0].name == wanted;
      } else {
        StillNamed(tests[1..], j - 1, k - 1);
        var i :| 0 <= i < |left| && left[i].name == wanted;
        assert ([tests[0]] + left)[i + 1].name == wanted;
      }
    }
  }

  // ----- a test that shows -----

  /** Some test of that name would show. */
  ghost predicate Tells(tests: seq<TestNode>, name: string, lvl: int) {
    exists t :: t in tests && t.name == name && Telling(t, lvl)
  }

  lemma {:induction false} RemovedTells(tests: seq<TestNode>, name: string, lvl: int)
    requires HasTest(tests, name)
    ensures var left := RemoveFirst(tests, name);
            && CountTests(left, lvl) <= CountTests(tests, lvl)
            && (Tells(tests, name, lvl) && !Tells(left, name, lvl) ==> CountTests(left, lvl) < CountTests(tests, lvl))
  {
    var head, rest := tests[0], tests[1..];
    assert tests == [head] + rest;
    if head.name != name {
      var i :| 0 <= i < |tests| && tests[i].name == name;
      assert rest[i - 1].name == name;
      RemovedTells(rest, name, lvl);
      var left := RemoveFirst(rest, name);
      assert RemoveFirst(tests, name) == [head] + left && ([head] + left)[1..] == left;
      assert forall t :: t in left ==> t in [head] + left;
    }
  }

  /** Passes of a name until its last test that shows is the next to go. */
  lemma {:induction false} Uncover(unit: string, tests: seq<TestNode>, g: seq<UnitNode>, name: string, lvl: int)
    returns (keys: seq<Key>, next: seq<TestNode>)
    requires Tells(tests, name, lvl) && Dotted(name)
    ensures Passes(keys, unit) && forall i :: 0 <= i < |keys| ==> keys[i].name == name
    ensures MatchAll(Rest(unit, tests, g), keys) == Rest(unit, next, g)
    ensures Tells(next, name, lvl) && HasTest(next, name) && !Tells(RemoveFirst(next, name), name, lvl)
    ensures CountTests(RemoveFirst(next, name), lvl) < CountTests(next, lvl) <= CountTests(tests, lvl)
    ensures forall t :: t in next ==> t in tests
    decreases |tests|
  {
    var t :| t in tests && t.name == name && Telling(t, lvl);
    var i :| 0 <= i < |tests| && tests[i] == t;
    assert HasTest(tests, name);
    var left := RemoveFirst(tests, name);
    RemovedTells(tests, name, lvl);
    BagRemoved(tests, name);
    RemoveFirstAbsent(tests, name);
    if Tells(left, name, lvl) {
      hide MatchAll;
      hide Rest;
      hide Tells;
      hide CountTests;
      hide RemoveFirst;
      hide Passes;
      var others;
      others, next := Uncover(unit, left, g, name, lvl);
      keys := [Key(unit, name)] + others;
      PassOne(unit, tests, g, name, others);
    } else {
      keys, next := [], tests;
    }
  }

  // ----- what stays -----

  /** Some section holds such a test. */
  ghost predicate Holds(s: seq<UnitNode>, name: string, lvl: int) {
    exists i :: 0 <= i < |s| && Tells(s[i].tests, name, lvl)
  }

  lemma {:induction false} HoldsCounts(s: seq<UnitNode>, name: string, lvl: int)
    requires Holds(s, name, lvl)
    ensures CountLeft(s, lvl) > 0
  {
    var i :| 0 <= i < |s| && Tells(s[i].tests, name, lvl);
    if i == 0 {
      var t :| t in s[0].tests && t.name == name && Telling(t, lvl);
      TestCounts(s[0].tests, t, lvl);
    } else {
      assert s[1..][i - 1] == s[i];
      HoldsCounts(s[1..], name, lvl);
    }
  }

  lemma {:induction false} TestCounts(tests: seq<TestNode>, t: TestNode, lvl: int)
    requires t in tests && t.level <= lvl
    ensures CountTests(tests, lvl) > 0
  {
    if tests[0] != t {
      assert t in tests[1..];
      TestCounts(tests[1..], t, lvl);
    }
  }

  lemma {:induction false} RemovedKeeps(tests: seq<TestNode>, gone: string, t: TestNode)
    requires t in tests && t.name != gone
    ensures t in RemoveFirst(tests, gone)
  {
    var head, rest := tests[0], tests[1..];
    assert tests == [head] + rest;
    if head.name != gone && head != t {
      RemovedKeeps(rest, gone, t);
    }
  }

  /** Only passes of its name cancel a test. */
  lemma {:induction false} MatchHolds(s: seq<UnitNode>, key: Key, name: string, lvl: int)
    requires Holds(s, name, lvl) && key.name != name
    ensures Holds(Match(s, key), name, lvl)
  {
    var i :| 0 <= i < |s| && Tells(s[i].tests, name, lvl);
    var r := Match(s, key);
    if s[0].name == key.unit {
      var left := RemoveFirst(s[0].tests, key.name);
      if i == 0 {
        var t :| t in s[0].tests && t.name == name && Telling(t, lvl);
        RemovedKeeps(s[0].tests, key.name, t);
        assert Tells(r[0].tests, name, lvl);
      } else if HasTest(s[0].tests, key.name) && left == [] {
        assert r[i - 1] == s[i];
      } else {
        assert r[i] == s[i];
      }
    } else if i == 0 {
      assert r[0] == s[0];
    } else {
      assert s[1..][i - 1] == s[i];
      MatchHolds(s[1..], key, name, lvl);
      var j :| 0 <= j < |Match(s[1..], key)| && Tells(Match(s[1..], key)[j].tests, name, lvl);
      assert r[j + 1] == Match(s[1..], key)[j];
    }
  }

  lemma {:induction false} MatchAllHolds(s: seq<UnitNode>, keys: seq<Key>, name: string, lvl: int)
    requires Holds(s, name, lvl) && forall i :: 0 <= i < |keys| ==> keys[i].name != name
    ensures Holds(MatchAll(s, keys), name, lvl)
    decreases |keys|
  {
    if keys != [] {
      MatchHolds(s, keys[0], name, lvl);
      MatchAllHolds(Match(s, keys[0]), keys[1..], name, lvl);
    }
  }

  lemma {:induction false} MatchAllLost(unit: string, tests: seq<TestNode>, g: seq<UnitNode>, keys: seq<Key>)
    requires tests != [] && OfUnit(keys, unit) && forall i :: 0 <= i < |keys| ==> !HasTest(tests, keys[i].name)
    ensures MatchAll(Rest(unit, tests, g), keys) == Rest(unit, tests, g)
    decreases |keys|
  {
    if keys != [] {
      MatchLost(unit, tests, g, keys[0].name);
      MatchAllLost(unit, tests, g, keys[1..]);
    }
  }

  /** Fewer passes than tests in the sections in front do not get past them. */
  lemma {:induction false} FrontLasts(f: seq<UnitNode>, g: seq<UnitNode>, unit: string, keys: seq<Key>)
    returns (f': seq<UnitNode>)
    requires AllNamed(f, unit) && OfUnit(keys, unit) && |keys| < Total(f)
    requires forall i :: 0 <= i < |f| ==> f[i].tests != []
    ensures MatchAll(f + g, keys) == f' + g
    decreases |keys|
  {
    if keys == [] {
      f' := f;
    } else {
      var tests, name := f[0].tests, keys[0].name;
      assert (f + g)[0] == f[0] && (f + g)[1..] == f[1..] + g;
      if HasTest(tests, name) {
        var left := RemoveFirst(tests, name);
        RemoveFirstAbsent(tests, name);
        var front := if left == [] then f[1..] else [UnitNode(unit, left)] + f[1..];
        assert Match(f + g, keys[0]) == front + g;
        if left != [] {
          assert front[1..] == f[1..];
        }
        f' := FrontLasts(front, g, unit, keys[1..]);
      } else {
        f' := FrontLasts(f, g, unit, keys[1..]);
      }
    }
  }

  lemma {:induction false} CountConcat(f: seq<UnitNode>, g: seq<UnitNode>, lvl: int)
    ensures CountLeft(f + g, lvl) == CountLeft(f, lvl) + CountLeft(g, lvl)
  {
    if f == [] {
      assert f + g == g;
    } else {
      assert (f + g)[1..] == f[1..] + g;
      CountConcat(f[1..], g, lvl);
    }
  }

  // ----- two orders that differ -----

  lemma Then(s: seq<UnitNode>, a: seq<Key>, b: seq<Key>, next: seq<UnitNode>, end: seq<UnitNode>)
    requires MatchAll(s, a) == next && MatchAll(next, b) == end
    ensures MatchAll(s, a + b) == end
  {
    MatchAllConcat(s, a, b);
  }

  /** What two orders come to behind the section that separates them: `good` is
      `bad` and one more pass, of `y`. */
  ghost predicate Differ(g: seq<UnitNode>, unit: string, lvl: int, k: nat, name: string,
                         good: seq<Key>, bad: seq<Key>, y: Key, left: seq<TestNode>)
    requires k < |g|
  {
    && Passes(good, unit) && Passes(bad, unit)
    && multiset(good) == multiset(bad) + multiset{y}
    && MatchAll(g, good) == Rest(unit, left, g[k + 1..])
    && (forall t :: t in left ==> t in g[k].tests) && !Tells(left, name, lvl)
    && Holds(MatchAll(g, bad), name, lvl)
    && CountLeft(MatchAll(g, good), lvl) < CountLeft(MatchAll(g, bad), lvl)
  }

  /** The section that shows, up to its last test of the name that does. */
  lemma AtLast(g: seq<UnitNode>, unit: string, lvl: int, r: TestNode)
    returns (keys: seq<Key>, next: seq<UnitNode>, left: seq<TestNode>)
    requires g != [] && AllNamed(g, unit) && r in g[0].tests && Telling(r, lvl)
    ensures Passes(keys, unit) && forall i :: 0 <= i < |keys| ==> keys[i].name == r.name
    ensures MatchAll(g, keys) == next && MatchAll(next, [Key(unit, r.name)]) == Rest(unit, left, g[1..])
    ensures (forall t :: t in left ==> t in g[0].tests) && !Tells(left, r.name, lvl)
    ensures Holds(next, r.name, lvl)
    ensures CountLeft(Rest(unit, left, g[1..]), lvl) < CountLeft(next, lvl) <= CountLeft(g, lvl)
  {
    assert g == Rest(unit, g[0].tests, g[1..]);
    assert Tells(g[0].tests, r.name, lvl);
    var tests;
    keys, tests := Uncover(unit, g[0].tests, g[1..], r.name, lvl);
    next, left := Rest(unit, tests, g[1..]), RemoveFirst(tests, r.name);
    assert Tells(next[0].tests, r.name, lvl);
    MatchRest(unit, tests, g[1..], r.name);
    MatchAllOne(next, Key(unit, r.name));
    BagRemoved(tests, r.name);
    CountRest(unit, g[0].tests, g[1..], lvl);
    CountRest(unit, tests, g[1..], lvl);
    CountRest(unit, left, g[1..], lvl);
  }

  /** The pass that was lost is wanting at the section that shows. */
  lemma BehindSame(g: seq<UnitNode>, unit: string, lvl: int, k: nat, r: TestNode)
    returns (good: seq<Key>, bad: seq<Key>, left: seq<TestNode>)
    requires AllNamed(g, unit) && Reachable(g, k) && r in g[k].tests && Telling(r, lvl)
    ensures Differ(g, unit, lvl, k, r.name, good, bad, Key(unit, r.name), left)
  {
    var far := EmptyFront(g, unit, k);
    var keys, next;
    keys, next, left := AtLast(g[k..], unit, lvl, r);
    bad := far + keys;
    good := bad + [Key(unit, r.name)];
    Then(g, far, keys, g[k..], next);
    assert g[k..][1..] == g[k + 1..];
    Then(g, bad, [Key(unit, r.name)], next, Rest(unit, left, g[k + 1..]));
  }

  /** The pass that was lost is wanting before the section that shows, which is
      then never reached. */
  lemma BehindOther(g: seq<UnitNode>, unit: string, lvl: int, k: nat, q: TestNode, r: TestNode)
    returns (good: seq<Key>, bad: seq<Key>, left: seq<TestNode>)
    requires AllNamed(g, unit) && Reachable(g, k) && k > 0
    requires q in g[0].tests && r in g[k].tests && Telling(r, lvl) && r.name != q.name
    ensures Differ(g, unit, lvl, k, r.name, good, bad, Key(unit, q.name), left)
  {
    hide MatchAll;
    hide Total;
    hide Tells;
    hide Holds;
    hide CountLeft;
    var y, z, rest := Key(unit, q.name), Key(unit, r.name), g[1..];
    assert Passable(g[0].tests) && g == Rest(unit, g[0].tests, rest);
    var mid, last := DownToOne(unit, g[0].tests, rest, q);
    assert forall j :: 0 <= j < k - 1 ==> rest[j] == g[j + 1];
    var far := EmptyFront(rest, unit, k - 1);
    assert rest[k - 1..] == g[k..] && g[k..][1..] == g[k + 1..];
    assert forall j :: 0 <= j < k - 1 ==> rest[j].tests != [];
    assert Dotted(q.name);
    hide Rest;
    hide Passable;
    hide Reachable;
    var keys, next;
    keys, next, left := AtLast(g[k..], unit, lvl, r);
    var front;
    good, bad, front := BothTurns(unit, last, rest, g, mid, far, keys, k - 1, next, Rest(unit, left, g[k + 1..]), z);
    BehindHolds(front, g[k..], r, lvl);
  }

  /** From the section with one test left: its pass in turn, or lost. */
  lemma BothTurns(unit: string, last: TestNode, rest: seq<UnitNode>, g: seq<UnitNode>, mid: seq<Key>, far: seq<Key>,
                  keys: seq<Key>, k: nat, next: seq<UnitNode>, end: seq<UnitNode>, z: Key)
    returns (good: seq<Key>, bad: seq<Key>, front: seq<UnitNode>)
    requires AllNamed(rest, unit) && k <= |rest| && forall j :: 0 <= j < k ==> rest[j].tests != []
    requires Passes(mid, unit) && Passes(far, unit) && Passes(keys, unit) && |far| == Total(rest[..k])
    requires z.unit == unit && Dotted(z.name) && Dotted(last.name) && z.name != last.name
    requires forall i :: 0 <= i < |keys| ==> keys[i].name == z.name
    requires MatchAll(g, mid) == Rest(unit, [last], rest) && MatchAll(rest, far) == rest[k..]
    requires MatchAll(rest[k..], keys) == next && MatchAll(next, [z]) == end
    ensures Passes(good, unit) && Passes(bad, unit)
    ensures multiset(good) == multiset(bad) + multiset{Key(unit, last.name)}
    ensures MatchAll(g, good) == end && MatchAll(g, bad) == front + rest[k..]
  {
    hide MatchAll;
    hide Rest;
    hide Total;
    var y, ours := Key(unit, last.name), keys + [z];
    good := mid + ([y] + (far + ours));
    bad := mid + (ours + far);
    Then(rest[k..], keys, [z], next, end);
    InTurn(unit, last, rest, g, mid, far, ours, k, end);
    front := OutOfTurn(unit, last, rest, g, mid, far, ours, k);
    PassesOf(unit, mid, far, keys, y, z);
    SameBut(mid, far, ours, y);
  }

  lemma InTurn(unit: string, last: TestNode, rest: seq<UnitNode>, g: seq<UnitNode>,
               mid: seq<Key>, far: seq<Key>, ours: seq<Key>, k: nat, end: seq<UnitNode>)
    requires k <= |rest| && MatchAll(g, mid) == Rest(unit, [last], rest)
    requires MatchAll(rest, far) == rest[k..] && MatchAll(rest[k..], ours) == end
    ensures MatchAll(g, mid + ([Key(unit, last.name)] + (far + ours))) == end
  {
    hide Rest;
    var y := Key(unit, last.name);
    Then(rest, far, ours, rest[k..], end);
    OneGoes(unit, last, rest);
    Then(Rest(unit, [last], rest), [y], far + ours, rest, end);
    Then(g, mid, [y] + (far + ours), Rest(unit, [last], rest), end);
  }

  lemma OutOfTurn(unit: string, last: TestNode, rest: seq<UnitNode>, g: seq<UnitNode>,
                  mid: seq<Key>, far: seq<Key>, ours: seq<Key>, k: nat) returns (front: seq<UnitNode>)
    requires AllNamed(rest, unit) && k <= |rest| && forall j :: 0 <= j < k ==> rest[j].tests != []
    requires OfUnit(far, unit) && |far| == Total(rest[..k])
    requires OfUnit(ours, unit) && forall i :: 0 <= i < |ours| ==> ours[i].name != last.name
    requires MatchAll(g, mid) == Rest(unit, [last], rest)
    ensures MatchAll(g, mid + (ours + far)) == front + rest[k..]
  {
    var one := Rest(unit, [last], rest);
    MatchAllLost(unit, [last], rest, ours);
    front := NeverPast(unit, last, rest, far, k);
    hide Rest;
    hide MatchAll;
    Then(one, ours, far, one, front + rest[k..]);
    Then(g, mid, ours + far, one, front + rest[k..]);
  }

  lemma OneGoes(unit: string, t: TestNode, g: seq<UnitNode>)
    ensures MatchAll(Rest(unit, [t], g), [Key(unit, t.name)]) == g
  {
    assert [t][0].name == t.name && [t][1..] == [];
    MatchRest(unit, [t], g, t.name);
    MatchAllOne(Rest(unit, [t], g), Key(unit, t.name));
  }

  lemma NeverPast(unit: string, t: TestNode, rest: seq<UnitNode>, far: seq<Key>, k: nat) returns (front: seq<UnitNode>)
    requires AllNamed(rest, unit) && k <= |rest| && forall j :: 0 <= j < k ==> rest[j].tests != []
    requires OfUnit(far, unit) && |far| == Total(rest[..k])
    ensures MatchAll(Rest(unit, [t], rest), far) == front + rest[k..]
  {
    var f := [UnitNode(unit, [t])] + rest[..k];
    assert f[1..] == rest[..k];
    assert Rest(unit, [t], rest) == f + rest[k..];
    front := FrontLasts(f, rest[k..], unit, far);
  }

  lemma BehindHolds(front: seq<UnitNode>, g: seq<UnitNode>, r: TestNode, lvl: int)
    requires g != [] && r in g[0].tests && Telling(r, lvl)
    ensures Holds(front + g, r.name, lvl) && CountLeft(front + g, lvl) >= CountLeft(g, lvl)
  {
    assert Tells((front + g)[|front|].tests, r.name, lvl);
    CountConcat(front, g, lvl);
  }

  lemma SameBut(mid: seq<Key>, far: seq<Key>, ours: seq<Key>, y: Key)
    ensures multiset(mid + ([y] + (far + ours))) == multiset(mid + (ours + far)) + multiset{y}
  {
  }

  lemma PassesOf(unit: string, mid: seq<Key>, far: seq<Key>, keys: seq<Key>, y: Key, z: Key)
    requires Passes(mid, unit) && Passes(far, unit) && Passes(keys, unit)
    requires y.unit == unit && z.unit == unit && Dotted(y.name) && Dotted(z.name)
    ensures OfUnit(keys + [z], unit)
    ensures Passes(mid + ([y] + (far + (keys + [z]))), unit) && Passes(mid + ((keys + [z]) + far), unit)
  {
  }

  /** Sections that are not free of order: `good` and `bad` are two orders of the
      same passes; the first cancels every test of the name that shows in
      section k, the second does not. */
  lemma GoodAndBad(s: seq<UnitNode>, unit: string, lvl: int, i: nat, k: nat, p: TestNode, q: TestNode, r: TestNode)
    returns (good: seq<Key>, bad: seq<Key>, left: seq<TestNode>)
    requires AllNamed(s, unit) && ShowsAt(s, lvl, i, k, p, q, r)
    ensures Passes(good, unit) && Passes(bad, unit) && multiset(good) == multiset(bad)
    ensures MatchAll(s, good) == Rest(unit, left, s[k + 1..])
    ensures (forall t :: t in left ==> t in s[k].tests) && !Tells(left, r.name, lvl)
    ensures Holds(MatchAll(s, bad), r.name, lvl)
    ensures CountLeft(MatchAll(s, good), lvl) < CountLeft(MatchAll(s, bad), lvl)
  {
    var start, last := UpToOne(s, unit, i, p);
    var alpha, beta;
    alpha, beta, left := BehindAny(s, unit, lvl, i, k, p, q, r);
    var g, x, y := s[i + 1..], Key(unit, p.name), Key(unit, q.name);
    assert !HasTest([last], q.name);
    MatchLost(unit, [last], g, q.name);
    hide ShowsAt;
    hide MatchAll;
    hide Tells;
    hide Holds;
    hide CountLeft;
    good := start + ([x] + alpha);
    bad := start + ([y] + ([x] + beta));
    ReplayBoth(s, unit, start, last, g, alpha, beta, y);
    Swapped(start, alpha, beta, x, y);
    BothPass(unit, start, alpha, beta, x, y);
    hide Passes;
    hide Rest;
  }

  lemma BothPass(unit: string, start: seq<Key>, alpha: seq<Key>, beta: seq<Key>, x: Key, y: Key)
    requires Passes(start, unit) && Passes(alpha, unit) && Passes(beta, unit)
    requires x.unit == y.unit == unit && Dotted(x.name) && Dotted(y.name)
    ensures Passes(start + ([x] + alpha), unit) && Passes(start + ([y] + ([x] + beta)), unit)
  {
  }

  /** Passes that leave one test of section i, of the name of `p`. */
  lemma UpToOne(s: seq<UnitNode>, unit: string, i: nat, p: TestNode) returns (start: seq<Key>, last: TestNode)
    requires AllNamed(s, unit) && Reachable(s, i + 1) && p in s[i].tests
    ensures Passes(start, unit) && last.name == p.name && Dotted(p.name)
    ensures MatchAll(s, start) == Rest(unit, [last], s[i + 1..])
  {
    var before := EmptyFront(s, unit, i);
    var tests, g := s[i].tests, s[i + 1..];
    assert Passable(tests) && s[i..] == Rest(unit, tests, g);
    var mid;
    mid, last := DownToOne(unit, tests, g, p);
    start := before + mid;
    hide Rest;
    Then(s, before, mid, s[i..], Rest(unit, [last], g));
  }

  lemma BehindAny(s: seq<UnitNode>, unit: string, lvl: int, i: nat, k: nat, p: TestNode, q: TestNode, r: TestNode)
    returns (alpha: seq<Key>, beta: seq<Key>, left: seq<TestNode>)
    requires AllNamed(s, unit) && ShowsAt(s, lvl, i, k, p, q, r)
    ensures var g, j := s[i + 1..], k - i - 1;
            && 0 <= j < |g| && g[j] == s[k] && g[j + 1..] == s[k + 1..]
            && Differ(g, unit, lvl, j, r.name, alpha, beta, Key(unit, q.name), left)
  {
    var g, j := s[i + 1..], k - i - 1;
    assert forall n :: 0 <= n <= j ==> g[n] == s[i + 1 + n];
    assert Reachable(g, j) && AllNamed(g, unit);
    assert g[j + 1..] == s[k + 1..];
    hide Differ;
    if r.name == q.name {
      alpha, beta, left := BehindSame(g, unit, lvl, j, r);
    } else {
      alpha, beta, left := BehindOther(g, unit, lvl, j, q, r);
    }
  }

  lemma ReplayBoth(s: seq<UnitNode>, unit: string, start: seq<Key>, last: TestNode, g: seq<UnitNode>,
                   alpha: seq<Key>, beta: seq<Key>, y: Key)
    requires MatchAll(s, start) == Rest(unit, [last], g) == Match(Rest(unit, [last], g), y)
    ensures var x := Key(unit, last.name);
            && MatchAll(s, start + ([x] + alpha)) == MatchAll(g, alpha)
            && MatchAll(s, start + ([y] + ([x] + beta))) == MatchAll(g, beta)
  {
    hide Rest;
    hide Match;
    var one, x := Rest(unit, [last], g), Key(unit, last.name);
    OneGoes(unit, last, g);
    Then(one, [x], alpha, g, MatchAll(g, alpha));
    Then(s, start, [x] + alpha, one, MatchAll(g, alpha));
    MatchAllOne(one, y);
    Then(one, [x], beta, g, MatchAll(g, beta));
    Then(one, [y], [x] + beta, one, MatchAll(g, beta));
    Then(s, start, [y] + ([x] + beta), one, MatchAll(g, beta));
  }

  lemma Swapped(start: seq<Key>, alpha: seq<Key>, beta: seq<Key>, x: Key, y: Key)
    requires multiset(alpha) == multiset(beta) + multiset{y}
    ensures multiset(start + ([x] + alpha)) == multiset(start + ([y] + ([x] + beta)))
  {
  }

  // ----- whole files -----

  lemma {:induction false} NamesInTimes(keys: seq<Key>, unit: string, name: string)
    ensures multiset(NamesIn(keys, unit))[name] == multiset(keys)[Key(unit, name)]
  {
    if keys != [] {
      NamesInTimes(keys[1..], unit, name);
      assert keys == [keys[0]] + keys[1..];
      if keys[0].unit == unit {
        assert NamesIn(keys, unit) == [keys[0].name] + NamesIn(keys[1..], unit);
      }
    }
  }

  lemma {:induction false} MatchOthers(units: seq<UnitNode>, key: Key)
    ensures Others(Match(units, key), key.unit) == Others(units, key.unit)
  {
    if units != [] {
      if units[0].name == key.unit {
        var left := RemoveFirst(units[0].tests, key.name);
        assert ([UnitNode(units[0].name, left)] + units[1..])[1..] == units[1..];
      } else {
        MatchOthers(units[1..], key);
        assert ([units[0]] + Match(units[1..], key))[1..] == Match(units[1..], key);
      }
    }
  }

  lemma {:induction false} MatchAllOthers(units: seq<UnitNode>, keys: seq<Key>, unit: string)
    requires OfUnit(keys, unit)
    ensures Others(MatchAll(units, keys), unit) == Others(units, unit)
    decreases |keys|
  {
    if keys != [] {
      MatchOthers(units, keys[0]);
      MatchAllOthers(Match(units, keys[0]), keys[1..], unit);
    }
  }

  lemma {:induction false} KeysOfAll(keys: seq<Key>, unit: string)
    requires OfUnit(keys, unit)
    ensures KeysOf(keys, unit) == keys
  {
    if keys != [] {
      KeysOfAll(keys[1..], unit);
    }
  }

  /** Passes of one unit change the count by what they do to its sections. */
  lemma CountOfUnit(units: seq<UnitNode>, keys: seq<Key>, unit: string, lvl: int)
    requires OfUnit(keys, unit)
    ensures Missing(units, keys, lvl)
            == CountLeft(MatchAll(Named(units, unit), keys), lvl) + CountLeft(Others(units, unit), lvl)
  {
    CountSplits(MatchAll(units, keys), unit, lvl);
    MatchAllNamed(units, keys, unit);
    KeysOfAll(keys, unit);
    MatchAllOthers(units, keys, unit);
  }

  /** At this level, the number of missing tests is the same for any two orders
      of the same passes. */
  ghost predicate OrderIndependent(units: seq<UnitNode>, lvl: int) {
    forall a, b :: AllDotted(a) && AllDotted(b) && multiset(a) == multiset(b)
      ==> Missing(units, a, lvl) == Missing(units, b, lvl)
  }

  lemma SameNames(a: seq<Key>, b: seq<Key>)
    requires multiset(a) == multiset(b)
    ensures forall unit :: multiset(NamesIn(a, unit)) == multiset(NamesIn(b, unit))
  {
    forall unit
      ensures multiset(NamesIn(a, unit)) == multiset(NamesIn(b, unit))
    {
      forall name: string
        ensures multiset(NamesIn(a, unit))[name] == multiset(NamesIn(b, unit))[name]
      {
        NamesInTimes(a, unit, name);
        NamesInTimes(b, unit, name);
      }
    }
  }

  /** Sections of a name that are not free of order make the count depend on it. */
  lemma OrderShows(units: seq<UnitNode>, unit: string, lvl: int) returns (a: seq<Key>, b: seq<Key>)
    requires !OrderFree(Named(units, unit), lvl)
    ensures AllDotted(a) && AllDotted(b) && multiset(a) == multiset(b)
    ensures Missing(units, a, lvl) < Missing(units, b, lvl)
  {
    var s := Named(units, unit);
    NamedOnly(units, unit);
    var i: nat, k: nat, p, q, r :| ShowsAt(s, lvl, i, k, p, q, r);
    var left;
    a, b, left := GoodAndBad(s, unit, lvl, i, k, p, q, r);
    CountOfUnit(units, a, unit, lvl);
    CountOfUnit(units, b, unit, lvl);
  }

  /** The order in which tests passed does not show at a level exactly when the
      sections of every unit are free of order. */
  lemma OrderMatters(units: seq<UnitNode>, lvl: int)
    ensures OrderIndependent(units, lvl) <==> forall name :: OrderFree(Named(units, name), lvl)
  {
    if forall name :: OrderFree(Named(units, name), lvl) {
      forall a, b | AllDotted(a) && AllDotted(b) && multiset(a) == multiset(b)
        ensures Missing(units, a, lvl) == Missing(units, b, lvl)
      {
        SameNames(a, b);
        MissingAgrees(units, a, b, lvl);
      }
    } else {
      var unit :| !OrderFree(Named(units, unit), lvl);
      var a, b := OrderShows(units, unit, lvl);
      assert Missing(units, a, lvl) != Missing(units, b, lvl);
    }
  }
}
