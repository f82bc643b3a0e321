/** Regenerating the list of required tests and checking results against it
    (userspace/testlist.py): build_results_dict, regen and check on their
    dictionaries and counters. */
module TestList {
  import opened Sequences

  /** An entry of results.json or required_tests.json.  Only results have a
      status; only entries with a uid have links (uid, vc, req). */
  datatype Entry = Entry(unit: string, test: string, caseName: string, level: int,
                         status: Option<bool>, links: Option<(string, string, string)>)

  /** Results grouped by unit, then by case. */
  type Dict = map<string, map<string, Entry>>

  function Put(d: Dict, e: Entry): Dict {
    var cases := if e.unit in d then d[e.unit] else map[];
    d[e.unit := cases[e.caseName := e]]
  }

  function Index(entries: seq<Entry>): Dict {
    if entries == [] then map[] else Put(Index(entries[..|entries| - 1]), entries[|entries| - 1])
  }

  predicate Has(d: Dict, unit: string, caseName: string) {
    unit in d && caseName in d[unit]
  }

  ghost predicate Occurs(entries: seq<Entry>, unit: string, caseName: string) {
    exists i :: 0 <= i < |entries| && entries[i].unit == unit && entries[i].caseName == caseName
  }

  /** `i` is where the key occurs last. */
  ghost predicate IsLast(entries: seq<Entry>, i: nat, unit: string, caseName: string) {
    && i < |entries| && entries[i].unit == unit && entries[i].caseName == caseName
    && forall j :: i < j < |entries| ==> !(entries[j].unit == unit && entries[j].caseName == caseName)
  }

  lemma PutIs(d: Dict, e: Entry, unit: string, caseName: string)
    ensures Has(Put(d, e), unit, caseName) <==>
              Has(d, unit, caseName) || (e.unit == unit && e.caseName == caseName)
    ensures Has(Put(d, e), unit, caseName) ==>
              Put(d, e)[unit][caseName] ==
              if e.unit == unit && e.caseName == caseName then e else d[unit][caseName]
  {
  }

  lemma OccursLater(before: seq<Entry>, e: Entry, unit: string, caseName: string)
    ensures Occurs(before + [e], unit, caseName) <==>
            Occurs(before, unit, caseName) || (e.unit == unit && e.caseName == caseName)
  {
    var entries := before + [e];
    assert forall i :: 0 <= i < |before| ==> before[i] == entries[i];
    assert entries[|before|] == e;
  }

  /** The index knows exactly the keys that occur, each with its last entry. */
  lemma {:induction false} IndexIsLast(entries: seq<Entry>, unit: string, caseName: string)
    ensures Has(Index(entries), unit, caseName) <==> Occurs(entries, unit, caseName)
    ensures Has(Index(entries), unit, caseName) ==>
              exists i: nat :: IsLast(entries, i, unit, caseName) && entries[i] == Index(entries)[unit][caseName]
  {
    if entries != [] {
      var n: nat := |entries| - 1;
      var before, e := entries[..n], entries[n];
      IndexIsLast(before, unit, caseName);
      PutIs(Index(before), e, unit, caseName);
      assert entries == before + [e];
      OccursLater(before, e, unit, caseName);
      hide Put;
      hide Occurs;
      if e.unit == unit && e.caseName == caseName {
        assert IsLast(entries, n, unit, caseName);
      } else if Has(Index(before), unit, caseName) {
        var i: nat :| IsLast(before, i, unit, caseName) && before[i] == Index(before)[unit][caseName];
        assert IsLast(entries, i, unit, caseName);
      }
    }
  }

  // ----- the order of strings -----

  predicate Less(a: string, b: string) {
    if b == "" then false
    else if a == "" then true
    else a[0] < b[0] || (a[0] == b[0] && Less(a[1..], b[1..]))
  }

  lemma {:induction false} LessTotal(a: string, b: string)
    ensures a == b || Less(a, b) || Less(b, a)
    ensures !(Less(a, b) && Less(b, a))
    ensures !Less(a, a)
  {
    if a != "" && b != "" {
      LessTotal(a[1..], b[1..]);
      assert a == [a[0]] + a[1..] && b == [b[0]] + b[1..];
    }
    if a != "" {
      LessIrreflexive(a[1..]);
    }
  }

  lemma {:induction false} LessIrreflexive(a: string)
    ensures !Less(a, a)
  {
    if a != "" {
      LessIrreflexive(a[1..]);
    }
  }

  lemma {:induction false} LessTransitive(a: string, b: string, c: string)
    requires Less(a, b) && Less(b, c)
    ensures Less(a, c)
  {
    if a != "" && a[0] == b[0] && b[0] == c[0] {
      LessTransitive(a[1..], b[1..], c[1..]);
    }
  }

  /** The order is that of the first character in which the strings differ; a
      string comes before those that it begins. */
  lemma {:induction false} LessMeans(a: string, b: string)
    ensures Less(a, b) <==>
              exists k :: 0 <= k <= |a| && k < |b| && a[..k] == b[..k] && (k == |a| || a[k] < b[k])
  {
    if a != "" && b != "" {
      var a', b' := a[1..], b[1..];
      LessMeans(a', b');
      assert a == [a[0]] + a' && b == [b[0]] + b';
      if a[0] < b[0] {
        assert a[..0] == b[..0];
      }
      if a[0] == b[0] && Less(a', b') {
        var k :| 0 <= k <= |a'| && k < |b'| && a'[..k] == b'[..k] && (k == |a'| || a'[k] < b'[k]);
        assert a[..k + 1] == [a[0]] + a'[..k] && b[..k + 1] == [b[0]] + b'[..k];
      }
      if k :| 0 <= k <= |a| && k < |b| && a[..k] == b[..k] && (k == |a| || a[k] < b[k]) {
        if k > 0 {
          assert a[0] == a[..k][0] == b[..k][0] == b[0];
          assert a'[..k - 1] == a[..k][1..] && b'[..k - 1] == b[..k][1..];
          assert a'[..k - 1] == b'[..k - 1];
        }
      }
    } else if b != "" {
      assert a[..0] == b[..0];
    }
  }

  predicate IsLeast(m: string, keys: set<string>) {
    m in keys && forall k :: k in keys ==> k == m || Less(m, k)
  }

  lemma {:induction false} LeastExists(keys: set<string>)
    requires keys != {}
    ensures exists m :: m in keys && IsLeast(m, keys)
  {
    var k :| k in keys;
    if keys == {k} {
      assert IsLeast(k, keys);
    } else {
      LeastExists(keys - {k});
      var m :| m in keys - {k} && IsLeast(m, keys - {k});
      LessTotal(m, k);
      if Less(m, k) {
        assert IsLeast(m, keys);
      } else {
        forall x | x in keys && x != k
          ensures Less(k, x)
        {
          if x != m {
            LessTransitive(k, m, x);
          }
        }
        assert IsLeast(k, keys);
      }
    }
  }

  ghost predicate Ascending(s: seq<string>) {
    forall i, j :: 0 <= i < j < |s| ==> Less(s[i], s[j])
  }

  /** sorted(keys). */
  method Sorted(keys: set<string>) returns (s: seq<string>)
    ensures Ascending(s) && forall k :: k in s <==> k in keys
  {
    s := [];
    var rest := keys;
    while rest != {}
      invariant Ascending(s) && rest <= keys
      invariant forall k :: k in s <==> k in keys && k !in rest
      invariant forall k, r :: k in s && r in rest ==> Less(k, r)
      decreases rest
    {
      LeastExists(rest);
      var m :| m in rest && IsLeast(m, rest);
      forall i | 0 <= i < |s|
        ensures Less(s[i], m)
      {
        assert s[i] in s;
      }
      s := s + [m];
      rest := rest - {m};
    }
  }

  // ----- regen -----

  /** What regen writes for a result. */
  function Required(unit: string, e: Entry): Entry {
    Entry(unit, e.test, e.caseName, e.level, None,
          if e.links.Some? && e.links.value.0 != "" then e.links else None)
  }

  /** The entry for a key: test, case and level of the last result of that key,
      and its links if it has a uid; never a status. */
  ghost predicate FromLast(e: Entry, results: seq<Entry>) {
    exists i: nat :: IsLast(results, i, e.unit, e.caseName) && FromResult(e, results[i])
  }

  predicate FromResult(e: Entry, result: Entry) {
    && e.test == result.test && e.level == result.level && e.status == None
    && match result.links
       case None => e.links == None
       case Some(links) => e.links == if links.0 == "" then None else Some(links)
  }

  lemma RequiredMeans(results: seq<Entry>, e: Entry)
    ensures Has(Index(results), e.unit, e.caseName) && e == Required(e.unit, Index(results)[e.unit][e.caseName])
            <==> FromLast(e, results)
  {
    LastIndexed(results, e.unit, e.caseName);
    IndexFiled(results);
    hide Index;
    hide IsLast;
  }

  /** Before in the output: by unit, then by case. */
  predicate Precedes(a: Entry, b: Entry) {
    Less(a.unit, b.unit) || (a.unit == b.unit && Less(a.caseName, b.caseName))
  }

  ghost predicate InOrder(out: seq<Entry>) {
    forall i, j :: 0 <= i < j < |out| ==> Precedes(out[i], out[j])
  }

  /** Each entry's key is the key it is filed under. */
  ghost predicate Filed(d: Dict) {
    forall u, c :: Has(d, u, c) ==> d[u][c].unit == u && d[u][c].caseName == c
  }

  lemma {:induction false} IndexFiled(entries: seq<Entry>)
    ensures Filed(Index(entries))
  {
    if entries != [] {
      IndexFiled(entries[..|entries| - 1]);
    }
  }

  /** build_results_dict. */
  method BuildResultsDict(entries: seq<Entry>) returns (d: Dict)
    ensures d == Index(entries)
  {
    d := map[];
    var i := 0;
    while i < |entries|
      invariant 0 <= i <= |entries| && d == Index(entries[..i])
    {
      var e := entries[i];
      assert entries[..i + 1][..i] == entries[..i];
      if e.unit !in d {
        d := d[e.unit := map[]];
      }
      d := d[e.unit := d[e.unit][e.caseName := e]];
      i := i + 1;
    }
    assert entries[..i] == entries;
  }

  /** regen: one entry per (unit, case) key, the last result's, by unit and
      then by case. */
  method Regen(results: seq<Entry>) returns (out: seq<Entry>, testCount: nat)
    ensures InOrder(out) && testCount == |out|
    ensures forall e :: e in out <==> FromLast(e, results)
  {
    var d := BuildResultsDict(results);
    IndexFiled(results);
    hide Index;
    hide Less;
    hide Required;
    out, testCount := [], 0;
    var units := Sorted(d.Keys);
    var i := 0;
    while i < |units|
      invariant 0 <= i <= |units| && testCount == |out| && InOrder(out)
      invariant forall e :: e in out <==>
                  e.unit in units[..i] && Has(d, e.unit, e.caseName) && e == Required(e.unit, d[e.unit][e.caseName])
    {
      assert units[i] in units;
      var one := RegenUnit(d, units[i]);
      assert units[..i + 1] == units[..i] + [units[i]];
      forall a, b | 0 <= a < |out| && 0 <= b < |one|
        ensures Precedes(out[a], one[b])
      {
        assert out[a] in out && one[b] in one;
        var k :| 0 <= k < i && units[k] == out[a].unit;
      }
      out := out + one;
      testCount := testCount + |one|;
      i := i + 1;
    }
    assert units[..i] == units;
    forall e: Entry
      ensures e in out <==> FromLast(e, results)
    {
      RequiredMeans(results, e);
    }
  }

  /** The inner loop of regen. */
  method RegenUnit(d: Dict, unit: string) returns (out: seq<Entry>)
    requires unit in d && Filed(d)
    ensures InOrder(out)
    ensures forall e :: e in out <==>
              e.unit == unit && Has(d, unit, e.caseName) && e == Required(unit, d[unit][e.caseName])
  {
    out := [];
    var cases := Sorted(d[unit].Keys);
    var i := 0;
    while i < |cases|
      invariant 0 <= i <= |cases| && |out| == i
      invariant forall j :: 0 <= j < i ==> cases[j] in d[unit] && out[j] == Required(unit, d[unit][cases[j]])
    {
      assert cases[i] in cases;
      out := out + [Required(unit, d[unit][cases[i]])];
      i := i + 1;
    }
    forall j | 0 <= j < |out|
      ensures out[j].unit == unit && out[j].caseName == cases[j]
    {
      assert Has(d, unit, cases[j]);
    }
    forall e: Entry | e.unit == unit && Has(d, unit, e.caseName) && e == Required(unit, d[unit][e.caseName])
      ensures e in out
    {
      assert e.caseName in cases;
      var j :| 0 <= j < |cases| && cases[j] == e.caseName;
      assert out[j] == e;
    }
  }

  // ----- check -----

  /** Whether check counts an error for a required entry. */
  predicate Wrong(results: Dict, required: Dict, e: Entry, level: int)
    requires Has(required, e.unit, e.caseName)
  {
    if e.unit !in results then true
    else if e.caseName !in results[e.unit] then required[e.unit][e.caseName].level <= level
    else results[e.unit][e.caseName].status == Some(false)
  }

  function Errors(results: Dict, required: Dict, entries: seq<Entry>, level: int): nat
    requires forall e :: e in entries ==> Has(required, e.unit, e.caseName)
  {
    if entries == [] then 0
    else
      assert entries[|entries| - 1] in entries;
      Errors(results, required, entries[..|entries| - 1], level)
      + if Wrong(results, required, entries[|entries| - 1], level) then 1 else 0
  }

  /** check, without the log and the HTML. */
  method Check(results: seq<Entry>, required: seq<Entry>, level: int) returns (code: int, errors: nat)
    ensures forall e :: e in required ==> Has(Index(required), e.unit, e.caseName)
    ensures errors == Errors(Index(results), Index(required), required, level)
    ensures code == if errors > 0 then 1 else 0
  {
    var testDict := BuildResultsDict(results);
    var reqDict := BuildResultsDict(required);
    AllFiled(required);
    errors := 0;
    var i := 0;
    while i < |required|
      invariant 0 <= i <= |required|
      invariant errors == Errors(testDict, reqDict, required[..i], level)
    {
      var e := required[i];
      assert e in required;
      assert required[..i + 1][..i] == required[..i];
      if e.unit !in testDict {
        errors := errors + 1;
      } else if e.caseName !in testDict[e.unit] {
        if reqDict[e.unit][e.caseName].level <= level {
          errors := errors + 1;
        }
      } else if testDict[e.unit][e.caseName].status == Some(false) {
        errors := errors + 1;
      }
      i := i + 1;
    }
    assert required[..i] == required;
    code := if errors > 0 then 1 else 0;
  }

  lemma AllFiled(entries: seq<Entry>)
    ensures forall e :: e in entries ==> Has(Index(entries), e.unit, e.caseName)
  {
    forall e | e in entries
      ensures Has(Index(entries), e.unit, e.caseName)
    {
      IndexIsLast(entries, e.unit, e.caseName);
      assert Occurs(entries, e.unit, e.caseName);
    }
  }

  lemma {:induction false} IndexUnits(entries: seq<Entry>, unit: string)
    ensures unit in Index(entries) <==> UnitOccurs(entries, unit)
  {
    if entries != [] {
      var before, e := entries[..|entries| - 1], entries[|entries| - 1];
      IndexUnits(before, unit);
      assert entries == before + [e];
    }
  }

  ghost predicate UnitOccurs(entries: seq<Entry>, unit: string) {
    exists e :: e in entries && e.unit == unit
  }

  lemma {:induction false} NoErrors(results: Dict, required: Dict, entries: seq<Entry>, level: int)
    requires forall e :: e in entries ==> Has(required, e.unit, e.caseName)
    ensures Errors(results, required, entries, level) == 0 <==>
              forall e :: e in entries ==> !Wrong(results, required, e, level)
  {
    if entries != [] {
      var before, e := entries[..|entries| - 1], entries[|entries| - 1];
      assert entries == before + [e];
      hide Wrong;
      NoErrors(results, required, before, level);
    }
  }

  /** What check lets pass for a key: a last result that did not fail, or no
      result and a last required level above the tested one, provided that
      there is some result of the unit. */
  ghost predicate Satisfied(results: seq<Entry>, required: seq<Entry>, unit: string, caseName: string, level: int) {
    && UnitOccurs(results, unit)
    && (forall i: nat :: IsLast(results, i, unit, caseName) ==> results[i].status != Some(false))
    && (Occurs(results, unit, caseName)
        || forall j: nat :: IsLast(required, j, unit, caseName) ==> required[j].level > level)
  }

  lemma WrongMeans(results: seq<Entry>, required: seq<Entry>, e: Entry, level: int)
    requires e in required
    ensures Has(Index(required), e.unit, e.caseName)
    ensures !Wrong(Index(results), Index(required), e, level)
            <==> Satisfied(results, required, e.unit, e.caseName, level)
  {
    var u, c := e.unit, e.caseName;
    AllFiled(required);
    IndexUnits(results, u);
    LastIndexed(results, u, c);
    LastIndexed(required, u, c);
    hide Index;
    hide IsLast;
    hide UnitOccurs;
    hide Occurs;
  }

  /** The index entry of a key is the last one, and there is only one last. */
  lemma LastIndexed(entries: seq<Entry>, unit: string, caseName: string)
    ensures Has(Index(entries), unit, caseName) <==> Occurs(entries, unit, caseName)
    ensures Has(Index(entries), unit, caseName) <==> exists i: nat :: IsLast(entries, i, unit, caseName)
    ensures forall i: nat :: IsLast(entries, i, unit, caseName) ==>
              Has(Index(entries), unit, caseName) && entries[i] == Index(entries)[unit][caseName]
  {
    IndexIsLast(entries, unit, caseName);
    hide Index;
    forall i: nat | IsLast(entries, i, unit, caseName)
      ensures Has(Index(entries), unit, caseName) && entries[i] == Index(entries)[unit][caseName]
    {
      LastUnique(entries, i, unit, caseName);
    }
  }

  /** check succeeds exactly when every required key is satisfied: for any two
      lists, with duplicates on either side. */
  lemma CheckPasses(results: seq<Entry>, required: seq<Entry>, level: int)
    ensures forall e :: e in required ==> Has(Index(required), e.unit, e.caseName)
    ensures Errors(Index(results), Index(required), required, level) == 0 <==>
              forall e :: e in required ==> Satisfied(results, required, e.unit, e.caseName, level)
  {
    AllFiled(required);
    NoErrors(Index(results), Index(required), required, level);
    hide Index;
    hide Wrong;
    hide Satisfied;
    forall e | e in required
      ensures !Wrong(Index(results), Index(required), e, level)
              <==> Satisfied(results, required, e.unit, e.caseName, level)
    {
      WrongMeans(results, required, e, level);
    }
  }

  ghost function WrongAt(results: Dict, required: Dict, entries: seq<Entry>, level: int): set<int>
    requires forall e :: e in entries ==> Has(required, e.unit, e.caseName)
  {
    set i | 0 <= i < |entries| && Wrong(results, required, entries[i], level)
  }

  lemma WrongAtLast(results: Dict, required: Dict, before: seq<Entry>, e: Entry, level: int)
    requires forall x :: x in before + [e] ==> Has(required, x.unit, x.caseName)
    ensures forall x :: x in before ==> Has(required, x.unit, x.caseName)
    ensures Has(required, e.unit, e.caseName)
    ensures |WrongAt(results, required, before + [e], level)| ==
            |WrongAt(results, required, before, level)| + if Wrong(results, required, e, level) then 1 else 0
  {
    var entries, n := before + [e], |before|;
    assert entries[n] == e && e in entries && forall x :: x in before ==> x in entries;
    hide Wrong;
    hide Has;
    assert forall i :: 0 <= i < n ==> before[i] == entries[i];
    var was, now := WrongAt(results, required, before, level), WrongAt(results, required, entries, level);
    assert n !in was;
    if Wrong(results, required, e, level) {
      assert now == was + {n};
    } else {
      assert now == was;
    }
  }

  lemma {:induction false} ErrorsAt(results: Dict, required: Dict, entries: seq<Entry>, level: int)
    requires forall e :: e in entries ==> Has(required, e.unit, e.caseName)
    ensures Errors(results, required, entries, level) == |WrongAt(results, required, entries, level)|
  {
    if entries != [] {
      var n := |entries| - 1;
      assert entries == entries[..n] + [entries[n]];
      WrongAtLast(results, required, entries[..n], entries[n], level);
      ErrorsAt(results, required, entries[..n], level);
      hide Wrong;
      hide WrongAt;
      hide Has;
    }
  }

  /** check counts one error for each required entry whose key is not satisfied:
      for any two lists, with duplicates on either side. */
  lemma ErrorsAre(results: seq<Entry>, required: seq<Entry>, level: int)
    ensures forall e :: e in required ==> Has(Index(required), e.unit, e.caseName)
    ensures Errors(Index(results), Index(required), required, level) ==
            |set i | 0 <= i < |required|
                     && !Satisfied(results, required, required[i].unit, required[i].caseName, level)|
  {
    AllFiled(required);
    ErrorsAt(Index(results), Index(required), required, level);
    forall i | 0 <= i < |required|
      ensures Wrong(Index(results), Index(required), required[i], level)
              <==> !Satisfied(results, required, required[i].unit, required[i].caseName, level)
    {
      WrongMeans(results, required, required[i], level);
    }
    hide Satisfied;
    hide Wrong;
    hide Index;
    assert WrongAt(Index(results), Index(required), required, level)
           == set i | 0 <= i < |required|
                      && !Satisfied(results, required, required[i].unit, required[i].caseName, level);
  }

  // ----- regenerate, then check -----

  /** The keys whose last result failed. */
  ghost function FailedKeys(d: Dict): set<(string, string)> {
    set u, c | u in d && c in d[u] && d[u][c].status == Some(false) :: (u, c)
  }

  ghost function KeysOf(out: seq<Entry>): set<(string, string)> {
    set i | 0 <= i < |out| :: (out[i].unit, out[i].caseName)
  }

  /** In an ordered list the last key is new. */
  lemma KeysOfLast(out: seq<Entry>)
    requires InOrder(out) && out != []
    ensures var n := |out| - 1;
            var key := (out[n].unit, out[n].caseName);
            key !in KeysOf(out[..n]) && KeysOf(out) == KeysOf(out[..n]) + {key}
  {
    var n := |out| - 1;
    var before, e := out[..n], out[n];
    forall i | 0 <= i < n
      ensures (before[i].unit, before[i].caseName) != (e.unit, e.caseName)
    {
      assert Precedes(out[i], out[n]);
      LessIrreflexive(e.unit);
      LessIrreflexive(e.caseName);
    }
    assert forall i :: 0 <= i < n ==> before[i] == out[i];
    forall k | k in KeysOf(out)
      ensures k in KeysOf(before) + {(e.unit, e.caseName)}
    {
      var i :| 0 <= i < |out| && k == (out[i].unit, out[i].caseName);
      if i < n {
        assert k == (before[i].unit, before[i].caseName);
      }
    }
  }

  lemma OneMore<T>(failed: set<T>, keys: set<T>, key: T)
    requires key !in keys
    ensures |failed * (keys + {key})| == |failed * keys| + if key in failed then 1 else 0
  {
    if key in failed {
      assert failed * (keys + {key}) == failed * keys + {key};
    } else {
      assert failed * (keys + {key}) == failed * keys;
    }
  }

  lemma {:induction false} ErrorsCountFailures(results: Dict, required: Dict, out: seq<Entry>, level: int)
    requires InOrder(out)
    requires forall e :: e in out ==> Has(results, e.unit, e.caseName) && Has(required, e.unit, e.caseName)
    ensures Errors(results, required, out, level) == |FailedKeys(results) * KeysOf(out)|
  {
    if out == [] {
      assert KeysOf(out) == {};
    } else {
      var n := |out| - 1;
      var before, e := out[..n], out[n];
      assert e in out;
      ErrorsCountFailures(results, required, before, level);
      KeysOfLast(out);
      OneMore(FailedKeys(results), KeysOf(before), (e.unit, e.caseName));
      hide KeysOf;
      assert (e.unit, e.caseName) in FailedKeys(results) <==> Wrong(results, required, e, level);
    }
  }

  /** What regen's contract says of a list. */
  ghost predicate IsRegenerated(out: seq<Entry>, results: seq<Entry>) {
    && InOrder(out)
    && forall e :: e in out <==> FromLast(e, results)
  }

  lemma RegeneratedIs(out: seq<Entry>, results: seq<Entry>)
    requires IsRegenerated(out, results)
    ensures forall e :: e in out <==>
              Has(Index(results), e.unit, e.caseName) && e == Required(e.unit, Index(results)[e.unit][e.caseName])
  {
    forall e: Entry
      ensures e in out <==>
                Has(Index(results), e.unit, e.caseName) && e == Required(e.unit, Index(results)[e.unit][e.caseName])
    {
      RequiredMeans(results, e);
    }
  }

  /** Against its own results, a regenerated list gives as many errors as keys
      whose last result failed, whatever the test level. */
  lemma RegenThenCheck(results: seq<Entry>, out: seq<Entry>, level: int)
    requires IsRegenerated(out, results)
    ensures forall e :: e in out ==> Has(Index(out), e.unit, e.caseName)
    ensures Errors(Index(results), Index(out), out, level) == |FailedKeys(Index(results))|
  {
    AllFiled(out);
    IndexFiled(results);
    RegeneratedIs(out, results);
    var d := Index(results);
    ErrorsCountFailures(d, Index(out), out, level);
    forall key | key in FailedKeys(d)
      ensures key in KeysOf(out)
    {
      var (u, c) := key;
      var e := Required(u, d[u][c]);
      assert Has(d, u, c) && e in out;
      var i :| 0 <= i < |out| && out[i] == e;
    }
    assert FailedKeys(d) * KeysOf(out) == FailedKeys(d);
  }

  // ----- regenerate, then check other results -----

  /** What check reports for a key of an older run: its unit has no result any
      more; or its last result failed; or it has none and its last level in the
      older run is not above the tested one. */
  ghost predicate Reported(earlier: seq<Entry>, results: seq<Entry>, unit: string, caseName: string, level: int) {
    || !UnitOccurs(results, unit)
    || (exists i: nat :: IsLast(results, i, unit, caseName) && results[i].status == Some(false))
    || (!Occurs(results, unit, caseName)
        && exists j: nat :: IsLast(earlier, j, unit, caseName) && earlier[j].level <= level)
  }

  /** The regenerated list has one entry for each key of the older run, with the
      level of the key's last result there. */
  lemma OneEach(out: seq<Entry>, earlier: seq<Entry>, i: nat, j: nat)
    requires IsRegenerated(out, earlier) && i < |out| && j < |out|
    requires out[i].unit == out[j].unit && out[i].caseName == out[j].caseName
    ensures i == j && IsLast(out, i, out[i].unit, out[i].caseName)
  {
    forall k, n | 0 <= k < n < |out|
      ensures out[k].unit != out[n].unit || out[k].caseName != out[n].caseName
    {
      assert Precedes(out[k], out[n]);
      LessIrreflexive(out[k].unit);
      LessIrreflexive(out[k].caseName);
    }
  }

  lemma ReportedMeans(earlier: seq<Entry>, out: seq<Entry>, results: seq<Entry>, i: nat, level: int)
    requires IsRegenerated(out, earlier) && i < |out|
    ensures !Satisfied(results, out, out[i].unit, out[i].caseName, level)
            <==> Reported(earlier, results, out[i].unit, out[i].caseName, level)
  {
    var e := out[i];
    var u, c := e.unit, e.caseName;
    assert e in out;
    OneEach(out, earlier, i, i);
    LastUnique(out, i, u, c);
    var j: nat :| IsLast(earlier, j, u, c) && FromResult(e, earlier[j]);
    LastUnique(earlier, j, u, c);
    hide UnitOccurs;
    LastIndexed(results, u, c);
    hide Index;
    hide Occurs;
    hide IsLast;
    hide InOrder;
  }

  /** The keys that occur in a run. */
  ghost function KeysIn(entries: seq<Entry>): set<(string, string)> {
    set i | 0 <= i < |entries| :: (entries[i].unit, entries[i].caseName)
  }

  lemma KeyRegenerated(out: seq<Entry>, earlier: seq<Entry>, u: string, c: string)
    requires IsRegenerated(out, earlier)
    ensures (u, c) in KeysIn(earlier) <==> exists i :: 0 <= i < |out| && out[i].unit == u && out[i].caseName == c
  {
    LastIndexed(earlier, u, c);
    hide Index;
    if (u, c) in KeysIn(earlier) {
      assert Occurs(earlier, u, c);
      var j: nat :| IsLast(earlier, j, u, c);
      var r := earlier[j];
      var e := Entry(u, r.test, c, r.level, None, if r.links.Some? && r.links.value.0 != "" then r.links else None);
      assert FromResult(e, r) && FromLast(e, earlier);
      assert e in out;
    }
    if i :| 0 <= i < |out| && out[i].unit == u && out[i].caseName == c {
      assert out[i] in out && FromLast(out[i], earlier);
    }
  }

  /** Wrong, which looks only at the key. */
  predicate WrongKey(results: Dict, required: Dict, key: (string, string), level: int) {
    Has(required, key.0, key.1) && Wrong(results, required, Entry(key.0, "", key.1, 0, None, None), level)
  }

  ghost function Bad(keys: set<(string, string)>, results: Dict, required: Dict, level: int): set<(string, string)> {
    set key | key in keys && WrongKey(results, required, key, level)
  }

  lemma OneMoreBad(keys: set<(string, string)>, key: (string, string), results: Dict, required: Dict, level: int)
    requires key !in keys
    ensures |Bad(keys + {key}, results, required, level)| ==
            |Bad(keys, results, required, level)| + if WrongKey(results, required, key, level) then 1 else 0
  {
    if WrongKey(results, required, key, level) {
      assert Bad(keys + {key}, results, required, level) == Bad(keys, results, required, level) + {key};
    } else {
      assert Bad(keys + {key}, results, required, level) == Bad(keys, results, required, level);
    }
  }

  lemma {:induction false} ErrorsBad(results: Dict, required: Dict, out: seq<Entry>, level: int)
    requires InOrder(out) && forall e :: e in out ==> Has(required, e.unit, e.caseName)
    ensures Errors(results, required, out, level) == |Bad(KeysOf(out), results, required, level)|
  {
    if out == [] {
      assert Bad(KeysOf(out), results, required, level) == {};
    } else {
      var n := |out| - 1;
      var before, e := out[..n], out[n];
      assert e in out;
      ErrorsBad(results, required, before, level);
      KeysOfLast(out);
      OneMoreBad(KeysOf(before), (e.unit, e.caseName), results, required, level);
      hide KeysOf;
      hide Bad;
    }
  }

  /** A list regenerated from one run and checked against another: the errors are
      the keys of the first that are reported. */
  lemma RegenThenCheckOthers(earlier: seq<Entry>, out: seq<Entry>, results: seq<Entry>, level: int)
    requires IsRegenerated(out, earlier)
    ensures forall e :: e in out ==> Has(Index(out), e.unit, e.caseName)
    ensures Errors(Index(results), Index(out), out, level) ==
            |set key | key in KeysIn(earlier) && Reported(earlier, results, key.0, key.1, level)|
  {
    AllFiled(out);
    ErrorsBad(Index(results), Index(out), out, level);
    hide Errors;
    var keys := set key | key in KeysIn(earlier) && Reported(earlier, results, key.0, key.1, level);
    forall key: (string, string)
      ensures key in keys <==> key in Bad(KeysOf(out), Index(results), Index(out), level)
    {
      KeyRegenerated(out, earlier, key.0, key.1);
      if i :| 0 <= i < |out| && out[i].unit == key.0 && out[i].caseName == key.1 {
        assert out[i] in out;
        ReportedMeans(earlier, out, results, i, level);
        WrongMeans(results, out, out[i], level);
        hide Satisfied;
        hide Reported;
        hide Index;
        assert WrongKey(Index(results), Index(out), key, level) <==> Wrong(Index(results), Index(out), out[i], level);
      }
    }
    assert keys == Bad(KeysOf(out), Index(results), Index(out), level);
  }

  /** A key failed exactly when the last result of that key did. */
  lemma FailedIsLast(results: seq<Entry>)
    ensures FailedKeys(Index(results)) == {} <==>
              forall i: nat :: i < |results| && IsLast(results, i, results[i].unit, results[i].caseName)
                               ==> results[i].status != Some(false)
  {
    var d := Index(results);
    if i: nat :| i < |results| && IsLast(results, i, results[i].unit, results[i].caseName)
                 && results[i].status == Some(false)
    {
      var u, c := results[i].unit, results[i].caseName;
      IndexIsLast(results, u, c);
      assert Occurs(results, u, c);
      LastUnique(results, i, u, c);
      assert (u, c) in FailedKeys(d);
    } else if FailedKeys(d) != {} {
      var key :| key in FailedKeys(d);
      assert Has(d, key.0, key.1);
      IndexIsLast(results, key.0, key.1);
    }
  }

  lemma LastUnique(results: seq<Entry>, i: nat, u: string, c: string)
    requires IsLast(results, i, u, c)
    ensures forall j: nat :: IsLast(results, j, u, c) ==> j == i
  {
  }

  /** testlist.py --regen and then --check with the same results file: success
      exactly when the last result of every key passed. */
  method RegenAndCheck(results: seq<Entry>, level: int) returns (code: int, errors: nat)
    ensures errors == |FailedKeys(Index(results))|
    ensures code == 0 <==>
              forall i: nat :: i < |results| && IsLast(results, i, results[i].unit, results[i].caseName)
                               ==> results[i].status != Some(false)
  {
    var out, _ := Regen(results);
    RegenThenCheck(results, out, level);
    code, errors := Check(results, out, level);
    FailedIsLast(results);
    hide FailedKeys;
    hide Index;
    hide Errors;
  }
}
