/** The store of test results (userspace/src/results.c): three record lists
    with tail pointers and their counters, updated under a mutex, proved
    against the sequences they stand for. */
module Results {
  import opened Sequences

  datatype Result = Passed | Failed | Skipped

  /** Module `mod`'s test number `test` was recorded; `status` is pass or not. */
  datatype Record = Record(mod: nat, test: nat, status: bool)

  datatype Tally = Tally(
    passing: seq<Record>, failing: seq<Record>, skipped: seq<Record>,
    nrTests: nat, nrPassing: nat, nrSkipped: nat)
  {
    /** The counters are what main and the printed report take them for. */
    predicate Consistent() {
      && nrTests == |passing| + |failing| + |skipped|
      && nrPassing == |passing|
      && nrSkipped == |skipped|
    }

    function Of(r: Result): seq<Record> {
      match r
      case Passed => passing
      case Failed => failing
      case Skipped => skipped
    }
  }

  const EMPTY_TALLY := Tally([], [], [], 0, 0, 0)

  function Append(t: Tally, r: Record, result: Result): Tally {
    var counted := t.(nrTests := t.nrTests + 1);
    match result
    case Passed => counted.(passing := t.passing + [r], nrPassing := t.nrPassing + 1)
    case Failed => counted.(failing := t.failing + [r])
    case Skipped => counted.(skipped := t.skipped + [r], nrSkipped := t.nrSkipped + 1)
  }

  /** What one call of core_add_test_record leaves: the first call that can
      allocate it sets up the store, and a record that cannot be allocated is
      not counted.  None is fw->results == NULL. */
  function AddRecord(store: Option<Tally>, mod: nat, test: nat, result: Result,
                     storeAlloc: bool, recordAlloc: bool): Option<Tally> {
    if store.None? && !storeAlloc then None
    else
      var t := if store.Some? then store.value else EMPTY_TALLY;
      if recordAlloc then Some(Append(t, Record(mod, test, result.Passed?), result)) else Some(t)
  }

  class RecordNode {
    var mod: nat
    var test: nat
    var status: bool
    var next: RecordNode?
    ghost var owner: RecordList?  // the list it was linked into

    constructor (mod: nat, test: nat, status: bool)
      ensures Info() == Record(mod, test, status) && next == null && owner == null
    {
      owner := null;
      this.mod, this.test, this.status, next := mod, test, status, null;
    }

    function Info(): Record
      reads this
    {
      Record(mod, test, status)
    }
  }

  ghost function At(nodes: seq<RecordNode>, i: nat): RecordNode? {
    if i < |nodes| then nodes[i] else null
  }

  ghost predicate Chain(nodes: seq<RecordNode>, repr: set<RecordNode>)
    reads repr
  {
    forall i {:trigger nodes[i].next} :: 0 <= i < |nodes| && nodes[i] in repr ==> nodes[i].next == At(nodes, i + 1)
  }

  ghost predicate Holds(nodes: seq<RecordNode>, items: seq<Record>, repr: set<RecordNode>)
    reads repr
  {
    && |items| == |nodes|
    && forall i :: 0 <= i < |nodes| && nodes[i] in repr ==> nodes[i].Info() == items[i]
  }

  lemma ChainGrow(nodes: seq<RecordNode>, repr: set<RecordNode>, tr: RecordNode)
    requires Enumerates(nodes, repr) && tr !in repr && tr.next == null
    requires forall i {:trigger nodes[i].next} :: 0 <= i < |nodes| - 1 ==> nodes[i].next == At(nodes, i + 1)
    requires nodes != [] ==> nodes[|nodes| - 1].next == tr
    ensures Chain(nodes + [tr], repr + {tr})
  {
    var grown := nodes + [tr];
    forall i | 0 <= i < |grown|
      ensures grown[i].next == At(grown, i + 1)
    {
      if i < |nodes| {
        assert grown[i] == nodes[i];
      }
    }
  }

  class RecordList {
    var head: RecordNode?
    var last: RecordNode?
    ghost var nodes: seq<RecordNode>
    ghost var items: seq<Record>
    ghost var repr: set<RecordNode>

    constructor Zeroed()
      ensures Valid() && items == [] && repr == {}
    {
      head, last := null, null;
      nodes, items, repr := [], [], {};
    }

    ghost predicate Valid()
      reads this, repr
    {
      && Enumerates(nodes, repr)
      && head == At(nodes, 0)
      && last == (if nodes == [] then null else nodes[|nodes| - 1])
      && Chain(nodes, repr)
      && Holds(nodes, items, repr)
      && forall n :: n in repr ==> n.owner == this
    }

    /** add_record. */
    method AddRecord(tr: RecordNode)
      requires Valid() && tr.owner == null && tr.next == null
      modifies this, repr`next, tr`owner
      ensures Valid() && repr == old(repr) + {tr}
      ensures items == old(items) + [tr.Info()]
    {
      tr.owner := this;
      if head == null {
        head := tr;
        last := tr;
      } else {
        assert forall i :: 0 <= i < |nodes| - 1 ==> nodes[i] != last;
        last.next := tr;
        last := tr;
      }
      Admit(tr);
    }

    /** for_record_in_test_list, gathering what it visits. */
    method Walk() returns (records: seq<Record>)
      requires Valid()
      ensures records == items
    {
      records := [];
      var tr := head;
      while tr != null
        invariant |records| <= |nodes| && tr == At(nodes, |records|)
        invariant records == items[..|records|]
        decreases |nodes| - |records|
      {
        assert nodes[|records|].Info() == items[|records|];
        records := records + [tr.Info()];
        tr := tr.next;
      }
    }

    ghost method Admit(tr: RecordNode)
      requires Enumerates(nodes, repr) && Holds(nodes, items, repr)
      requires tr !in repr && tr.next == null
      requires forall n :: n in repr + {tr} ==> n.owner == this
      requires head == (if nodes == [] then tr else nodes[0]) && last == tr
      requires forall i {:trigger nodes[i].next} :: 0 <= i < |nodes| - 1 ==> nodes[i].next == At(nodes, i + 1)
      requires nodes != [] ==> nodes[|nodes| - 1].next == tr
      modifies this`nodes, this`items, this`repr
      ensures Valid() && repr == old(repr) + {tr} && items == old(items) + [tr.Info()]
    {
      EnumeratesGrow(nodes, repr, tr);
      ChainGrow(nodes, repr, tr);
      nodes, items, repr := nodes + [tr], items + [tr.Info()], repr + {tr};
    }
  }

  /** As each record has one owner, two lists share none, and a new record is in
      neither. */
  lemma Apart(a: RecordList, b: RecordList, tr: RecordNode)
    requires a.Valid() && b.Valid() && a != b && tr.owner == null
    ensures a.repr !! b.repr && tr !in a.repr && tr !in b.repr
  {
  }

  class UnitResults {
    const passing: RecordList
    const failing: RecordList
    const skipped: RecordList
    var nrTests: nat
    var nrPassing: nat
    var nrSkipped: nat

    constructor Zeroed()
      ensures Valid() && Value() == EMPTY_TALLY
      ensures fresh(passing) && fresh(failing) && fresh(skipped)
    {
      passing := new RecordList.Zeroed();
      failing := new RecordList.Zeroed();
      skipped := new RecordList.Zeroed();
      nrTests, nrPassing, nrSkipped := 0, 0, 0;
    }

    /** The three lists are well formed; they share no record, as each record
        has one owner. */
    ghost predicate Valid()
      reads this, passing, failing, skipped, passing.repr, failing.repr, skipped.repr
    {
      && passing != failing && passing != skipped && failing != skipped
      && passing.Valid() && failing.Valid() && skipped.Valid()
    }

    ghost function Value(): Tally
      reads this, passing, failing, skipped
    {
      Tally(passing.items, failing.items, skipped.items, nrTests, nrPassing, nrSkipped)
    }

    method CountPassed(tr: RecordNode)
      requires Valid() && tr.owner == null && tr.next == null
      modifies this`nrTests, this`nrPassing, passing, passing.repr`next, tr`owner
      ensures Valid() && passing.repr == old(passing.repr) + {tr}
      ensures Value() == Append(old(Value()), old(tr.Info()), Passed)
    {
      Apart(passing, failing, tr);
      Apart(passing, skipped, tr);
      hide RecordList.Valid;
      nrTests, nrPassing := nrTests + 1, nrPassing + 1;
      passing.AddRecord(tr);
    }

    method CountFailed(tr: RecordNode)
      requires Valid() && tr.owner == null && tr.next == null
      modifies this`nrTests, failing, failing.repr`next, tr`owner
      ensures Valid() && failing.repr == old(failing.repr) + {tr}
      ensures Value() == Append(old(Value()), old(tr.Info()), Failed)
    {
      Apart(failing, passing, tr);
      Apart(failing, skipped, tr);
      hide RecordList.Valid;
      nrTests := nrTests + 1;
      failing.AddRecord(tr);
    }

    method CountSkipped(tr: RecordNode)
      requires Valid() && tr.owner == null && tr.next == null
      modifies this`nrTests, this`nrSkipped, skipped, skipped.repr`next, tr`owner
      ensures Valid() && skipped.repr == old(skipped.repr) + {tr}
      ensures Value() == Append(old(Value()), old(tr.Info()), Skipped)
    {
      Apart(skipped, passing, tr);
      Apart(skipped, failing, tr);
      hide RecordList.Valid;
      nrTests, nrSkipped := nrTests + 1, nrSkipped + 1;
      skipped.AddRecord(tr);
    }

    /** The body of core_add_test_record once the record is allocated. */
    method Count(tr: RecordNode, result: Result)
      requires Valid() && tr.owner == null && tr.next == null
      modifies this, passing, failing, skipped, passing.repr`next, failing.repr`next, skipped.repr`next, tr`owner
      ensures Valid()
      ensures passing.repr <= old(passing.repr) + {tr}
      ensures failing.repr <= old(failing.repr) + {tr}
      ensures skipped.repr <= old(skipped.repr) + {tr}
      ensures Value() == Append(old(Value()), old(tr.Info()), result)
    {
      match result
      case Passed => CountPassed(tr);
      case Failed => CountFailed(tr);
      case Skipped => CountSkipped(tr);
    }
  }

  /** The part of struct unit_fw the results live in. */
  class UnitFw {
    var results: UnitResults?
    ghost var repr: set<object>  // what the results occupy

    constructor ()
      ensures Valid() && Value() == None && repr == {}
    {
      results, repr := null, {};
    }

    ghost predicate Valid()
      reads this, repr
    {
      results != null ==>
        && results in repr && results.passing in repr && results.failing in repr && results.skipped in repr
        && results.passing.repr <= repr && results.failing.repr <= repr && results.skipped.repr <= repr
        && results.Valid()
    }

    ghost function Value(): Option<Tally>
      reads this, repr
      requires Valid()
    {
      if results == null then None else Some(results.Value())
    }

    /** __init_results. */
    method InitResults(storeAlloc: bool) returns (err: int)
      requires Valid()
      modifies this
      ensures Valid() && fresh(repr - old(repr))
      ensures err == 0 <==> old(results) != null || storeAlloc
      ensures err == 0 || err == -1
      ensures results == null <==> err != 0
      ensures old(results) != null ==> results == old(results) && repr == old(repr)
      ensures old(results) == null && err == 0 ==> results.Value() == EMPTY_TALLY && fresh(results)
    {
      if results != null {
        return 0;
      }
      if !storeAlloc {
        return -1;
      }
      results := new UnitResults.Zeroed();
      repr := {results, results.passing, results.failing, results.skipped};
      return 0;
    }

    method Keep(mod: nat, test: nat, result: Result)
      requires results != null && Valid()
      modifies this`repr, repr
      ensures Valid() && fresh(repr - old(repr)) && results == old(results)
      ensures results.Value() == Append(old(results.Value()), Record(mod, test, result.Passed?), result)
    {
      hide UnitResults.Valid;
      var tr := new RecordNode(mod, test, result.Passed?);
      repr := repr + {tr};
      results.Count(tr, result);
    }

    /** core_add_test_record, atomic under mutex_results. */
    method AddTestRecord(mod: nat, test: nat, result: Result, storeAlloc: bool, recordAlloc: bool) returns (err: int)
      requires Valid()
      modifies this, repr
      ensures Valid() && fresh(repr - old(repr))
      ensures Value() == AddRecord(old(Value()), mod, test, result, storeAlloc, recordAlloc)
      ensures err == 0 <==> (old(Value()).Some? || storeAlloc) && recordAlloc
      ensures err == 0 || err == -1
    {
      err := InitResults(storeAlloc);
      if err != 0 {
        return -1;
      }
      if !recordAlloc {
        return -1;
      }
      Keep(mod, test, result);
      return 0;
    }
  }
}
