/** Sequences and the sets they enumerate, shared by the linked lists. */
module Sequences {

  datatype Option<+T> = None | Some(value: T)

  function RemoveAt<T>(s: seq<T>, i: nat): (r: seq<T>)
    requires i < |s|
    ensures |r| == |s| - 1 && forall j {:trigger r[j]} :: 0 <= j < |r| ==> r[j] == if j < i then s[j] else s[j + 1]
  {
    s[..i] + s[i + 1..]
  }

  ghost predicate Distinct<T>(s: seq<T>) {
    forall i, j :: 0 <= i < j < |s| ==> s[i] != s[j]
  }

  ghost function IndexOf<T>(s: seq<T>, x: T): (i: nat)
    requires x in s
    ensures i < |s| && s[i] == x
  {
    var i :| 0 <= i < |s| && s[i] == x;
    i
  }

  /** `repr` is the set of the nodes, and no node comes twice. */
  ghost predicate Enumerates<T>(nodes: seq<T>, repr: set<T>) {
    && Distinct(nodes)
    && (forall i :: 0 <= i < |nodes| ==> nodes[i] in repr)
    && |repr| == |nodes|
  }

  /** ... so every block in `repr` is a node. */
  lemma {:induction false} EnumeratesAll<T>(nodes: seq<T>, repr: set<T>)
    requires Enumerates(nodes, repr)
    ensures forall n :: n in repr <==> n in nodes
  {
    if nodes != [] {
      var k := |nodes| - 1;
      EnumeratesAll(nodes[..k], repr - {nodes[k]});
      assert nodes == nodes[..k] + [nodes[k]];
    }
  }

  lemma EnumeratesSkip<T>(nodes: seq<T>, repr: set<T>, k: nat)
    requires Enumerates(nodes, repr) && k < |nodes|
    ensures Enumerates(RemoveAt(nodes, k), repr - {nodes[k]})
  {
    var left := RemoveAt(nodes, k);
    assert forall i :: 0 <= i < |left| ==> left[i] == nodes[if i < k then i else i + 1];
  }

  lemma EnumeratesGrow<T>(nodes: seq<T>, repr: set<T>, x: T)
    requires Enumerates(nodes, repr) && x !in repr
    ensures Enumerates(nodes + [x], repr + {x})
  {
  }
}
