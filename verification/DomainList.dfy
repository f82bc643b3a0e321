/** The scheduler's singly linked list of domains (nvsched/src/domain.c), with
    its head, tail and count, proved against a ghost sequence of nodes. */
module DomainLists {
  import opened Sequences
  import opened Limits

  const NAME_SIZE: nat := 32

  /** An opaque pointer the scheduler stores and never follows. */
  datatype Ptr = NullPtr | Ref(id: nat)

  datatype Params = Params(name: string, timeslice: nat, grace: nat, priv: Ptr)

  /** What strncpy(dom->name, name, sizeof(dom->name) - 1) leaves in a zeroed
      buffer, read back as a C string. */
  function StoredName(name: string): string {
    if |name| <= NAME_SIZE - 1 then name else name[..NAME_SIZE - 1]
  }

  /** The first domain whose stored name is `name`. */
  function FindName(doms: seq<Params>, name: string): (r: Option<nat>)
    ensures r.Some? ==> r.value < |doms|
  {
    if doms == [] then None
    else if doms[0].name == name then Some(0)
    else
      match FindName(doms[1..], name)
      case None => None
      case Some(i) => Some(i + 1)
  }

  class Domain {
    var name: string
    var timeslice: nat
    var grace: nat
    var priv: Ptr
    var next: Domain?

    /** The state after nvs_memset(dom, 0, sizeof(*dom)). */
    constructor Zeroed()
      ensures name == "" && timeslice == 0 && grace == 0 && priv == NullPtr && next == null
    {
      name, timeslice, grace, priv, next := "", 0, 0, NullPtr, null;
    }

    function Info(): Params
      reads this
    {
      Params(name, timeslice, grace, priv)
    }
  }

  /** The node at `i`, or NULL past the end. */
  ghost function At(nodes: seq<Domain>, i: nat): Domain? {
    if i < |nodes| then nodes[i] else null
  }

  ghost function Last(nodes: seq<Domain>): Domain? {
    if nodes == [] then null else nodes[|nodes| - 1]
  }

  /** Each node points to the following one, and the final node to NULL. */
  ghost predicate Chain(nodes: seq<Domain>, repr: set<Domain>)
    reads repr
  {
    forall i {:trigger nodes[i].next} :: 0 <= i < |nodes| && nodes[i] in repr ==> nodes[i].next == At(nodes, i + 1)
  }

  /** `infos` is what the nodes hold. */
  ghost predicate Holds(nodes: seq<Domain>, infos: seq<Params>, repr: set<Domain>)
    reads repr
  {
    && |infos| == |nodes|
    && forall i :: 0 <= i < |nodes| && nodes[i] in repr ==> nodes[i].Info() == infos[i]
  }

  /** When every node but the predecessor of node `k` points to its successor,
      and that one points past node `k`, the other nodes form a chain. */
  lemma ChainSkip(nodes: seq<Domain>, repr: set<Domain>, k: nat)
    requires Enumerates(nodes, repr) && k < |nodes|
    requires forall i {:trigger nodes[i].next} :: 0 <= i < |nodes| && i + 1 != k ==> nodes[i].next == At(nodes, i + 1)
    requires k > 0 ==> nodes[k - 1].next == At(nodes, k + 1)
    ensures var left := RemoveAt(nodes, k);
            && Chain(left, repr - {nodes[k]})
            && At(left, 0) == (if k == 0 then At(nodes, 1) else nodes[0])
            && Last(left) == if k + 1 < |nodes| then Last(nodes) else if k > 0 then nodes[k - 1] else null
  {
    var left := RemoveAt(nodes, k);
    forall i | 0 <= i < |left|
      ensures left[i].next == At(left, i + 1)
    {
      assert left[i] == nodes[if i < k then i else i + 1];
    }
  }

  lemma ChainGrow(nodes: seq<Domain>, repr: set<Domain>, dom: Domain)
    requires Enumerates(nodes, repr) && dom !in repr && dom.next == null
    requires forall i {:trigger nodes[i].next} :: 0 <= i < |nodes| - 1 ==> nodes[i].next == At(nodes, i + 1)
    requires nodes != [] ==> nodes[|nodes| - 1].next == dom
    ensures Chain(nodes + [dom], repr + {dom})
  {
    var grown := nodes + [dom];
    forall i | 0 <= i < |grown|
      ensures grown[i].next == At(grown, i + 1)
    {
      if i < |nodes| {
        assert grown[i] == nodes[i];
      }
    }
  }

  lemma HoldsSkip(nodes: seq<Domain>, infos: seq<Params>, repr: set<Domain>, k: nat)
    requires Enumerates(nodes, repr) && Holds(nodes, infos, repr) && k < |nodes|
    ensures Holds(RemoveAt(nodes, k), RemoveAt(infos, k), repr - {nodes[k]})
  {
    var left, infos' := RemoveAt(nodes, k), RemoveAt(infos, k);
    forall i | 0 <= i < |left|
      ensures left[i].Info() == infos'[i]
    {
      var j := if i < k then i else i + 1;
      assert left[i] == nodes[j] && infos'[i] == infos[j];
    }
  }

  lemma HoldsGrow(nodes: seq<Domain>, infos: seq<Params>, repr: set<Domain>, dom: Domain)
    requires Enumerates(nodes, repr) && Holds(nodes, infos, repr) && dom !in repr
    ensures Holds(nodes + [dom], infos + [dom.Info()], repr + {dom})
  {
  }

  class DomainList {
    var nr: nat
    var domains: Domain?
    var last: Domain?
    ghost var nodes: seq<Domain>    // the chain, head first
    ghost var infos: seq<Params>    // what each node holds
    ghost var repr: set<Domain>     // the nodes as a set

    constructor Zeroed()
      ensures Valid() && nodes == [] && infos == [] && repr == {}
    {
      nr, domains, last := 0, null, null;
      nodes, infos, repr := [], [], {};
    }

    /** `nodes` is the chain from `domains`; it ends, visits no node twice, and
        `last` is its final node. */
    ghost predicate Linked()
      reads this`domains, this`last, this`nodes, this`infos, this`repr, repr
    {
      && Enumerates(nodes, repr)
      && domains == At(nodes, 0)
      && last == Last(nodes)
      && Chain(nodes, repr)
      && Holds(nodes, infos, repr)
    }

    ghost predicate Valid()
      reads this, repr
    {
      Linked() && nr == |nodes|
    }

    /** The tail of nvs_domain_create: count the domain and link it last. */
    method Append(dom: Domain)
      requires Valid() && nr + 1 < U32
      requires dom !in repr && dom.next == null
      modifies this, repr`next
      ensures Valid() && nodes == old(nodes) + [dom] && repr == old(repr) + {dom}
      ensures infos == old(infos) + [dom.Info()]
    {
      nr := (nr + 1) % U32;
      if domains == null {
        domains := dom;
        last := dom;
      } else {
        assert forall i :: 0 <= i < |nodes| - 1 ==> nodes[i] != last;
        last.next := dom;
        last := dom;
      }
      Admit(dom);
    }

    /** The ghost side of linking a node last. */
    ghost method Admit(dom: Domain)
      requires Enumerates(nodes, repr) && Holds(nodes, infos, repr)
      requires dom !in repr && dom.next == null
      requires domains == (if nodes == [] then dom else nodes[0]) && last == dom
      requires forall i {:trigger nodes[i].next} :: 0 <= i < |nodes| - 1 ==> nodes[i].next == At(nodes, i + 1)
      requires nodes != [] ==> nodes[|nodes| - 1].next == dom
      modifies this`nodes, this`infos, this`repr
      ensures Linked() && nodes == old(nodes) + [dom] && repr == old(repr) + {dom}
      ensures infos == old(infos) + [dom.Info()]
    {
      EnumeratesGrow(nodes, repr, dom);
      ChainGrow(nodes, repr, dom);
      HoldsGrow(nodes, infos, repr, dom);
      nodes, infos, repr := nodes + [dom], infos + [dom.Info()], repr + {dom};
    }

    /** The walk of nvs_domain_unlink: the node before `dom`. */
    method Before(dom: Domain) returns (tmp: Domain?)
      requires Linked()
      ensures tmp == if dom in nodes && IndexOf(nodes, dom) > 0 then nodes[IndexOf(nodes, dom) - 1] else null
    {
      ghost var k := if dom in nodes then IndexOf(nodes, dom) else |nodes|;
      tmp := domains;
      ghost var i := 0;
      while tmp != null
        invariant 0 <= i <= |nodes| && tmp == At(nodes, i) && (0 < k < |nodes| ==> i < k)
        decreases |nodes| - i
      {
        if dom == tmp.next {
          assert i + 1 == k;
          return;
        }
        tmp := tmp.next;
        i := i + 1;
      }
    }

    /** What nvs_domain_unlink does to the pointers. */
    method Bypass(dom: Domain)
      requires Linked()
      modifies this`domains, this`last, repr`next
      ensures dom !in nodes ==> domains == old(domains) && last == old(last) && unchanged(repr)
      ensures dom in nodes ==>
                var k := IndexOf(nodes, dom);
                && domains == (if k == 0 then At(nodes, 1) else nodes[0])
                && last == (if k + 1 < |nodes| then Last(nodes) else if k > 0 then nodes[k - 1] else null)
                && (forall i {:trigger nodes[i].next} :: 0 <= i < |nodes| && i + 1 != k ==>
                      nodes[i].next == At(nodes, i + 1))
                && (k > 0 ==> nodes[k - 1].next == At(nodes, k + 1))
    {
      EnumeratesAll(nodes, repr);
      if domains == dom {
        domains := dom.next;
        if dom == last {
          last := null;
        }
      } else {
        var tmp := Before(dom);
        if tmp != null {
          tmp.next := dom.next;
          if dom == last {
            last := tmp;
          }
        }
      }
    }

    /** nvs_domain_unlink: takes a domain of the list out of it, and does
        nothing to the list for any other. */
    method Unlink(dom: Domain)
      requires Linked()
      modifies this`domains, this`last, this`nodes, this`infos, this`repr, repr`next
      ensures Linked() && repr == old(repr) - {dom}
      ensures dom in old(nodes) ==>
                var k := IndexOf(old(nodes), dom);
                nodes == RemoveAt(old(nodes), k) && infos == RemoveAt(old(infos), k)
      ensures dom !in old(nodes) ==> nodes == old(nodes) && infos == old(infos)
    {
      EnumeratesAll(nodes, repr);
      Bypass(dom);
      if dom in nodes {
        Forget(IndexOf(nodes, dom));
      }
    }

    /** The ghost side of unlinking node `k`. */
    ghost method Forget(k: nat)
      requires k < |nodes| && Enumerates(nodes, repr) && Holds(nodes, infos, repr)
      requires domains == if k == 0 then At(nodes, 1) else nodes[0]
      requires last == if k + 1 < |nodes| then Last(nodes) else if k > 0 then nodes[k - 1] else null
      requires forall i {:trigger nodes[i].next} :: 0 <= i < |nodes| && i + 1 != k ==> nodes[i].next == At(nodes, i + 1)
      requires k > 0 ==> nodes[k - 1].next == At(nodes, k + 1)
      modifies this`nodes, this`infos, this`repr
      ensures Linked() && repr == old(repr) - {old(nodes)[k]}
      ensures nodes == RemoveAt(old(nodes), k) && infos == RemoveAt(old(infos), k)
    {
      EnumeratesSkip(nodes, repr, k);
      ChainSkip(nodes, repr, k);
      HoldsSkip(nodes, infos, repr, k);
      nodes, infos, repr := RemoveAt(nodes, k), RemoveAt(infos, k), repr - {nodes[k]};
    }

    /** What nvs_domain_destroy does to the list and to the domain, which it
        clears before freeing it.  It counts one down whether or not the domain
        was in the list. */
    method Remove(dom: Domain)
      requires Valid()
      modifies this, repr, dom
      ensures Linked() && repr == old(repr) - {dom}
      ensures dom in old(nodes) ==>
                var k := IndexOf(old(nodes), dom);
                Valid() && nodes == RemoveAt(old(nodes), k) && infos == RemoveAt(old(infos), k)
      ensures dom !in old(nodes) ==>
                nodes == old(nodes) && infos == old(infos)
                && nr == if nodes == [] then U32 - 1 else |nodes| - 1
    {
      Unlink(dom);
      dom.name, dom.timeslice, dom.grace, dom.priv, dom.next := "", 0, 0, NullPtr, null;
      nr := if nr == 0 then U32 - 1 else nr - 1;
    }

    /** The walk of nvs_domain_by_name. */
    method ByName(name: string) returns (r: Domain?)
      requires Linked()
      ensures match FindName(infos, name)
              case None => r == null
              case Some(i) => r == nodes[i]
    {
      var domain := domains;
      ghost var i := 0;
      FindNameFirst(infos, name);
      while domain != null
        invariant 0 <= i <= |nodes|
        invariant domain == At(nodes, i)
        invariant forall j :: 0 <= j < i ==> infos[j].name != name
        decreases |nodes| - i
      {
        assert nodes[i].Info() == infos[i];
        if domain.name == name {
          return domain;
        }
        domain := domain.next;
        i := i + 1;
      }
      return null;
    }
  }

  // ----- lookup across mutation -----

  ghost predicate IsFirst(doms: seq<Params>, name: string, r: Option<nat>) {
    match r
    case None => forall j :: 0 <= j < |doms| ==> doms[j].name != name
    case Some(i) => i < |doms| && doms[i].name == name && forall j :: 0 <= j < i ==> doms[j].name != name
  }

  lemma {:induction false} FindNameFirst(doms: seq<Params>, name: string)
    ensures IsFirst(doms, name, FindName(doms, name))
  {
    if doms != [] && doms[0].name != name {
      FindNameFirst(doms[1..], name);
      assert forall j :: 1 <= j < |doms| ==> doms[j] == doms[1..][j - 1];
    }
  }

  /** FindName is the only index that meets its contract. */
  lemma {:induction false} FindNameIs(doms: seq<Params>, name: string, i: nat)
    requires i < |doms| && doms[i].name == name
    requires forall j :: 0 <= j < i ==> doms[j].name != name
    ensures FindName(doms, name) == Some(i)
  {
    if i > 0 {
      FindNameIs(doms[1..], name, i - 1);
    }
  }

  /** A domain is found under its own name right after its creation exactly
      when the name fits the 31 bytes kept of it and no live domain has it. */
  lemma FoundAfterCreate(doms: seq<Params>, p: Params)
    ensures FindName(doms + [p.(name := StoredName(p.name))], p.name) == Some(|doms|)
            <==> |p.name| < NAME_SIZE && FindName(doms, p.name).None?
  {
    var stored := p.(name := StoredName(p.name));
    FindNameFirst(doms, p.name);
    FindConcat(doms, [stored], p.name);
    assert FindName([stored], p.name) == if stored.name == p.name then Some(0) else None;
  }

  /** What a new domain is found under is its name, or the first 31 bytes of a
      longer one, if no live domain has that. */
  lemma FoundAsStored(doms: seq<Params>, p: Params)
    ensures var short := if |p.name| < 32 then p.name else p.name[..31];
            FindName(doms + [p.(name := StoredName(p.name))], short) == Some(|doms|)
            <==> FindName(doms, short).None?
  {
    var stored := p.(name := StoredName(p.name));
    var short := if |p.name| < 32 then p.name else p.name[..31];
    FindNameFirst(doms, short);
    FindConcat(doms, [stored], short);
    assert FindName([stored], short) == Some(0);
  }

  /** A name of 32 bytes or more is never found, whatever was created. */
  lemma LongNameNeverFound(doms: seq<Params>, name: string)
    requires forall d :: d in doms ==> |d.name| < NAME_SIZE
    requires |name| >= NAME_SIZE
    ensures FindName(doms, name).None?
  {
    FindNameFirst(doms, name);
    forall i | 0 <= i < |doms|
      ensures doms[i].name != name
    {
      assert doms[i] in doms;
    }
  }

  lemma {:induction false} FindConcat(a: seq<Params>, b: seq<Params>, name: string)
    ensures FindName(a + b, name) ==
            if FindName(a, name).Some? then FindName(a, name)
            else if FindName(b, name).Some? then Some(|a| + FindName(b, name).value)
            else None
  {
    if a == [] {
      assert a + b == b;
    } else {
      assert (a + b)[1..] == a[1..] + b;
      FindConcat(a[1..], b, name);
    }
  }

  /** Destroying the domain that was found exposes the next one of that name;
      destroying another one changes no lookup but for the shift of indices. */
  lemma FindAfterDestroy(doms: seq<Params>, name: string, k: nat)
    requires k < |doms|
    ensures FindName(RemoveAt(doms, k), name) ==
            match FindName(doms, name)
            case None => None
            case Some(i) =>
              if k > i then Some(i)
              else if k < i then Some(i - 1)
              else match FindName(doms[k + 1..], name)
                   case None => None
                   case Some(j) => Some(k + j)
  {
    var front, d, rest := doms[..k], [doms[k]], doms[k + 1..];
    assert doms == front + (d + rest);
    FindConcat(front, rest, name);
    FindConcat(d, rest, name);
    FindConcat(front, d + rest, name);
    assert FindName(d, name) == if doms[k].name == name then Some(0) else None;
  }
}
