/** The scheduler object (nvsched/src/sched.c, and the parts of domain.c and
    logging.c that allocate, free and log), proved against SchedSpec. */
module Sched {
  import opened Sequences
  import opened Limits
  import opened EventLog
  import opened DomainLists
  import opened SchedSpec

  /** What an implementation provides: a clock that returns anything and an
      allocator.  `grants` is whether nvs_malloc() succeeded, call by call, and
      `readings` what nvs_timestamp() returned.
      `live` is the set of allocated blocks; a block is freed only while it is
      in there. */
  class Platform {
    ghost var grants: seq<bool>
    ghost var readings: seq<int>
    ghost var live: set<object>

    constructor ()
      ensures grants == [] && readings == [] && live == {}
    {
      grants, readings, live := [], [], {};
    }

    method Timestamp() returns (now: int)
      modifies this`readings
      ensures readings == old(readings) + [now]
    {
      now := *;
      readings := readings + [now];
    }

    /** Whether nvs_malloc succeeds. */
    method Malloc() returns (ok: bool)
      modifies this`grants
      ensures grants == old(grants) + [ok]
    {
      ok := *;
      grants := grants + [ok];
    }

    ghost method Acquire(block: object)
      requires block !in live
      modifies this`live
      ensures live == old(live) + {block}
    {
      live := live + {block};
    }

    ghost method Free(block: object)
      requires block in live
      modifies this`live
      ensures live == old(live) - {block}
    {
      live := live - {block};
    }
  }

  /** `live` is `base` plus the blocks of one scheduler, and they are disjoint. */
  ghost predicate Accounted(live: set<object>, base: set<object>,
                            list: object, logger: object, events: object, domains: set<object>)
  {
    && list !in base && logger !in base && events !in base && domains !! base
    && live == base + {list, logger, events} + domains
  }

  lemma AccountedEmpty(live: set<object>, base: set<object>, list: object, logger: object, events: object)
    requires Accounted(live, base, list, logger, events, {})
    requires list != logger && list != events && logger != events
    ensures list in live && events in live - {list} && logger in live - {list} - {events}
    ensures live - {list} - {events} - {logger} == base
  {
  }

  lemma AccountedOther(live: set<object>, base: set<object>, list: object, logger: object, events: object,
                       domains: set<object>, d: object)
    requires Accounted(live, base, list, logger, events, domains) && d !in live
    ensures Accounted(live + {d}, base + {d}, list, logger, events, domains)
    ensures base + {d} - {d} == base
  {
  }

  lemma AccountedAdopt(live: set<object>, base: set<object>, list: object, logger: object, events: object,
                       domains: set<object>, d: object)
    requires Accounted(live, base, list, logger, events, domains) && d in base
    ensures Accounted(live, base - {d}, list, logger, events, domains + {d})
  {
  }

  lemma AccountedShrink(live: set<object>, base: set<object>, list: object, logger: object, events: object,
                        domains: set<object>, d: object)
    requires Accounted(live, base, list, logger, events, domains) && d in domains
    requires d != list && d != logger && d != events
    ensures Accounted(live - {d}, base, list, logger, events, domains - {d})
  {
  }

  class Scheduler {
    const plat: Platform
    var ops: Ptr
    var domainList: DomainList?
    var log: LogBuffer?
    var priv: Ptr
    ghost var base: set<object>  // live blocks of others
    ghost var history: seq<Event>

    constructor (plat: Platform)
      ensures this.plat == plat && ops == priv == NullPtr && domainList == null && log == null
    {
      this.plat := plat;
      ops, domainList, log, priv := NullPtr, null, null, NullPtr;
      base, history := {}, [];
    }

    /** Between create and close: the live blocks are the domain list, the
        logger, its event array, one block per domain, and nothing else but
        what was live before. */
    ghost predicate Open()
      reads this, plat, plat.live
    {
      && domainList != null && log != null
      && domainList in plat.live && log in plat.live
      && log.events != null && log.events in plat.live
      && domainList.repr <= plat.live
      && domainList.Valid() && log.Valid()
      && Accounted(plat.live, base, domainList, log, log.events, domainList.repr)
      && |domainList.nodes| < U32
    }

    ghost function State(): View
      requires Open()
      reads this, plat, plat.live
    {
      View(domainList.infos, log.log, history, log.tsOffset)
    }

    /** nvs_log_event: the log must still be allocated. */
    method LogEvent(kind: EventKind) returns (ghost now: int)
      requires Open()
      modifies this`history, plat`readings, log, log.events
      ensures Open() && log.events == old(log.events)
      ensures plat.readings == old(plat.readings) + [now]
      ensures State() == Logged(old(State()), kind, now)
    {
      var t := plat.Timestamp();
      now := t;
      log.LogEvent(kind, 0, t);
      history := history + [Event(Stamp(now, log.tsOffset), 0, kind)];
    }

    /** nvs_log_get. */
    method LogGet(ev: Event) returns (r: Event)
      requires Open()
      modifies log
      ensures Open()
      ensures State() == Got(old(State()))
      ensures r == if old(State().log.queue) == [] then ev.(kind := NoEvent) else old(State().log.queue[0])
    {
      r := log.LogGet(ev);
    }

    /** nvs_log_init. */
    method LogInit(entries: nat) returns (err: int)
      requires 1 <= entries < U32
      modifies this`log, plat
      ensures err == 0 || err == -ENOMEM
      ensures err != 0 ==> plat.live == old(plat.live)
      ensures old(plat.grants) < plat.grants
      ensures err == 0 <==> false !in plat.grants[|old(plat.grants)|..]
      ensures err == 0 ==>
                && log != null && fresh(log) && log.Valid() && fresh(log.events)
                && plat.live == old(plat.live) + {log, log.events}
                && log.log == EmptyLog(entries - 1)
                && plat.readings == old(plat.readings) + [log.tsOffset]
    {
      ghost var before := plat.grants;
      var ok := plat.Malloc();
      if !ok {
        assert plat.grants[|before|..] == [false];
        return -ENOMEM;
      }
      var logger := new LogBuffer.Zeroed();
      plat.Acquire(logger);
      logger.tsOffset := plat.Timestamp();
      logger.entries := entries;
      ok := plat.Malloc();
      assert plat.grants[|before|..] == [true, ok];
      if !ok {
        plat.Free(logger);
        return -ENOMEM;
      }
      logger.events := new Event[entries](_ => Event(0, 0, NoEvent));
      plat.Acquire(logger.events);
      logger.log := EmptyLog(entries - 1);
      log := logger;
      return 0;
    }

    /** The domain list and the log, or neither. */
    method AllocateParts(entries: nat) returns (err: int)
      requires 1 <= entries < U32 && base == plat.live
      modifies this`domainList, this`log, plat
      ensures err == 0 || err == -ENOMEM
      ensures old(plat.grants) < plat.grants
      ensures err == 0 <==> false !in plat.grants[|old(plat.grants)|..]
      ensures err != 0 ==> plat.live == old(plat.live)
      ensures err == 0 ==>
                && Open() && fresh(domainList) && fresh(log) && fresh(log.events)
                && domainList.nodes == []
                && State() == View([], EmptyLog(entries - 1), history, log.tsOffset)
                && plat.readings == old(plat.readings) + [log.tsOffset]
    {
      ghost var before := plat.grants;
      var ok := plat.Malloc();
      if !ok {
        assert plat.grants[|before|..] == [false];
        return -ENOMEM;
      }
      domainList := new DomainList.Zeroed();
      plat.Acquire(domainList);
      ghost var between := plat.grants;
      err := LogInit(entries);
      assert plat.grants[|before|..] == [true] + plat.grants[|between|..];
      if err != 0 {
        plat.Free(domainList);
      }
    }

    /** nvs_sched_create fails exactly when `ops` is missing or an allocation
        is refused, and then keeps nothing. */
    method Create(ops: Ptr, priv: Ptr, entries: nat) returns (err: int, ghost now: int)
      requires 1 <= entries < U32
      modifies this, plat
      ensures err == 0 || err == -EINVAL || err == -ENOMEM
      ensures err == -EINVAL <==> ops == NullPtr
      ensures err == -EINVAL ==> unchanged(this) && unchanged(plat)
      ensures old(plat.grants) <= plat.grants
      ensures err == 0 <==> ops != NullPtr && false !in plat.grants[|old(plat.grants)|..]
      ensures err != 0 ==> plat.live == old(plat.live)
      ensures err == 0 ==>
                && Open() && base == old(plat.live) && fresh(domainList) && fresh(log) && fresh(log.events)
                && State() == Fresh(entries, log.tsOffset, now)
                && plat.readings == old(plat.readings) + [log.tsOffset, now]
                && this.ops == ops && this.priv == priv
    {
      now := 0;
      if ops == NullPtr {
        err := -EINVAL;
        return;
      }
      this.ops, domainList, log, this.priv := ops, null, null, priv;
      history, base := [], plat.live;
      err := AllocateParts(entries);
      if err == 0 {
        now := LogEvent(CreateSched);
      }
    }

    /** The allocation and the fields of a new domain. */
    method NewDomain(p: Params) returns (dom: Domain?)
      modifies plat`grants, plat`live
      ensures plat.grants == old(plat.grants) + [dom != null]
      ensures dom == null ==> plat.live == old(plat.live)
      ensures dom != null ==>
                && fresh(dom) && dom.next == null
                && dom.name == (if |p.name| < 32 then p.name else p.name[..31])
                && dom.timeslice == p.timeslice && dom.grace == p.grace && dom.priv == p.priv
                && dom.Info() == Stored(p)
                && plat.live == old(plat.live) + {dom} && dom !in old(plat.live)
    {
      var ok := plat.Malloc();
      if !ok {
        return null;
      }
      dom := new Domain.Zeroed();
      plat.Acquire(dom);
      dom.name := StoredName(p.name);
      dom.timeslice := p.timeslice;
      dom.grace := p.grace;
      dom.priv := p.priv;
    }

    /** nvs_domain_create: the new domain comes last, or nothing changes. */
    method DomainCreate(name: string, timeslice: nat, grace: nat, priv: Ptr)
      returns (dom: Domain?, ghost now: int)
      requires Open() && |domainList.nodes| + 1 < U32
      modifies this`history, this`base, plat, domainList, domainList.repr, log, log.events
      ensures Open() && base == old(base)
      ensures plat.grants == old(plat.grants) + [dom != null]
      ensures dom == null ==>
                State() == old(State()) && plat.live == old(plat.live) && plat.readings == old(plat.readings)
      ensures dom != null ==>
                && fresh(dom) && domainList.nodes == old(domainList.nodes) + [dom]
                && dom.name == (if |name| < 32 then name else name[..31])
                && dom.timeslice == timeslice && dom.grace == grace && dom.priv == priv
                && plat.readings == old(plat.readings) + [now]
                && plat.live == old(plat.live) + {dom}
                && State() == Created(old(State()), Params(name, timeslice, grace, priv), now)
    {
      now := 0;
      dom := NewDomain(Params(name, timeslice, grace, priv));
      if dom == null {
        return;
      }
      // until it is linked, the new block is none of the list's
      AccountedOther(old(plat.live), base, domainList, log, log.events, domainList.repr, dom);
      base := base + {dom};
      now := LogEvent(CreateDomain);
      Enlist(dom);
    }

    /** The end of nvs_domain_create. */
    method Enlist(dom: Domain)
      requires Open() && |domainList.nodes| + 1 < U32
      requires dom in base && dom.next == null
      modifies this`base, domainList, domainList.repr`next
      ensures Open() && base == old(base) - {dom}
      ensures domainList.nodes == old(domainList.nodes) + [dom]
      ensures State() == old(State()).(doms := old(State()).doms + [dom.Info()])
    {
      AccountedAdopt(plat.live, base, domainList, log, log.events, domainList.repr, dom);
      domainList.Append(dom);
      base := base - {dom};
    }

    /** nvs_domain_destroy of a live domain. */
    method DomainDestroy(dom: Domain) returns (ghost now: int)
      requires Open() && dom in domainList.nodes
      modifies this`history, plat`live, plat`readings, domainList, domainList.repr, log, log.events
      ensures Open() && log.events == old(log.events) && domainList.repr == old(domainList.repr) - {dom}
      ensures plat.readings == old(plat.readings) + [now]
      ensures plat.live == old(plat.live) - {dom}
      ensures var k := IndexOf(old(domainList.nodes), dom);
              && domainList.nodes == RemoveAt(old(domainList.nodes), k)
              && State() == Destroyed(old(State()), k, now)
    {
      AccountedShrink(plat.live, base, domainList, log, log.events, domainList.repr, dom);
      now := LogEvent(RemoveDomain);
      domainList.Remove(dom);
      plat.Free(dom);
    }

    /** One turn of the loop: `start` and `v` are the clock's readings and the
        state before it, `nows` the readings since. */
    method DestroyFirst(ghost v: View, ghost start: seq<int>, ghost nows: seq<int>) returns (ghost nows': seq<int>)
      requires Open() && domainList.nodes != []
      requires |nows| + |domainList.nodes| == |v.doms| && State() == Dropped(v, nows) && plat.readings == start + nows
      modifies this`history, plat`live, plat`readings, domainList, domainList.repr, log, log.events
      ensures Open() && log.events == old(log.events) && domainList.repr <= old(domainList.repr)
      ensures |domainList.nodes| == |old(domainList.nodes)| - 1
      ensures |nows'| + |domainList.nodes| == |v.doms| && State() == Dropped(v, nows') && plat.readings == start + nows'
    {
      assert IndexOf(domainList.nodes, domainList.domains) == 0;
      hide Dropped;
      hide Destroyed;
      hide Accounted;
      hide DomainList.Valid;
      hide LogBuffer.Valid;
      ghost var now := DomainDestroy(domainList.domains);
      DroppedStep(v, nows, now);
      nows' := nows + [now];
      assert start + nows + [now] == start + nows';
    }

    /** nvs_domain_clear_all. */
    method DomainClearAll() returns (ghost nows: seq<int>)
      requires Open()
      modifies this`history, plat`live, plat`readings, domainList, domainList.repr, log, log.events
      ensures Open() && |nows| == |old(domainList.nodes)|
      ensures plat.readings == old(plat.readings) + nows
      ensures State() == Dropped(old(State()), nows)
      ensures domainList.nodes == [] && domainList.domains == null && domainList.last == null && domainList.nr == 0
    {
      ghost var v, start := State(), plat.readings;
      nows := [];
      while domainList.domains != null
        invariant Open() && log.events == old(log.events) && domainList.repr <= old(domainList.repr)
        invariant |nows| + |domainList.nodes| == |v.doms|
        invariant plat.readings == start + nows
        invariant State() == Dropped(v, nows)
        decreases |domainList.nodes|
      {
        nows := DestroyFirst(v, start, nows);
      }
    }

    /** nvs_domain_count. */
    method DomainCount() returns (n: nat)
      requires Open()
      ensures n == |State().doms|
    {
      n := domainList.nr;
    }

    /** nvs_domain_by_name. */
    method DomainByName(name: string) returns (r: Domain?)
      requires Open()
      ensures match FindName(State().doms, name)
              case None => r == null
              case Some(i) => r == domainList.nodes[i]
    {
      r := domainList.ByName(name);
    }

    /** The end of nvs_sched_close, once no domain is left. */
    method FreeAll()
      requires Open() && domainList.nodes == []
      modifies this, plat`live
      ensures plat.live == old(base) && history == old(history)
      ensures domainList == null && log == null && ops == NullPtr && priv == NullPtr
    {
      AccountedEmpty(plat.live, base, domainList, log, log.events);
      hide Accounted;
      hide DomainList.Valid;
      hide LogBuffer.Valid;
      plat.Free(domainList);
      plat.Free(log.events);
      plat.Free(log);
      ops, domainList, log, priv := NullPtr, null, null, NullPtr;
    }

    /** nvs_sched_close: every block goes exactly once, the log's after the
        last removal was logged. */
    method Close() returns (ghost nows: seq<int>)
      requires Open()
      modifies this, plat, domainList, domainList.repr, log, log.events
      ensures plat.live == old(base)
      ensures domainList == null && log == null && ops == NullPtr && priv == NullPtr
      ensures |nows| == |old(domainList.nodes)| && history == Dropped(old(State()), nows).history
      ensures plat.readings == old(plat.readings) + nows
    {
      nows := DomainClearAll();
      FreeAll();
    }
  }
}
