/** The scheduler's event log (nvsched/src/logging.c): a ring of `entries`
    slots, one of which always stays empty, that drops its oldest event when a
    new one does not fit.  The ring is proved against a bounded queue that also
    remembers what was read and what was overwritten, and the loss behaviour of
    that queue is proved for every run. */
module EventLog {
  import opened Limits

  datatype EventKind = NoEvent | CreateSched | CreateDomain | RemoveDomain

  datatype Event = Event(timestamp: nat, data: nat, kind: EventKind)

  /** nvs_timestamp() - ts_offset as a u64. */
  function Stamp(now: int, offset: int): nat {
    (now - offset) % 0x1_0000_0000_0000_0000
  }

  /** The time since the offset was taken, in a u64 that wraps around. */
  lemma StampMeans(now: int, offset: int)
    ensures Stamp(now, offset) < 0x1_0000_0000_0000_0000
    ensures exists k :: now == offset + Stamp(now, offset) + k * 0x1_0000_0000_0000_0000
    ensures 0 <= now - offset < 0x1_0000_0000_0000_0000 ==> offset + Stamp(now, offset) == now
  {
    var k := (now - offset) / 0x1_0000_0000_0000_0000;
    assert now == offset + Stamp(now, offset) + k * 0x1_0000_0000_0000_0000;
  }

  // ----- the bounded queue the ring implements -----

  /** `read` and `overwritten` are the events that left the queue, oldest first. */
  datatype Log = Log(capacity: nat, queue: seq<Event>, read: seq<Event>, overwritten: seq<Event>)

  function EmptyLog(capacity: nat): Log {
    Log(capacity, [], [], [])
  }

  function Emit(log: Log, e: Event): Log {
    var q := log.queue + [e];
    if |q| > log.capacity then
      log.(queue := q[1..], overwritten := log.overwritten + [q[0]])
    else
      log.(queue := q)
  }

  function Take(log: Log): Log {
    if log.queue == [] then log
    else log.(queue := log.queue[1..], read := log.read + [log.queue[0]])
  }

  // ----- runs -----

  datatype Op = EmitOp(event: Event) | TakeOp

  function Step(log: Log, op: Op): Log {
    match op
    case EmitOp(e) => Emit(log, e)
    case TakeOp => Take(log)
  }

  function Run(capacity: nat, ops: seq<Op>): Log {
    if ops == [] then EmptyLog(capacity)
    else Step(Run(capacity, ops[..|ops| - 1]), ops[|ops| - 1])
  }

  /** What a run emits, in order. */
  function Emitted(ops: seq<Op>): seq<Event> {
    if ops == [] then []
    else
      var before := Emitted(ops[..|ops| - 1]);
      match ops[|ops| - 1]
      case EmitOp(e) => before + [e]
      case TakeOp => before
  }

  /** A FIFO that never overflows: the events still waiting after `ops`. */
  function Outstanding(ops: seq<Op>): seq<Event> {
    if ops == [] then []
    else
      var before := Outstanding(ops[..|ops| - 1]);
      match ops[|ops| - 1]
      case EmitOp(e) => before + [e]
      case TakeOp => if before == [] then [] else before[1..]
  }

  /** ... and what its reader has received. */
  function Delivered(ops: seq<Op>): seq<Event> {
    if ops == [] then []
    else
      var before := Delivered(ops[..|ops| - 1]);
      var waiting := Outstanding(ops[..|ops| - 1]);
      match ops[|ops| - 1]
      case EmitOp(_) => before
      case TakeOp => if waiting == [] then before else before + [waiting[0]]
  }

  /** The elements of `s` whose flag is `b`, in order. */
  function Pick<T>(s: seq<T>, flags: seq<bool>, b: bool): seq<T>
    requires |s| == |flags|
  {
    if s == [] then []
    else
      var rest := Pick(s[..|s| - 1], flags[..|s| - 1], b);
      if flags[|s| - 1] == b then rest + [s[|s| - 1]] else rest
  }

  /** `gone` says of each emitted event that has left the log, oldest first,
      whether it was read (true) or overwritten (false): everything that left
      is older than everything retained. */
  ghost predicate Splits(history: seq<Event>, log: Log, gone: seq<bool>) {
    && |gone| <= |history|
    && log.queue == history[|gone|..]
    && log.read == Pick(history[..|gone|], gone, true)
    && log.overwritten == Pick(history[..|gone|], gone, false)
  }

  lemma PickCounts<T>(s: seq<T>, flags: seq<bool>)
    requires |s| == |flags|
    ensures |Pick(s, flags, true)| + |Pick(s, flags, false)| == |s|
  {
    if s != [] {
      PickCounts(s[..|s| - 1], flags[..|s| - 1]);
    }
  }

  /** One more event leaves the log. */
  lemma SplitsOne(history: seq<Event>, log: Log, gone: seq<bool>, wasRead: bool)
    requires Splits(history, log, gone)
    requires log.queue != []
    ensures var q := log.queue;
            Splits(history,
                   if wasRead then log.(queue := q[1..], read := log.read + [q[0]])
                   else log.(queue := q[1..], overwritten := log.overwritten + [q[0]]),
                   gone + [wasRead])
  {
    var n := |gone|;
    assert history[..n + 1][..n] == history[..n];
    assert (gone + [wasRead])[..n] == gone;
  }

  lemma {:induction false} HistorySplitsFor(capacity: nat, ops: seq<Op>) returns (gone: seq<bool>)
    ensures Splits(Emitted(ops), Run(capacity, ops), gone)
  {
    if ops == [] {
      gone := [];
    } else {
      var before := ops[..|ops| - 1];
      var log := Run(capacity, before);
      var history := Emitted(before);
      gone := HistorySplitsFor(capacity, before);
      match ops[|ops| - 1]
      case TakeOp =>
        if log.queue != [] {
          SplitsOne(history, log, gone, true);
          gone := gone + [true];
        }
      case EmitOp(e) =>
        QueueBounded(capacity, before);
        var grown := log.(queue := log.queue + [e]);
        assert Splits(history + [e], grown, gone) by {
          assert (history + [e])[..|gone|] == history[..|gone|];
          assert (history + [e])[|gone|..] == history[|gone|..] + [e];
        }
        assert Emitted(ops) == history + [e];
        if |grown.queue| > capacity {
          SplitsOne(history + [e], grown, gone, false);
          gone := gone + [false];
        }
    }
  }

  /** Log loss theorem.  In every run the emitted history splits into read,
      overwritten and retained events; reads come out in emission order, what
      left is older than what stayed, and no more than `capacity` events stay. */
  lemma HistorySplits(capacity: nat, ops: seq<Op>)
    ensures var log := Run(capacity, ops);
            && (exists gone :: Splits(Emitted(ops), log, gone))
            && |log.read| + |log.overwritten| + |log.queue| == |Emitted(ops)|
            && |log.queue| <= capacity
            && log.capacity == capacity
  {
    var gone := HistorySplitsFor(capacity, ops);
    PickCounts(Emitted(ops)[..|gone|], gone);
    QueueBounded(capacity, ops);
  }

  lemma {:induction false} QueueBounded(capacity: nat, ops: seq<Op>)
    ensures |Run(capacity, ops).queue| <= capacity && Run(capacity, ops).capacity == capacity
  {
    if ops != [] {
      QueueBounded(capacity, ops[..|ops| - 1]);
    }
  }

  ghost predicate NeverOverfull(capacity: nat, ops: seq<Op>) {
    forall n :: 0 <= n <= |ops| ==> |Outstanding(ops[..n])| <= capacity
  }

  /** Once an event was overwritten it stays on the record. */
  lemma {:induction false} LossIsForever(capacity: nat, ops: seq<Op>, n: nat)
    requires n <= |ops|
    ensures |Run(capacity, ops[..n]).overwritten| <= |Run(capacity, ops).overwritten|
  {
    if n == |ops| {
      assert ops[..n] == ops;
    } else {
      assert ops[..|ops| - 1][..n] == ops[..n];
      LossIsForever(capacity, ops[..|ops| - 1], n);
    }
  }

  lemma {:induction false} LosslessStep(capacity: nat, ops: seq<Op>)
    requires NeverOverfull(capacity, ops)
    ensures var log := Run(capacity, ops);
            log.overwritten == [] && log.queue == Outstanding(ops) && log.read == Delivered(ops)
  {
    if ops != [] {
      var before := ops[..|ops| - 1];
      assert forall n {:trigger before[..n]} :: 0 <= n <= |before| ==> before[..n] == ops[..n];
      LosslessStep(capacity, before);
      QueueBounded(capacity, before);
      assert ops[..|ops|] == ops;
    }
  }

  /** Nothing is ever overwritten exactly when the reader keeps up: at no
      moment are more than `capacity` events outstanding.  The reader then
      receives what an unbounded FIFO would deliver. */
  lemma {:induction false} LosslessIff(capacity: nat, ops: seq<Op>)
    ensures Run(capacity, ops).overwritten == [] <==> NeverOverfull(capacity, ops)
    ensures NeverOverfull(capacity, ops) ==> Run(capacity, ops).read == Delivered(ops)
  {
    if NeverOverfull(capacity, ops) {
      LosslessStep(capacity, ops);
    } else {
      // the first moment at which too much is outstanding
      var n :| 0 <= n <= |ops| && |Outstanding(ops[..n])| > capacity;
      while n > 0 && |Outstanding(ops[..n - 1])| > capacity
        invariant 0 <= n <= |ops| && |Outstanding(ops[..n])| > capacity
      {
        n := n - 1;
      }
      OverflowLoses(capacity, ops[..n]);
      LossIsForever(capacity, ops, n);
    }
  }

  lemma {:induction false} OverflowLoses(capacity: nat, ops: seq<Op>)
    requires |Outstanding(ops)| > capacity
    ensures Run(capacity, ops).overwritten != []
    decreases |ops|
  {
    var before := ops[..|ops| - 1];
    if |Outstanding(before)| > capacity {
      OverflowLoses(capacity, before);
    } else if NeverOverfull(capacity, before) {
      LosslessStep(capacity, before);
      QueueBounded(capacity, before);
    } else {
      var n :| 0 <= n <= |before| && |Outstanding(before[..n])| > capacity;
      OverflowLoses(capacity, before[..n]);
      LossIsForever(capacity, before, n);
      LossIsForever(capacity, ops, |ops| - 1);
    }
  }

  // ----- the ring -----

  /** LOG_INC on a u32. */
  function LogInc(value: nat, max: nat): (r: nat)
    ensures value < max < U32 ==> r == (if value + 1 == max then 0 else value + 1)
  {
    var v := (value + 1) % U32;
    if v >= max then 0 else v
  }

  /** What sits between `get` and `put`, oldest first. */
  function Retained(ring: seq<Event>, get: nat, put: nat): seq<Event>
    requires get < |ring| && put < |ring|
  {
    if get <= put then ring[get..put] else ring[get..] + ring[..put]
  }

  lemma RetainedDrop(ring: seq<Event>, get: nat, put: nat)
    requires get < |ring| < U32 && put < |ring| && get != put
    ensures Retained(ring, get, put) != []
    ensures Retained(ring, get, put)[0] == ring[get]
    ensures Retained(ring, LogInc(get, |ring|), put) == Retained(ring, get, put)[1..]
  {
    if get < put {
      assert ring[get..put][1..] == ring[get + 1..put];
    } else if get + 1 < |ring| {
      assert (ring[get..] + ring[..put])[1..] == ring[get + 1..] + ring[..put];
    } else {
      assert ring[get..] == [ring[get]];
    }
  }

  lemma RetainedPush(ring: seq<Event>, get: nat, put: nat, e: Event)
    requires get < |ring| < U32 && put < |ring| && LogInc(put, |ring|) != get
    ensures Retained(ring[put := e], get, LogInc(put, |ring|)) == Retained(ring, get, put) + [e]
  {
  }

  /** The ring's index arithmetic does to the retained events what the bounded
      queue does: a full ring first gives up its oldest event. */
  lemma RingEmit(ring: seq<Event>, get: nat, put: nat, e: Event, log: Log)
    requires get < |ring| < U32 && put < |ring|
    requires log.capacity == |ring| - 1 && log.queue == Retained(ring, get, put)
    ensures LogInc(put, |ring|) == get <==> |log.queue| == log.capacity
    ensures var get' := if LogInc(put, |ring|) == get then LogInc(get, |ring|) else get;
            Retained(ring[put := e], get', LogInc(put, |ring|)) == Emit(log, e).queue
  {
    var put' := LogInc(put, |ring|);
    if |ring| == 1 {
    } else if put' == get {
      RetainedDrop(ring, get, put);
      RetainedPush(ring, LogInc(get, |ring|), put, e);
    } else {
      RetainedPush(ring, get, put, e);
    }
  }

  class LogBuffer {
    var events: array?<Event>
    var entries: nat
    var get: nat
    var put: nat
    var tsOffset: int
    ghost var log: Log

    /** The state after nvs_memset(logger, 0, sizeof(*logger)). */
    constructor Zeroed()
      ensures events == null && entries == get == put == 0 && tsOffset == 0
    {
      events, entries, get, put, tsOffset := null, 0, 0, 0, 0;
      log := EmptyLog(0);
    }

    ghost predicate Valid()
      reads this, events
    {
      && events != null
      && 1 <= entries < U32
      && events.Length == entries
      && get < entries && put < entries
      && log.capacity == entries - 1
      && log.queue == Retained(events[..], get, put)
    }

    method Full() returns (full: bool)
      requires Valid()
      ensures full <==> |log.queue| == log.capacity
    {
      RingEmit(events[..], get, put, events[put], log);
      var updatedPut := LogInc(put, entries);
      full := updatedPut == get;
    }

    /** nvs_log_event: the new event goes in, and the oldest one goes when the
        ring is full. */
    method LogEvent(kind: EventKind, data: nat, now: int)
      requires Valid()
      modifies this, events
      ensures Valid() && events == old(events) && entries == old(entries) && tsOffset == old(tsOffset)
      ensures log == Emit(old(log), Event(Stamp(now, tsOffset), data, kind))
    {
      ghost var e := Event(Stamp(now, tsOffset), data, kind);
      ghost var ring := events[..];
      RingEmit(ring, get, put, e, log);
      var full := Full();
      if full {
        get := LogInc(get, entries);
      }
      events[put] := Event(Stamp(now, tsOffset), data, kind);
      assert events[..] == ring[put := e];
      put := LogInc(put, entries);
      log := Emit(log, e);
    }

    /** nvs_log_get: the caller's event is overwritten with the oldest one, or
        only its kind is set to NoEvent when there is none. */
    method LogGet(ev: Event) returns (r: Event)
      requires Valid()
      modifies this
      ensures Valid() && events == old(events) && entries == old(entries) && tsOffset == old(tsOffset)
      ensures log == Take(old(log))
      ensures r == if old(log.queue) == [] then ev.(kind := NoEvent) else old(log.queue)[0]
    {
      if get == put {
        r := ev.(kind := NoEvent);
        return;
      }
      RetainedDrop(events[..], get, put);
      r := events[get];
      get := LogInc(get, entries);
      log := Take(log);
    }
  }
}
