/** The store against the reference over whole runs, with expiry at work anywhere in between. */
module Refinement {
  import opened Bytes
  import opened Shards
  import opened Expiry
  import opened References

  /** One atomic step of the store, at a reading of the wall clock. A read and the reap it asks
      for are two steps: anything may happen in between. */
  datatype Event =
    | Call(op: Op, now: nat)
    | Reap(key: Bytes, at: nat, now: nat)
    | Reclaim(gone: set<Bytes>, now: nat)

  function StoreAfter(m: map<Bytes, Cell>, e: Event): (r: map<Bytes, Cell>) {
    match e
    case Call(op, now) =>
      if op.Get? || op.Exists? || op.TTL? then m else RefAfter(m, op, now)
    case Reap(k, at, _) => if k in m && m[k].Expired(at) then m - {k} else m
    case Reclaim(gone, _) => m - gone
  }

  /** What the locks and the clock allow: a reap uses a reading taken earlier, and a sweep, a
      purge or a wheel timer only takes keys that are already dead. */
  ghost predicate Allowed(m: map<Bytes, Cell>, e: Event, clock: nat) {
    && clock <= e.now
    && (e.Reap? ==> e.at <= e.now)
    && (e.Reclaim? ==> e.gone <= Dead(m, e.now))
  }

  ghost predicate Runs(m: map<Bytes, Cell>, events: seq<Event>, clock: nat)
    decreases |events|
  {
    events == [] || (Allowed(m, events[0], clock) && Runs(StoreAfter(m, events[0]), events[1..], events[0].now))
  }

  /** The answers the store gives in a run. */
  function Replies(m: map<Bytes, Cell>, events: seq<Event>): (r: seq<Reply>)
    decreases |events|
  {
    if events == [] then [] else
      (if events[0].Call? then [RefReply(m, events[0].op, events[0].now)] else []) +
      Replies(StoreAfter(m, events[0]), events[1..])
  }

  /** The answers of the reference to the same requests; it has no background work. */
  function RefReplies(m: map<Bytes, Cell>, events: seq<Event>): (r: seq<Reply>)
    decreases |events|
  {
    if events == [] then []
    else if !events[0].Call? then RefReplies(m, events[1..])
    else [RefReply(m, events[0].op, events[0].now)] +
         RefReplies(RefAfter(m, events[0].op, events[0].now), events[1..])
  }

  lemma LiveHas(m: map<Bytes, Cell>, now: nat, k: Bytes)
    ensures k in Live(m, now) <==> k in m && !m[k].Expired(now)
    ensures k in Live(m, now) ==> Live(m, now)[k] == m[k]
  {
  }

  /** The clock only moves forward, so what looks alike now looks alike later. */
  lemma SameLater(a: map<Bytes, Cell>, b: map<Bytes, Cell>, early: nat, late: nat)
    requires early <= late && Live(a, early) == Live(b, early)
    ensures Live(a, late) == Live(b, late)
  {
    forall k ensures k in Live(a, late) <==> k in Live(b, late) {
      LiveHas(a, early, k);
      LiveHas(b, early, k);
    }
    forall k | k in Live(a, late) ensures Live(a, late)[k] == Live(b, late)[k] {
      LiveHas(a, early, k);
      LiveHas(b, early, k);
    }
  }

  lemma SameReply(a: map<Bytes, Cell>, b: map<Bytes, Cell>, op: Op, now: nat)
    requires Live(a, now) == Live(b, now)
    ensures RefReply(a, op, now) == RefReply(b, op, now)
  {
    LiveHas(a, now, op.key);
    LiveHas(b, now, op.key);
  }

  lemma LivePut(m: map<Bytes, Cell>, now: nat, k: Bytes, c: Cell)
    ensures Live(m[k := c], now) == if c.Expired(now) then Live(m, now) - {k} else Live(m, now)[k := c]
  {
  }

  lemma LiveMinus(m: map<Bytes, Cell>, now: nat, gone: set<Bytes>)
    ensures Live(m - gone, now) == Live(m, now) - gone
    ensures gone <= Dead(m, now) ==> Live(m - gone, now) == Live(m, now)
  {
  }

  /** What a request does to the visible keyspace depends on the visible keyspace alone. */
  lemma SameAfter(a: map<Bytes, Cell>, b: map<Bytes, Cell>, op: Op, now: nat)
    requires Live(a, now) == Live(b, now)
    ensures Live(RefAfter(a, op, now), now) == Live(RefAfter(b, op, now), now)
  {
    hide Live;
    var k := op.key;
    LiveHas(a, now, k);
    LiveHas(b, now, k);
    LiveMinus(a, now, {k});
    LiveMinus(b, now, {k});
    if op.Set? {
      LivePut(a, now, k, Cell(op.value, op.expireAt));
      LivePut(b, now, k, Cell(op.value, op.expireAt));
    } else if op.Expire? && k in Live(a, now) {
      LivePut(a, now, k, Cell(a[k].value, op.expireAt));
      LivePut(b, now, k, Cell(b[k].value, op.expireAt));
    }
  }

  /** Reads and background work are invisible. */
  lemma Invisible(m: map<Bytes, Cell>, e: Event, clock: nat)
    requires Allowed(m, e, clock)
    ensures e.Call? ==> Live(StoreAfter(m, e), e.now) == Live(RefAfter(m, e.op, e.now), e.now)
    ensures !e.Call? ==> Live(StoreAfter(m, e), e.now) == Live(m, e.now)
  {
    match e
    case Call(op, now) => {
      if op.key !in m || m[op.key].Expired(now) {
        LiveMinus(m, now, {op.key});
        MinusAll(m, op.key);
      }
    }
    case Reap(k, at, now) => LiveMinus(m, now, {k});
    case Reclaim(gone, now) => LiveMinus(m, now, gone);
  }

  /** For every run, whatever sweeps, purges, timers and late reaps are interleaved, the store
      answers exactly as the reference does. */
  lemma {:induction false} StoreRefinesReference(m: map<Bytes, Cell>, ref: map<Bytes, Cell>, events: seq<Event>,
                                                 clock: nat)
    requires Live(m, clock) == Live(ref, clock) && Runs(m, events, clock)
    ensures Replies(m, events) == RefReplies(ref, events)
    decreases |events|
  {
    if events != [] {
      hide Live, RefReply, RefAfter, StoreAfter;
      var e := events[0];
      SameLater(m, ref, clock, e.now);
      Invisible(m, e, clock);
      if e.Call? {
        SameReply(m, ref, e.op, e.now);
        SameAfter(m, ref, e.op, e.now);
        StoreRefinesReference(StoreAfter(m, e), RefAfter(ref, e.op, e.now), events[1..], e.now);
      } else {
        StoreRefinesReference(StoreAfter(m, e), ref, events[1..], e.now);
      }
    }
  }

  /** Run one after the other, a read and its reap do what the reference does in one go. */
  lemma ReadThenReap(m: map<Bytes, Cell>, op: Op, now: nat)
    requires op.Get? || op.Exists? || op.TTL?
    ensures StoreAfter(StoreAfter(m, Call(op, now)), Reap(op.key, now, now)) == RefAfter(m, op, now)
  {
    MinusAll(m, op.key);
  }
}
