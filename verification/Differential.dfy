/** The sharded store and the reference side by side: the same requests to both, background work
    on the store alone, and the answers compared. */
module Differential {
  import opened Bytes
  import opened Shards
  import opened Expiry
  import opened References
  import opened Stores
  import opened Refinement

  /** What may happen next, each at a reading of the wall clock. A `Half` is the locked half of a
      read without its reap; the reap may come later, or never. A purge, a sweep cycle and a tick of
      the wheel let requests in between their batches, rounds and timers: `Batch`, `Round` and `Fire`
      are one of these alone, by a reading `at` taken earlier. */
  datatype Action =
    | Whole(op: Op, now: nat)
    | Half(op: Op, now: nat)
    | Late(key: Bytes, at: nat, now: nat)
    | Purge(now: nat)
    | Cycle(clock: nat -> nat, stop: nat -> bool, sample: nat, threshold: real, rng: nat -> nat -> nat, now: nat)
    | Timers(due: seq<(Bytes, nat)>, now: nat)
    | Batch(shard: nat, at: nat, now: nat)
    | Round(shard: nat, at: nat, sample: nat, draw: nat -> nat, now: nat)
    | Fire(key: Bytes, deadline: nat, at: nat, now: nat)

  predicate Reads(op: Op) {
    op.Get? || op.Exists? || op.TTL?
  }

  /** A reap and the parts of background work use an earlier reading, a sweep cycle is over by `now`,
      and what is set can be accounted. */
  ghost predicate Sensible(a: Action) {
    match a
    case Whole(op, now) => op.Set? ==> Cost(|op.key|, |op.value|) < U32
    case Half(op, now) => Reads(op)
    case Late(key, at, now) => at <= now
    case Purge(now) => true
    case Cycle(clock, stop, sample, threshold, rng, now) =>
      threshold > 0.0 && Monotone(clock) && forall i :: clock(i) <= now
    case Timers(due, now) => true
    case Batch(shard, at, now) => at <= now
    case Round(shard, at, sample, draw, now) => at <= now
    case Fire(key, deadline, at, now) => at <= now
  }

  /** The clock does not run backwards. */
  ghost predicate Schedule(actions: seq<Action>, from: nat) {
    && (forall i :: 0 <= i < |actions| ==> Sensible(actions[i]) && from <= actions[i].now)
    && (forall i, j :: 0 <= i < j < |actions| ==> actions[i].now <= actions[j].now)
  }

  /** One whole request to the store. */
  method Serve(st: Store, op: Op, now: nat) returns (r: Reply)
    requires st.Valid() && st.maxMemory <= 0 && (op.Set? ==> Cost(|op.key|, |op.value|) < U32)
    modifies st, st.shards, st.Entries()
    ensures st.Valid() && (forall e :: e in st.Entries() ==> e in old(st.Entries()) || fresh(e))
    ensures r == RefReply(old(st.view), op, now) && st.view == RefAfter(old(st.view), op, now)
  {
    hide Store.Apart, Holds, Slice;
    match op {
      case Get(k) =>
        var v, ok := st.Get(k, now, 0);
        r := Value(v, ok);
      case Set(k, v, d) =>
        Unlimited(st, st.view[k := Cell(v, d)]);
        var ok, _ := st.Set(k, v, d, 0, _ => _ => 0);
        r := Stored;
      case Delete(k) =>
        var ok := st.Delete(k, now);
        r := Flag(ok);
      case Exists(k) =>
        var ok := st.Exists(k, now, 0);
        r := Flag(ok);
      case Expire(k, d) =>
        var ok := st.Expire(k, d, now);
        r := Flag(ok);
      case TTL(k) =>
        var ms, ok := st.TTL(k, now, 0);
        r := Remaining(ms, ok);
    }
  }

  /** The locked half of a read, answered. */
  method ServeHalf(st: Store, op: Op, now: nat) returns (r: Reply)
    requires st.Valid() && Reads(op)
    modifies st, st.shards, st.Entries()
    ensures st.Valid() && st.Entries() <= old(st.Entries())
    ensures r == RefReply(old(st.view), op, now) && st.view == old(st.view)
  {
    hide Store.Valid, Store.Entries;
    var c, ok, _ := st.Peek(op.key, now, 0);
    match op {
      case Get(_) => r := Value(c.value, ok);
      case TTL(_) => r := Remaining(if ok then Left(c, now) else 0, ok);
      case _ => r := Flag(ok);
    }
  }

  /** Background work: dead keys may go, and nothing else. */
  method Background(st: Store, a: Action)
    requires st.Valid() && Sensible(a) && !a.Whole? && !a.Half?
    modifies st, st.shards, st.Entries()
    ensures st.Valid() && st.Entries() <= old(st.Entries())
    ensures Live(st.view, a.now) == Live(old(st.view), a.now)
  {
    hide Store.Valid, Store.Entries, Live, Dead;
    if a.Batch? || a.Round? || a.Fire? {
      Piece(st, a);
      return;
    }
    match a {
      case Late(key, at, now) =>
        var ok := st.LateReap(key, at);
        OneDead(old(st.view), key, at, now);
      case Purge(now) =>
        var _ := st.PurgeExpired(now);
        LiveTwice(old(st.view), now);
      case Cycle(clock, stop, sample, threshold, rng, now) =>
        var t, gone := st.RunCycle(clock, stop, sample, threshold, rng);
        DeadLater(old(st.view), clock(t.round), now);
        LiveMinus(old(st.view), now, gone);
      case Timers(due, now) =>
        var _, gone := st.RunOnce(due, now);
        LiveMinus(old(st.view), now, gone);
    }
  }

  /** One batch, round or timer of it. */
  method Piece(st: Store, a: Action)
    requires st.Valid() && Sensible(a) && (a.Batch? || a.Round? || a.Fire?)
    modifies st, st.shards, st.Entries()
    ensures st.Valid() && st.Entries() <= old(st.Entries())
    ensures Live(st.view, a.now) == Live(old(st.view), a.now)
  {
    hide Store.Valid, Store.Entries, Live, Dead;
    DeadLater(st.view, a.at, a.now);
    if a.Fire? {
      var removed := st.FireTimer(a.key, a.deadline, a.at);
      OneDead(old(st.view), a.key, a.at, a.now);
    } else if a.shard < |st.shards| {
      if a.Batch? {
        var _, gone := st.PurgeRound(a.shard, a.at);
        LiveMinus(old(st.view), a.now, gone);
      } else {
        var _, _, gone := st.SweepRound(a.shard, a.at, a.sample, a.draw);
        LiveMinus(old(st.view), a.now, gone);
      }
    }
  }

  lemma OneDead(m: map<Bytes, Cell>, k: Bytes, at: nat, now: nat)
    requires at <= now
    ensures k in m && m[k].Expired(at) ==> Live(m - {k}, now) == Live(m, now)
  {
    if k in m && m[k].Expired(at) {
      LiveMinus(m, now, {k});
    }
  }

  lemma LiveTwice(m: map<Bytes, Cell>, now: nat)
    ensures Live(Live(m, now), now) == Live(m, now)
  {
    LiveMinus(m, now, Dead(m, now));
  }

  /** One action on both; a request gives one answer from each. */
  method Step(st: Store, ref: Reference, a: Action, ghost from: nat) returns (got: seq<Reply>, want: seq<Reply>)
    requires st.Valid() && st.maxMemory <= 0 && Sensible(a) && from <= a.now
    requires Live(st.view, from) == Live(ref.data, from)
    modifies st, st.shards, st.Entries(), ref
    ensures st.Valid() && (forall e :: e in st.Entries() ==> e in old(st.Entries()) || fresh(e))
    ensures Live(st.view, a.now) == Live(ref.data, a.now) && got == want
    ensures want == Answers(old(ref.data), a) && ref.data == Next(old(ref.data), a)
  {
    hide Store.Valid, Live, RefReply, RefAfter;
    ghost var m, n := st.view, ref.data;
    SameLater(m, n, from, a.now);
    if a.Whole? || a.Half? {
      var theirs := ref.Do(a.op, a.now);
      SameReply(m, n, a.op, a.now);
      var ours;
      if a.Whole? {
        ours := Serve(st, a.op, a.now);
        SameAfter(m, n, a.op, a.now);
      } else {
        ours := ServeHalf(st, a.op, a.now);
        Invisible(n, Call(a.op, a.now), a.now);
      }
      got, want := [ours], [theirs];
    } else {
      Background(st, a);
      got, want := [], [];
    }
  }

  /** The answers of the naive store to the requests among the actions. */
  ghost function Expected(m: map<Bytes, Cell>, actions: seq<Action>): (r: seq<Reply>)
    decreases |actions|
  {
    if actions == [] then [] else Answers(m, actions[0]) + Expected(Next(m, actions[0]), actions[1..])
  }

  ghost function Answers(m: map<Bytes, Cell>, a: Action): (r: seq<Reply>) {
    if a.Whole? || a.Half? then [RefReply(m, a.op, a.now)] else []
  }

  ghost function Next(m: map<Bytes, Cell>, a: Action): (r: map<Bytes, Cell>) {
    if a.Whole? || a.Half? then RefAfter(m, a.op, a.now) else m
  }

  /** For every schedule of requests, halves of reads, late reaps, purges, sweep cycles and wheel
      timers, whole or in pieces, the store gives the answers the reference gives. */
  method Drive(st: Store, ref: Reference, actions: seq<Action>, ghost from: nat)
    returns (got: seq<Reply>, want: seq<Reply>)
    requires st.Valid() && st.maxMemory <= 0 && Live(st.view, from) == Live(ref.data, from)
    requires Schedule(actions, from)
    modifies st, st.shards, st.Entries(), ref
    ensures st.Valid() && got == want == Expected(old(ref.data), actions)
  {
    hide Store.Valid, Live, Answers, Next;
    got, want := [], [];
    ghost var now := from;
    assert actions[0..] == actions;
    for i := 0 to |actions|
      invariant st.Valid() && (forall e :: e in st.Entries() ==> e in old(st.Entries()) || fresh(e))
      invariant Live(st.view, now) == Live(ref.data, now) && got == want
      invariant now == if i == 0 then from else actions[i - 1].now
      invariant want + Expected(ref.data, actions[i..]) == Expected(old(ref.data), actions)
    {
      assert actions[i..][0] == actions[i] && actions[i..][1..] == actions[i + 1..];
      ghost var m, x := ref.data, want;
      var g, w := Step(st, ref, actions[i], now);
      ghost var rest := Expected(Next(m, actions[i]), actions[i + 1..]);
      assert x + (w + rest) == (x + w) + rest;
      got, want, now := got + g, want + w, actions[i].now;
    }
    assert actions[|actions|..] == [] && want + [] == want;
  }
}
