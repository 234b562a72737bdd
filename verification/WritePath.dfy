/** The write path: many calls at once, each taking a backpressure slot, then its shard's lock,
    applying to memory and queueing its log record under that lock, and waiting outside it. */
module WritePath {
  import opened Bytes
  import opened Shards
  import opened References

  /** Where a call is. A number is the position of its record in the log. */
  datatype Pc = New | Gated | Locked | Applied | Queued(lsn: nat) | Waiting(lsn: nat) | Done(lsn: nat) | Refused {
    predicate HoldsSlot() {
      Gated? || HoldsLock() || Waiting?
    }

    predicate HoldsLock() {
      Locked? || Applied? || Queued?
    }

    predicate Logged() {
      Queued? || Waiting? || Done?
    }
  }

  /** One call of mutate: what it writes and the clock reading it writes by. */
  datatype Call = Call(op: Op, at: nat, pc: Pc)

  datatype Record = Record(op: Op, at: nat, call: nat)

  type Keyspace = map<Bytes, Cell>

  /** `taken` records have left the queue, `durable` of them are on disk. */
  datatype State = State(calls: map<nat, Call>, owner: map<nat, nat>, mem: map<nat, Keyspace>,
                         log: seq<Record>, taken: nat, durable: nat) {
    function Mem(s: nat): (r: Keyspace) {
      if s in mem then mem[s] else map[]
    }

    function Queue(): (r: int) {
      |log| - taken
    }

    ghost function Inside(): (r: set<nat>) {
      set c | c in calls && calls[c].pc.HoldsSlot()
    }

    function At(c: nat, pc: Pc): (r: State)
      requires c in calls
    {
      this.(calls := calls[c := calls[c].(pc := pc)])
    }
  }

  /** `limited` says whether a memory limit may refuse writes. */
  datatype Config = Config(shardOf: Bytes -> nat, gate: nat, depth: nat, limited: bool)

  datatype Step =
    | Arrive(call: nat, op: Op)
    | Enter(call: nat)
    | Lock(call: nat, at: nat)
    | Apply(call: nat)
    | Refuse(call: nat, left: Keyspace)
    | Submit(call: nat)
    | Unlock(call: nat)
    | Take(n: nat)
    | Sync(n: nat)
    | Finish(call: nat)

  ghost predicate Is(st: State, c: nat, pc: Pc) {
    c in st.calls && st.calls[c].pc == pc
  }

  function Shard(cf: Config, st: State, c: nat): (r: nat)
    requires c in st.calls
  {
    cf.shardOf(st.calls[c].op.key)
  }

  ghost predicate Enabled(cf: Config, st: State, s: Step) {
    match s
    case Arrive(c, op) => c !in st.calls
    case Enter(c) => Is(st, c, New) && |st.Inside()| < cf.gate
    case Lock(c, at) => Is(st, c, Gated) && Shard(cf, st, c) !in st.owner
    case Apply(c) => Is(st, c, Locked)
    case Refuse(c, left) => Is(st, c, Locked) && cf.limited
    case Submit(c) => Is(st, c, Applied) && st.Queue() < cf.depth
    case Unlock(c) => c in st.calls && st.calls[c].pc.Queued?
    case Take(n) => st.taken + n <= |st.log|
    case Sync(n) => st.durable <= n <= st.taken
    case Finish(c) => c in st.calls && st.calls[c].pc.Waiting? && st.calls[c].pc.lsn < st.durable
  }

  ghost function After(cf: Config, st: State, s: Step): (r: State)
    requires Enabled(cf, st, s)
  {
    match s
    case Arrive(c, op) => st.(calls := st.calls[c := Call(op, 0, New)])
    case Enter(c) => st.At(c, Gated)
    case Lock(c, at) =>
      st.(calls := st.calls[c := Call(st.calls[c].op, at, Locked)], owner := st.owner[Shard(cf, st, c) := c])
    case Apply(c) =>
      var sh := Shard(cf, st, c);
      st.At(c, Applied).(mem := st.mem[sh := RefAfter(st.Mem(sh), st.calls[c].op, st.calls[c].at)])
    case Refuse(c, left) =>
      var sh := Shard(cf, st, c);
      st.At(c, Refused).(mem := st.mem[sh := left], owner := st.owner - {sh})
    case Submit(c) =>
      st.At(c, Queued(|st.log|)).(log := st.log + [Record(st.calls[c].op, st.calls[c].at, c)])
    case Unlock(c) => st.At(c, Waiting(st.calls[c].pc.lsn)).(owner := st.owner - {Shard(cf, st, c)})
    case Take(n) => st.(taken := st.taken + n)
    case Sync(n) => st.(durable := n)
    case Finish(c) => st.At(c, Done(st.calls[c].pc.lsn))
  }

  const START := State(map[], map[], map[], [], 0, 0)

  /** The shard's memory as the log alone would make it, record by record. */
  ghost function Fold(cf: Config, log: seq<Record>, s: nat): (r: Keyspace) {
    if log == [] then map[] else
      var r := log[|log| - 1];
      var m := Fold(cf, log[..|log| - 1], s);
      if cf.shardOf(r.op.key) == s then RefAfter(m, r.op, r.at) else m
  }

  /** The fold, and on top of it the one write that holds the lock and is not logged yet. */
  ghost function Expected(cf: Config, st: State, s: nat): (r: Keyspace) {
    var m := Fold(cf, st.log, s);
    if s in st.owner && st.owner[s] in st.calls && st.calls[st.owner[s]].pc.Applied?
    then RefAfter(m, st.calls[st.owner[s]].op, st.calls[st.owner[s]].at) else m
  }

  // The invariant

  ghost predicate Locks(cf: Config, st: State) {
    && (forall s :: s in st.owner ==>
      st.owner[s] in st.calls && st.calls[st.owner[s]].pc.HoldsLock() && Shard(cf, st, st.owner[s]) == s)
    && (forall c :: c in st.calls && st.calls[c].pc.HoldsLock() ==>
      Shard(cf, st, c) in st.owner && st.owner[Shard(cf, st, c)] == c)
  }

  ghost predicate Numbered(st: State) {
    && (forall i :: 0 <= i < |st.log| ==>
          st.log[i].call in st.calls && st.calls[st.log[i].call].pc.Logged() && st.calls[st.log[i].call].pc.lsn == i)
    && (forall c :: c in st.calls && st.calls[c].pc.Logged() ==>
          st.calls[c].pc.lsn < |st.log| && st.log[st.calls[c].pc.lsn] == Record(st.calls[c].op, st.calls[c].at, c))
  }

  ghost predicate Flow(cf: Config, st: State) {
    && st.durable <= st.taken <= |st.log|
    && (forall c :: c in st.calls && st.calls[c].pc.Done? ==> st.calls[c].pc.lsn < st.durable)
    && |st.Inside()| <= cf.gate
  }

  ghost predicate Agrees(cf: Config, st: State) {
    !cf.limited ==> forall s :: st.Mem(s) == Expected(cf, st, s)
  }

  ghost predicate Inv(cf: Config, st: State) {
    Locks(cf, st) && Numbered(st) && Flow(cf, st) && Agrees(cf, st)
  }

  lemma LocksTaken(cf: Config, st: State, s: Step)
    requires Locks(cf, st) && Enabled(cf, st, s) && s.Lock?
    ensures Locks(cf, After(cf, st, s))
  {
  }

  lemma LocksFreed(cf: Config, st: State, s: Step)
    requires Locks(cf, st) && Enabled(cf, st, s) && (s.Refuse? || s.Unlock?)
    ensures Locks(cf, After(cf, st, s))
  {
  }

  /** A call that keeps what it holds. */
  lemma LocksOn(cf: Config, st: State, c: nat, x: Call)
    requires Locks(cf, st)
    requires if c in st.calls then x.pc.HoldsLock() == st.calls[c].pc.HoldsLock() && x.op.key == st.calls[c].op.key
             else !x.pc.HoldsLock()
    ensures Locks(cf, st.(calls := st.calls[c := x]))
  {
  }

  lemma LocksSame(cf: Config, st: State, st': State)
    requires Locks(cf, st) && st'.calls == st.calls && st'.owner == st.owner
    ensures Locks(cf, st')
  {
  }

  lemma LocksKept(cf: Config, st: State, s: Step)
    requires Locks(cf, st) && Enabled(cf, st, s)
    ensures Locks(cf, After(cf, st, s))
  {
    hide Locks;
    match s {
      case Lock(c, at) => LocksTaken(cf, st, s);
      case Refuse(c, left) => LocksFreed(cf, st, s);
      case Unlock(c) => LocksFreed(cf, st, s);
      case Take(n) => LocksSame(cf, st, After(cf, st, s));
      case Sync(n) => LocksSame(cf, st, After(cf, st, s));
      case _ =>
        LocksOn(cf, st, s.call, After(cf, st, s).calls[s.call]);
        LocksSame(cf, st.(calls := After(cf, st, s).calls), After(cf, st, s));
    }
  }

  lemma NumberGiven(cf: Config, st: State, s: Step)
    requires Numbered(st) && Enabled(cf, st, s) && s.Submit?
    ensures Numbered(After(cf, st, s))
  {
  }

  /** A call that is not logged, before and after. */
  lemma NumberedUnlogged(st: State, c: nat, x: Call)
    requires Numbered(st) && !x.pc.Logged() && (c in st.calls ==> !st.calls[c].pc.Logged())
    ensures Numbered(st.(calls := st.calls[c := x]))
  {
  }

  /** A call that goes on with the number it has. */
  lemma NumberedOn(st: State, c: nat, pc: Pc)
    requires Numbered(st) && c in st.calls && st.calls[c].pc.Logged() && pc.Logged() && pc.lsn == st.calls[c].pc.lsn
    ensures Numbered(st.At(c, pc))
  {
  }

  lemma NumberedSame(st: State, st': State)
    requires Numbered(st) && st'.calls == st.calls && st'.log == st.log
    ensures Numbered(st')
  {
  }

  lemma NumberedKept(cf: Config, st: State, s: Step)
    requires Numbered(st) && Enabled(cf, st, s)
    ensures Numbered(After(cf, st, s))
  {
    hide Numbered;
    match s {
      case Submit(c) => NumberGiven(cf, st, s);
      case Take(n) => NumberedSame(st, After(cf, st, s));
      case Sync(n) => NumberedSame(st, After(cf, st, s));
      case Unlock(c) =>
        NumberedOn(st, c, Waiting(st.calls[c].pc.lsn));
        NumberedSame(st.At(c, Waiting(st.calls[c].pc.lsn)), After(cf, st, s));
      case Finish(c) => NumberedOn(st, c, Done(st.calls[c].pc.lsn));
      case _ =>
        NumberedUnlogged(st, s.call, After(cf, st, s).calls[s.call]);
        NumberedSame(st.(calls := After(cf, st, s).calls), After(cf, st, s));
    }
  }

  lemma InsideAfter(cf: Config, st: State, s: Step)
    requires Enabled(cf, st, s)
    ensures After(cf, st, s).Inside() ==
      if s.Enter? then st.Inside() + {s.call}
      else if s.Refuse? || s.Finish? then st.Inside() - {s.call}
      else st.Inside()
  {
  }

  lemma FlowKept(cf: Config, st: State, s: Step)
    requires Flow(cf, st) && Enabled(cf, st, s)
    ensures Flow(cf, After(cf, st, s))
  {
    hide State.Inside;
    InsideAfter(cf, st, s);
    if s.Refuse? || s.Finish? {
      Fewer(st.Inside(), s.call);
    }
  }

  lemma Fewer(a: set<nat>, c: nat)
    ensures |a - {c}| <= |a|
  {
    if c !in a {
      assert a - {c} == a;
    }
  }

  lemma FoldNext(cf: Config, log: seq<Record>, r: Record, s: nat)
    ensures Fold(cf, log + [r], s) ==
      if cf.shardOf(r.op.key) == s then RefAfter(Fold(cf, log, s), r.op, r.at) else Fold(cf, log, s)
  {
    assert (log + [r])[..|log|] == log;
  }

  lemma AgreesAt(cf: Config, st: State, s: Step, sh: nat)
    requires Locks(cf, st) && Enabled(cf, st, s) && !cf.limited && st.Mem(sh) == Expected(cf, st, sh)
    ensures After(cf, st, s).Mem(sh) == Expected(cf, After(cf, st, s), sh)
  {
    hide Fold, RefAfter;
    if s.Submit? {
      var c := st.calls[s.call];
      FoldNext(cf, st.log, Record(c.op, c.at, s.call), sh);
    }
  }

  lemma AgreesKept(cf: Config, st: State, s: Step)
    requires Locks(cf, st) && Agrees(cf, st) && Enabled(cf, st, s)
    ensures Agrees(cf, After(cf, st, s))
  {
    if !cf.limited {
      hide Expected, After, Locks;
      forall sh ensures After(cf, st, s).Mem(sh) == Expected(cf, After(cf, st, s), sh) {
        AgreesAt(cf, st, s, sh);
      }
    }
  }

  lemma StepKeeps(cf: Config, st: State, s: Step)
    requires Inv(cf, st) && Enabled(cf, st, s)
    ensures Inv(cf, After(cf, st, s))
  {
    hide Locks, Numbered, Flow, Agrees, After;
    LocksKept(cf, st, s);
    NumberedKept(cf, st, s);
    FlowKept(cf, st, s);
    AgreesKept(cf, st, s);
  }

  // Runs

  ghost predicate Run(cf: Config, st: State, steps: seq<Step>)
    decreases |steps|
  {
    steps == [] || (Enabled(cf, st, steps[0]) && Run(cf, After(cf, st, steps[0]), steps[1..]))
  }

  ghost function End(cf: Config, st: State, steps: seq<Step>): (r: State)
    requires Run(cf, st, steps)
    decreases |steps|
  {
    if steps == [] then st else End(cf, After(cf, st, steps[0]), steps[1..])
  }

  lemma {:induction false} RunKeeps(cf: Config, st: State, steps: seq<Step>)
    requires Inv(cf, st) && Run(cf, st, steps)
    ensures Inv(cf, End(cf, st, steps))
    decreases |steps|
  {
    if steps != [] {
      StepKeeps(cf, st, steps[0]);
      RunKeeps(cf, After(cf, st, steps[0]), steps[1..]);
    }
  }

  lemma StartIs(cf: Config)
    ensures Inv(cf, START)
  {
    assert START.Inside() == {};
  }

  /** In every reachable state each shard's memory is its log records applied in log order,
      plus at most the one write that still holds the shard's lock. */
  lemma MemoryIsLog(cf: Config, steps: seq<Step>, s: nat)
    requires !cf.limited && Run(cf, START, steps)
    ensures var st := End(cf, START, steps);
            var m := Fold(cf, st.log, s);
            st.Mem(s) == if s in st.owner && st.owner[s] in st.calls && st.calls[st.owner[s]].pc.Applied?
                         then RefAfter(m, st.calls[st.owner[s]].op, st.calls[st.owner[s]].at) else m
  {
    StartIs(cf);
    RunKeeps(cf, START, steps);
  }

  /** Refused writes take no number: log positions are dense, each belongs to one call that was
      let in, and a call that has returned success is on disk. */
  lemma NumbersAreDense(cf: Config, steps: seq<Step>)
    requires Run(cf, START, steps)
    ensures var st := End(cf, START, steps);
            && (forall i :: 0 <= i < |st.log| ==> st.log[i].call in st.calls && !st.calls[st.log[i].call].pc.Refused?)
            && (forall i, j :: 0 <= i < j < |st.log| ==> st.log[i].call != st.log[j].call)
            && (forall c :: c in st.calls && st.calls[c].pc.Done? ==>
                  st.calls[c].pc.lsn < st.durable <= |st.log| && st.log[st.calls[c].pc.lsn].op == st.calls[c].op)
  {
    StartIs(cf);
    RunKeeps(cf, START, steps);
  }

  // Backpressure

  /** The calls whose records are in the queue. */
  ghost function InQueue(log: seq<Record>, from: nat): (r: set<nat>) {
    set i | from <= i < |log| :: log[i].call
  }

  lemma {:induction false} InQueueSize(log: seq<Record>, from: nat)
    requires from <= |log| && forall i, j :: 0 <= i < j < |log| ==> log[i].call != log[j].call
    ensures |InQueue(log, from)| == |log| - from
    decreases |log| - from
  {
    if from < |log| {
      InQueueSize(log, from + 1);
      assert InQueue(log, from) == InQueue(log, from + 1) + {log[from].call};
      assert log[from].call !in InQueue(log, from + 1);
    }
  }

  /** Everything in the queue holds a slot, and so does a call about to submit. */
  lemma QueueIsGated(cf: Config, st: State)
    requires Inv(cf, st)
    ensures st.Queue() <= |st.Inside()| <= cf.gate
    ensures (exists c :: Is(st, c, Applied)) ==> st.Queue() < |st.Inside()|
  {
    InQueueSize(st.log, st.taken);
    var q := InQueue(st.log, st.taken);
    assert q <= st.Inside();
    Smaller(q, st.Inside());
    if c :| Is(st, c, Applied) {
      assert c in st.Inside() && c !in q;
      Smaller(q + {c}, st.Inside());
    }
  }

  lemma Smaller(a: set<nat>, b: set<nat>)
    requires a <= b
    ensures |a| <= |b|
  {
    assert b == a + (b - a);
  }

  /** A submit under the shard lock that would have to wait for room. */
  ghost predicate Stuck(cf: Config, st: State) {
    exists c :: Is(st, c, Applied) && !Enabled(cf, st, Submit(c))
  }

  lemma NeverStuck(cf: Config, steps: seq<Step>)
    requires Run(cf, START, steps) && cf.gate <= cf.depth
    ensures !Stuck(cf, End(cf, START, steps))
    ensures var st := End(cf, START, steps); st.Queue() <= |st.Inside()| <= cf.gate <= cf.depth
  {
    StartIs(cf);
    RunKeeps(cf, START, steps);
    QueueIsGated(cf, End(cf, START, steps));
  }

  // A queue shorter than the gate fills up

  ghost predicate Idle(st: State, n: nat) {
    st.owner == map[] && |st.log| == n && st.taken == 0 && |st.Inside()| == n && forall c :: c in st.calls ==> c < n
  }

  lemma {:induction false} Extend(cf: Config, st: State, steps: seq<Step>, s: Step)
    requires Run(cf, st, steps) && Enabled(cf, End(cf, st, steps), s)
    ensures Run(cf, st, steps + [s]) && End(cf, st, steps + [s]) == After(cf, End(cf, st, steps), s)
    decreases |steps|
  {
    if steps == [] {
      assert steps + [s] == [s] && [s][1..] == [];
    } else {
      assert (steps + [s])[1..] == steps[1..] + [s];
      Extend(cf, After(cf, st, steps[0]), steps[1..], s);
    }
  }

  ghost predicate Reaches(cf: Config, st: State) {
    exists steps :: Run(cf, START, steps) && End(cf, START, steps) == st
  }

  lemma Next(cf: Config, st: State, s: Step)
    requires Reaches(cf, st) && Enabled(cf, st, s)
    ensures Reaches(cf, After(cf, st, s))
  {
    var steps :| Run(cf, START, steps) && End(cf, START, steps) == st;
    Extend(cf, START, steps, s);
  }

  /** A call about to submit, behind n calls in the queue. */
  ghost predicate Ready(cf: Config, st: State, n: nat, op: Op) {
    && Is(st, n, Applied) && st.calls[n].op == op && st.owner == map[cf.shardOf(op.key) := n]
    && |st.log| == n && st.taken == 0 && |st.Inside()| == n + 1 && forall c :: c in st.calls ==> c < n + 1
  }

  lemma GetsGated(cf: Config, st: State, n: nat, op: Op) returns (e: State)
    requires Reaches(cf, st) && Idle(st, n) && n < cf.gate
    ensures Reaches(cf, e) && Is(e, n, Gated) && e.calls[n].op == op && e.owner == map[]
    ensures |e.log| == n && e.taken == 0 && |e.Inside()| == n + 1 && forall c :: c in e.calls ==> c < n + 1
  {
    hide State.Inside, Reaches, RefAfter;
    InsideAfter(cf, st, Arrive(n, op));
    Next(cf, st, Arrive(n, op));
    var a := After(cf, st, Arrive(n, op));
    InsideAfter(cf, a, Enter(n));
    Next(cf, a, Enter(n));
    NotYet(a, n);
    e := After(cf, a, Enter(n));
  }

  lemma GetsIn(cf: Config, st: State, n: nat, op: Op) returns (e: State)
    requires Reaches(cf, st) && Idle(st, n) && n < cf.gate
    ensures Reaches(cf, e) && Ready(cf, e, n, op)
  {
    hide State.Inside, Reaches, RefAfter, Idle;
    var b := GetsGated(cf, st, n, op);
    InsideAfter(cf, b, Lock(n, 0));
    Next(cf, b, Lock(n, 0));
    var c := After(cf, b, Lock(n, 0));
    InsideAfter(cf, c, Apply(n));
    Next(cf, c, Apply(n));
    e := After(cf, c, Apply(n));
  }

  lemma NotYet(st: State, c: nat)
    requires Is(st, c, New)
    ensures c !in st.Inside()
  {
  }

  lemma GetsOut(cf: Config, st: State, n: nat, op: Op) returns (e: State)
    requires Reaches(cf, st) && Ready(cf, st, n, op) && n < cf.depth
    ensures Reaches(cf, e) && Idle(e, n + 1)
  {
    hide State.Inside, Reaches;
    InsideAfter(cf, st, Submit(n));
    Next(cf, st, Submit(n));
    var a := After(cf, st, Submit(n));
    InsideAfter(cf, a, Unlock(n));
    Next(cf, a, Unlock(n));
    e := After(cf, a, Unlock(n));
  }

  lemma {:induction false} Fill(cf: Config, n: nat, op: Op) returns (st: State)
    requires n <= cf.depth && n <= cf.gate
    ensures Reaches(cf, st) && Idle(st, n)
  {
    if n == 0 {
      st := START;
      assert START.Inside() == {};
      assert Run(cf, START, []) && End(cf, START, []) == START;
    } else {
      var before := Fill(cf, n - 1, op);
      var inn := GetsIn(cf, before, n - 1, op);
      st := GetsOut(cf, inn, n - 1, op);
    }
  }

  ghost predicate FindsRoom(cf: Config, steps: seq<Step>) {
    Run(cf, START, steps) ==> !Stuck(cf, End(cf, START, steps))
  }

  /** With the engine's gate, half the queue's depth but at least 64, a submit under a shard lock always
      finds room if and only if the queue is at least 64 deep. */
  lemma RoomIff(cf: Config, op: Op)
    requires cf.gate == if cf.depth / 2 > 64 then cf.depth / 2 else 64
    ensures (forall steps :: FindsRoom(cf, steps)) <==> cf.depth >= 64
  {
    if cf.depth >= 64 {
      forall steps ensures FindsRoom(cf, steps) {
        if Run(cf, START, steps) {
          NeverStuck(cf, steps);
        }
      }
    } else {
      var full := Fill(cf, cf.depth, op);
      var st := GetsIn(cf, full, cf.depth, op);
      var steps :| Run(cf, START, steps) && End(cf, START, steps) == st;
      assert Is(st, cf.depth, Applied) && Stuck(cf, End(cf, START, steps));
      assert !FindsRoom(cf, steps);
    }
  }
}
