/** The writer goroutine's code path (internal/wal/writer.go): Submit, the
    accumulation loop of run, flushBatch and rotate, as methods on the writer's
    fields. Every method is a run of the step system, so a crash between any two of
    its statements is a crash the durability theorem covers. */
module GroupCommit {
  import opened Bytes
  import opened WalRecord
  import opened WalScan
  import opened WalReplay
  import opened WalWriter

  lemma {:induction false} RunSnoc(c: Config, s: State, events: seq<Event>, e: Event)
    requires Run(c, s, events) && e != Fail(Recover)
    requires Enabled(c, After(c, s, events), e)
    ensures Run(c, s, events + [e]) && After(c, s, events + [e]) == Apply(c, After(c, s, events), e)
    decreases |events|
  {
    hide Enabled, Apply, SafeRecovery;
    if events == [] {
      assert [e][1..] == [] && events + [e] == [e];
    } else {
      RunSnoc(c, Apply(c, s, events[0]), events[1..], e);
      assert (events + [e])[1..] == events[1..] + [e];
    }
  }

  lemma Gathers(c: Config, s: State, e: GatherStep)
    requires GatherEnabled(c, s, e)
    ensures Enabled(c, s, Gather(e)) && Apply(c, s, Gather(e)) == GatherTo(c, s, e)
  {
  }

  lemma Creates(c: Config, s: State, e: CreateStep)
    requires CreateEnabled(s, e)
    ensures Enabled(c, s, Create(e)) && Apply(c, s, Create(e)) == CreateTo(s, e)
  {
  }

  lemma Commits(c: Config, s: State, e: CommitStep)
    requires CommitEnabled(s, e)
    ensures Enabled(c, s, Commit(e)) && Apply(c, s, Commit(e)) == CommitTo(s, e)
  {
  }

  lemma Syncs(c: Config, s: State)
    requires s.phase == Written && s.disk != [] && s.batch != []
    ensures Enabled(c, s, Commit(Sync))
    ensures Apply(c, s, Commit(Sync)) ==
      s.(phase := Synced(0), disk := OnLast(s.disk, Fsync(LastOf(s.disk))), durableLSN := s.batch[|s.batch| - 1].lsn)
  {
    hide Fsync, OnLast;
  }

  /** What ends a wait: a submission joins the queue, one is received, or the timer fires. */
  datatype Wakeup = Arrives(r: Record) | Received | TimerFired

  function Arrivals(env: seq<Wakeup>): (n: nat) {
    if env == [] then 0 else Arrivals(env[..|env| - 1]) + if env[|env| - 1].Arrives? then 1 else 0
  }

  /** How many records are received, if `waiting` are queued to begin with: a receive takes one
      whenever there is one. */
  function Receipts(env: seq<Wakeup>, waiting: nat): (n: nat) {
    if env == [] then 0
    else
      var n := Receipts(env[..|env| - 1], waiting);
      if env[|env| - 1].Received? && n < waiting + Arrivals(env[..|env| - 1]) then n + 1 else n
  }

  lemma NothingHeard(env: seq<Wakeup>, waiting: nat)
    ensures Arrivals(env[..0]) == 0 && Receipts(env[..0], waiting) == 0
  {
  }

  lemma HeardMore(env: seq<Wakeup>, used: nat, waiting: nat)
    requires used < |env|
    ensures Arrivals(env[..used + 1]) == Arrivals(env[..used]) + if env[used].Arrives? then 1 else 0
    ensures Receipts(env[..used + 1], waiting) ==
      var n := Receipts(env[..used], waiting);
      if env[used].Received? && n < waiting + Arrivals(env[..used]) then n + 1 else n
  {
    assert env[..used + 1][..used] == env[..used];
  }

  class Writer {
    const config: Config
    var queue: seq<Record>
    var batch: seq<Record>
    var nextLSN: nat
    var durableLSN: nat
    var disk: seq<File>
    ghost var phase: Phase
    ghost var snap: nat
    ghost var log: seq<Record>
    ghost var acked: nat

    ghost function View(): (r: State)
      reads this
    {
      State(phase, disk, queue, batch, nextLSN, durableLSN, snap, log, acked)
    }

    /** The writer as Open leaves it: s is a running state. */
    constructor (config: Config, s: State)
      ensures this.config == config && View() == s
    {
      this.config := config;
      queue, batch, nextLSN, durableLSN, disk := s.queue, s.batch, s.nextLSN, s.durableLSN, s.disk;
      phase, snap, log, acked := s.phase, s.snap, s.log, s.acked;
    }

    /** Assigns the next LSN and queues the record under one lock. */
    method Submit(r: Record) returns (lsn: nat)
      requires SubmitEnabled(View(), r)
      modifies this
      ensures View() == Apply(config, old(View()), WalWriter.Submit(r))
      ensures lsn == old(nextLSN) && nextLSN == lsn + 1
      ensures queue == old(queue) + [r.(lsn := lsn)] && log == old(log) + [r.(lsn := lsn)]
    {
      lsn := nextLSN;
      var rec := r.(lsn := lsn);
      queue := queue + [rec];
      nextLSN := nextLSN + 1;
      log := log + [rec];
    }

    /** Receives the first record. */
    method TakeFirst() returns (ghost events: seq<Event>)
      requires phase == Idle && queue != []
      modifies `queue, `batch, `phase
      ensures Run(config, old(View()), events) && View() == After(config, old(View()), events)
      ensures phase == Gathered && batch == [old(queue)[0]] && queue == old(queue)[1..]
    {
      hide Enabled, Apply, Run, After;
      ghost var s0 := View();
      Started(config, s0);
      Gathers(config, s0, Take);
      RunSnoc(config, s0, [], Gather(Take));
      events := [] + [Gather(Take)];
      batch, queue, phase := [queue[0]], queue[1..], Gathered;
    }

    lemma CanSubmit(r: Record)
      requires phase == Gathered && nextLSN < MAX_LSN && Encodable(r) && r.kind != SEGMENT_HDR
      ensures SubmitEnabled(View(), r)
    {
    }

    /** One round of the select while the batch may still grow. */
    method Hear(w: Wakeup, ghost s0: State, ghost events: seq<Event>) returns (ghost more: seq<Event>)
      requires Run(config, s0, events) && View() == After(config, s0, events)
      requires phase == Gathered && batch != [] && |batch| < config.groupCommitMax
      requires w.Arrives? ==> SubmitEnabled(View(), w.r)
      modifies this
      ensures Run(config, s0, more) && View() == After(config, s0, more) && phase == Gathered
      ensures log == old(log) + (if w.Arrives? then [w.r.(lsn := old(nextLSN))] else [])
      ensures batch + queue == old(batch) + old(queue) + log[|old(log)|..]
      ensures nextLSN == old(nextLSN) + if w.Arrives? then 1 else 0
      ensures batch == if w.Received? && old(queue) != [] then old(batch) + [old(queue)[0]] else old(batch)
    {
      hide Enabled, Apply, Run, After, SubmitEnabled;
      more := events;
      if w.Arrives? {
        Submits(config, View(), w.r);
        RunSnoc(config, s0, events, WalWriter.Submit(w.r));
        more := events + [WalWriter.Submit(w.r)];
        var _ := Submit(w.r);
      } else if w.Received? && queue != [] {
        Gathers(config, View(), WalWriter.Accumulate);
        RunSnoc(config, s0, events, Gather(WalWriter.Accumulate));
        more := events + [Gather(WalWriter.Accumulate)];
        batch, queue := batch + [queue[0]], queue[1..];
      }
    }

    /** Gathers a batch while other goroutines submit: it waits on, queue or no queue, until the
        batch is full or the timer fires. Nothing is lost, doubled or reordered. */
    method Accumulate(env: seq<Wakeup>) returns (used: nat, ghost events: seq<Event>)
      requires phase == Idle && queue != [] && nextLSN + |env| <= MAX_LSN
      requires forall i :: 0 <= i < |env| && env[i].Arrives? ==> Encodable(env[i].r) && env[i].r.kind != SEGMENT_HDR
      modifies this
      ensures Run(config, old(View()), events) && View() == After(config, old(View()), events)
      ensures phase == Gathered && old(log) <= log && batch + queue == old(queue) + log[|old(log)|..] && batch != []
      ensures |batch| == 1 || |batch| <= config.groupCommitMax
      ensures used <= |env| && (forall i :: 0 <= i < used ==> !env[i].TimerFired?)
      ensures |batch| < config.groupCommitMax ==> used == |env| || env[used].TimerFired?
      ensures |batch| == 1 + Receipts(env[..used], |old(queue)| - 1)
    {
      hide Enabled, Apply, Run, After, Encodable, Arrivals, Receipts, SubmitEnabled, View;
      ghost var s0 := View();
      events := TakeFirst();
      used := 0;
      NothingHeard(env, |old(queue)| - 1);
      while used < |env| && |batch| < config.groupCommitMax && !env[used].TimerFired?
        invariant used <= |env| && Run(config, s0, events) && View() == After(config, s0, events)
        invariant phase == Gathered && old(log) <= log && batch + queue == old(queue) + log[|old(log)|..] && batch != []
        invariant |batch| == 1 || |batch| <= config.groupCommitMax
        invariant forall i :: 0 <= i < used ==> !env[i].TimerFired?
        invariant nextLSN + |env| - used <= MAX_LSN
        invariant |log| == |old(log)| + Arrivals(env[..used])
        invariant |batch| == 1 + Receipts(env[..used], |old(queue)| - 1)
      {
        HeardMore(env, used, |old(queue)| - 1);
        if env[used].Arrives? {
          CanSubmit(env[used].r);
        }
        events := Hear(env[used], s0, events);
        used := used + 1;
      }
    }

    /** Serialises the batch into one buffer. */
    method Serialise(batch: seq<Record>) returns (buf: Bytes)
      ensures buf == EncodeAll(batch)
    {
      hide Encode;
      buf := [];
      for i := 0 to |batch|
        invariant buf == EncodeAll(batch[..i])
      {
        assert batch[..i + 1] == batch[..i] + [batch[i]];
        EncodeAllConcat(batch[..i], [batch[i]]);
        assert EncodeAll([batch[i]]) == Encode(batch[i]) + [];
        buf := AppendRecord(buf, batch[i]);
      }
      assert batch[..|batch|] == batch;
    }

    /** The ghost part of a statement: e takes the recorded run one step on. */
    ghost method Record(s0: State, events: seq<Event>, e: Event) returns (more: seq<Event>)
      requires ValidConfig(config) && e != Fail(Recover)
      requires Run(config, s0, events) && View() == After(config, s0, events) && Inv(View())
      requires Enabled(config, View(), e)
      ensures Run(config, s0, more) && After(config, s0, more) == Apply(config, View(), e)
      ensures Inv(Apply(config, View(), e))
    {
      hide Inv, Enabled, Apply, Run, After;
      StepKeeps(config, View(), e);
      RunSnoc(config, s0, events, e);
      more := events + [e];
    }

    /** Makes and syncs a new segment before the batch is written. */
    method RotateSegment(now: nat) returns (ghost events: seq<Event>)
      requires ValidConfig(config) && Inv(View()) && now < U64
      requires phase == Gathered && disk != [] && |LastOf(disk).seg.data| >= config.segmentSize
      modifies `disk, `phase
      ensures Run(config, old(View()), events) && View() == After(config, old(View()), events)
      ensures Inv(View()) && phase == Ready && batch != []
      ensures |disk| == |old(disk)| + 1 && LastOf(disk).seg.first == batch[0].lsn
    {
      hide Inv, Enabled, Apply, Run, After, Encode;
      ghost var s0 := View();
      Nonempty(s0);
      Started(config, s0);
      Gathers(config, View(), Rotate);
      events := Record(s0, [], Gather(Rotate));
      disk, phase := OnLast(disk, Fsync(LastOf(disk))), RotateSynced;
      Creates(config, View(), CreateFile(now));
      events := Record(s0, events, Create(CreateFile(now)));
      var f := File(Segment(batch[0].lsn, []), now, [], 0, Added);
      disk, phase := disk + [f], Created;
      Creates(config, View(), WriteHeader);
      events := Record(s0, events, Create(WriteHeader));
      f := f.(seg := f.seg.(data := Encode(Header(f))));
      disk, phase := OnLast(disk, f), HeaderWritten;
      Creates(config, View(), SyncHeader);
      events := Record(s0, events, Create(SyncHeader));
      disk, phase := OnLast(disk, Fsync(LastOf(disk))), HeaderSynced;
      Creates(config, View(), SyncEntry);
      events := Record(s0, events, Create(SyncEntry));
      disk, phase := OnLast(disk, LastOf(disk).(link := Durable)), Ready;
    }

    /** One write for the whole batch. */
    method WriteBatch() returns (ghost events: seq<Event>)
      requires ValidConfig(config) && Inv(View()) && phase == Ready && disk != []
      modifies `disk, `phase
      ensures Run(config, old(View()), events) && View() == After(config, old(View()), events)
      ensures Inv(View()) && phase == Written && |disk| == |old(disk)|
      ensures LastOf(disk).seg.data == LastOf(old(disk)).seg.data + EncodeAll(batch)
    {
      hide Inv, Enabled, Apply, Run, After, EncodeAll, Encode;
      ghost var s0 := View();
      Started(config, s0);
      var buf := Serialise(batch);
      var f := LastOf(disk);
      Commits(config, s0, Write);
      events := Record(s0, [], Commit(Write));
      disk, phase := OnLast(disk, f.(seg := f.seg.(data := f.seg.data + buf), held := f.held + batch)), Written;
    }

    /** One fsync after it. */
    method SyncBatch() returns (ghost events: seq<Event>)
      requires ValidConfig(config) && Inv(View()) && phase == Written && batch != [] && disk != []
      modifies `disk, `phase, `durableLSN
      ensures Run(config, old(View()), events) && View() == After(config, old(View()), events)
      ensures Inv(View()) && phase == Synced(0) && durableLSN == batch[|batch| - 1].lsn && |disk| == |old(disk)|
    {
      hide Inv, Enabled, Apply, Run, After, Fsync, OnLast;
      ghost var s0 := View();
      Started(config, s0);
      Syncs(config, s0);
      events := Record(s0, [], Commit(Sync));
      disk, phase := OnLast(disk, Fsync(LastOf(disk))), Synced(0);
      durableLSN := batch[|batch| - 1].lsn;
    }

    /** One write and one fsync for the whole batch. */
    method WriteAndSync() returns (ghost events: seq<Event>)
      requires ValidConfig(config) && Inv(View()) && phase == Ready && batch != [] && disk != []
      modifies `disk, `phase, `durableLSN
      ensures Run(config, old(View()), events) && View() == After(config, old(View()), events)
      ensures Inv(View()) && phase == Synced(0) && durableLSN == batch[|batch| - 1].lsn && |disk| == |old(disk)|
    {
      hide Inv, Enabled, Apply, Run, After;
      ghost var s0 := View();
      events := WriteBatch();
      ghost var more := SyncBatch();
      RunJoin(config, s0, events, more);
      events := events + more;
    }

    /** Finishes the commits of a durable batch one by one. */
    method Acknowledge() returns (ghost events: seq<Event>)
      requires ValidConfig(config) && Inv(View()) && phase == Synced(0) && batch != []
      modifies `acked, `phase, `batch
      ensures Run(config, old(View()), events) && View() == After(config, old(View()), events)
      ensures Inv(View()) && phase == Idle && batch == []
      ensures acked == old(batch)[|old(batch)| - 1].lsn
    {
      hide Inv, Enabled, Apply, Run, After;
      ghost var s0 := View();
      Started(config, s0);
      events := [];
      for i := 0 to |batch|
        invariant Run(config, s0, events) && View() == After(config, s0, events) && Inv(View())
        invariant phase == Synced(i) && batch == s0.batch
        invariant i > 0 ==> acked == batch[i - 1].lsn
      {
        Commits(config, View(), Finish);
        events := Record(s0, events, Commit(Finish));
        acked, phase := batch[i].lsn, Synced(i + 1);
      }
      Commits(config, View(), EndBatch);
      events := Record(s0, events, Commit(EndBatch));
      batch, phase := [], Idle;
    }

    /** Rotates if the segment is full. */
    method Prepare(now: nat) returns (ghost events: seq<Event>)
      requires ValidConfig(config) && Inv(View()) && now < U64 && phase == Gathered && disk != []
      modifies `disk, `phase
      ensures Run(config, old(View()), events) && View() == After(config, old(View()), events)
      ensures Inv(View()) && phase == Ready && disk != []
      ensures |disk| == |old(disk)| + if |LastOf(old(disk)).seg.data| >= config.segmentSize then 1 else 0
    {
      hide Inv, Enabled, Apply, Run, After;
      if |LastOf(disk).seg.data| >= config.segmentSize {
        events := RotateSegment(now);
      } else {
        ghost var s0 := View();
        Started(config, s0);
        Gathers(config, s0, Keep);
        events := Record(s0, [], Gather(Keep));
        phase := Ready;
      }
    }

    /** Rotates if the segment is full, then one write, one fsync, and every commit
        in the batch finishes, in order. */
    method FlushBatch(now: nat) returns (ghost events: seq<Event>)
      requires ValidConfig(config) && Inv(View()) && now < U64 && phase == Gathered
      modifies this
      ensures Run(config, old(View()), events) && View() == After(config, old(View()), events)
      ensures Inv(View()) && phase == Idle && batch == [] && log == old(log) && queue == old(queue)
      ensures old(batch) != [] && acked == durableLSN == old(batch)[|old(batch)| - 1].lsn && old(disk) != []
      ensures |disk| == |old(disk)| + if |LastOf(old(disk)).seg.data| >= config.segmentSize then 1 else 0
    {
      hide Inv, Enabled, Apply, Run, After;
      ghost var s0 := View();
      Nonempty(s0);
      events := Prepare(now);
      ghost var more := WriteAndSync();
      RunJoin(config, s0, events, more);
      events := events + more;
      more := Acknowledge();
      RunJoin(config, s0, events, more);
      events := events + more;
    }
  }

  lemma {:induction false} RunJoin(c: Config, s: State, a: seq<Event>, b: seq<Event>)
    requires Run(c, s, a) && Run(c, After(c, s, a), b)
    ensures Run(c, s, a + b) && After(c, s, a + b) == After(c, After(c, s, a), b)
    decreases |a|
  {
    hide Enabled, Apply, SafeRecovery;
    if a == [] {
      assert a + b == b;
    } else {
      RunJoin(c, Apply(c, s, a[0]), a[1..], b);
      assert (a + b)[1..] == a[1..] + b;
    }
  }

  lemma Nonempty(s: State)
    requires Inv(s) && s.phase == Gathered
    ensures s.batch != [] && s.disk != []
  {
    hide DiskOk, QueueOk;
  }

  lemma Started(c: Config, s: State)
    ensures Run(c, s, []) && After(c, s, []) == s
  {
  }

  // The system does get somewhere

  /** A state some run from an empty directory leads to. */
  ghost predicate Reachable(c: Config, s: State) {
    exists events :: Run(c, Init(), events) && After(c, Init(), events) == s
  }

  lemma ReachNext(c: Config, s: State, e: Event)
    requires Reachable(c, s) && e != Fail(Recover) && Enabled(c, s, e)
    ensures Reachable(c, Apply(c, s, e))
  {
    hide Enabled, Apply, Run, After;
    var events :| Run(c, Init(), events) && After(c, Init(), events) == s;
    RunSnoc(c, Init(), events, e);
  }

  lemma FirstOpen(c: Config) returns (s: State)
    ensures Reachable(c, s) && s == State(RotateSynced, [], [], [], 1, 0, 0, [], 0)
  {
    s := State(RotateSynced, [], [], [], 1, 0, 0, [], 0);
    var e := Fail(Recover);
    assert Recovery(Init()) == Recovered([], 1, Fresh, []);
    assert Apply(c, Init(), e) == s;
    assert [e][1..] == [];
    Started(c, s);
    assert Run(c, Init(), [e]) && After(c, Init(), [e]) == After(c, s, []);
  }

  lemma FirstSegment(c: Config, now: nat) returns (s: State)
    requires now < U64
    ensures Reachable(c, s) && s.phase == Idle && |s.disk| == 1 && |s.disk[0].seg.data| == SEGMENT_HEADER_LEN
    ensures s.queue == [] && s.batch == [] && s.nextLSN == 1 && s.log == [] && s.acked == 0
  {
    hide Enabled, Apply, Run, After, Reachable, Encode;
    s := FirstOpen(c);
    Creates(c, s, CreateFile(now));
    ReachNext(c, s, Create(CreateFile(now)));
    s := Apply(c, s, Create(CreateFile(now)));
    Creates(c, s, WriteHeader);
    ReachNext(c, s, Create(WriteHeader));
    s := Apply(c, s, Create(WriteHeader));
    Creates(c, s, SyncHeader);
    ReachNext(c, s, Create(SyncHeader));
    s := Apply(c, s, Create(SyncHeader));
    Creates(c, s, SyncEntry);
    ReachNext(c, s, Create(SyncEntry));
    s := Apply(c, s, Create(SyncEntry));
  }

  /** From an empty directory, any record can be submitted and acknowledged. */
  lemma WritesGetAcknowledged(c: Config, r: Record, now: nat) returns (s: State)
    requires ValidConfig(c) && Encodable(r) && r.kind != SEGMENT_HDR && now < U64
    ensures Reachable(c, s) && s.log == [r.(lsn := 1)] && s.acked == 1
  {
    hide Enabled, Apply, Run, After, Reachable, EncodeAll;
    s := FirstSegment(c, now);
    Submits(c, s, r);
    ReachNext(c, s, Submit(r));
    s := Apply(c, s, Submit(r));
    Gathers(c, s, Take);
    ReachNext(c, s, Gather(Take));
    s := Apply(c, s, Gather(Take));
    Gathers(c, s, Keep);
    ReachNext(c, s, Gather(Keep));
    s := Apply(c, s, Gather(Keep));
    Commits(c, s, Write);
    ReachNext(c, s, Commit(Write));
    s := Apply(c, s, Commit(Write));
    Commits(c, s, Sync);
    ReachNext(c, s, Commit(Sync));
    s := Apply(c, s, Commit(Sync));
    Commits(c, s, Finish);
    ReachNext(c, s, Commit(Finish));
    s := Apply(c, s, Commit(Finish));
  }

  lemma Submits(c: Config, s: State, r: Record)
    requires SubmitEnabled(s, r)
    ensures Enabled(c, s, Submit(r)) && Apply(c, s, Submit(r)) == SubmitTo(s, r)
  {
  }

  // Resuming without a header

  /** A run in which recovery may resume anywhere. */
  predicate AnyRun(c: Config, s: State, events: seq<Event>)
    decreases |events|
  {
    events == [] || (Enabled(c, s, events[0]) && AnyRun(c, Apply(c, s, events[0]), events[1..]))
  }

  function AnyAfter(c: Config, s: State, events: seq<Event>): (r: State)
    requires AnyRun(c, s, events)
    decreases |events|
  {
    if events == [] then s else AnyAfter(c, Apply(c, s, events[0]), events[1..])
  }

  ghost predicate Leads(c: Config, s: State, t: State) {
    exists events :: AnyRun(c, s, events) && AnyAfter(c, s, events) == t
  }

  lemma {:induction false} AnyRunJoin(c: Config, s: State, a: seq<Event>, b: seq<Event>)
    requires AnyRun(c, s, a) && AnyRun(c, AnyAfter(c, s, a), b)
    ensures AnyRun(c, s, a + b) && AnyAfter(c, s, a + b) == AnyAfter(c, AnyAfter(c, s, a), b)
    decreases |a|
  {
    hide Enabled, Apply;
    if a == [] {
      assert a + b == b;
    } else {
      AnyRunJoin(c, Apply(c, s, a[0]), a[1..], b);
      assert (a + b)[1..] == a[1..] + b;
    }
  }

  lemma LeadsJoin(c: Config, s: State, m: State, t: State)
    requires Leads(c, s, m) && Leads(c, m, t)
    ensures Leads(c, s, t)
  {
    hide AnyRun, AnyAfter;
    var a :| AnyRun(c, s, a) && AnyAfter(c, s, a) == m;
    var b :| AnyRun(c, m, b) && AnyAfter(c, m, b) == t;
    AnyRunJoin(c, s, a, b);
  }

  lemma LeadsOne(c: Config, s: State, e: Event)
    requires Enabled(c, s, e)
    ensures Leads(c, s, Apply(c, s, e))
  {
    hide Enabled, Apply;
    assert [e][1..] == [];
    assert AnyRun(c, s, [e]) && AnyAfter(c, s, [e]) == Apply(c, s, e);
  }

  lemma LeadsNext(c: Config, s: State, m: State, e: Event)
    requires Leads(c, s, m) && Enabled(c, m, e)
    ensures Leads(c, s, Apply(c, m, e))
  {
    hide Enabled, Apply, Leads;
    LeadsOne(c, m, e);
    LeadsJoin(c, s, m, Apply(c, m, e));
  }

  lemma {:induction false} RunIsAnyRun(c: Config, s: State, events: seq<Event>)
    requires Run(c, s, events)
    ensures AnyRun(c, s, events) && AnyAfter(c, s, events) == After(c, s, events)
    decreases |events|
  {
    hide Enabled, Apply, SafeRecovery;
    if events != [] {
      RunIsAnyRun(c, Apply(c, s, events[0]), events[1..]);
    }
  }

  lemma ReachableLeads(c: Config, s: State)
    requires Reachable(c, s)
    ensures Leads(c, Init(), s)
  {
    hide Run, After, AnyRun, AnyAfter;
    var events :| Run(c, Init(), events) && After(c, Init(), events) == s;
    RunIsAnyRun(c, Init(), events);
  }

  /** The last segment as it is reopened at offset 0, with nothing in it. */
  lemma ResumedEmpty(s: State)
    requires s.disk != [] && Recovery(s).Recovered? && Recovery(s).resume.offset == 0
    ensures var d := CutLast(s.disk);
            && |d| == |s.disk| && LastOf(d).seg.data == []
            && Segments(d) == Recovery(s).segs && Recovery(s).segs != []
  {
    hide ScanOf, FirstFault, Delivered, Above, Highest;
    var segs := Segments(s.disk);
    assert segs[|segs| - 1] == LastOf(s.disk).seg;
    assert LastRead(segs) == |segs| - 1;
    assert Segments(CutLast(s.disk)) == segs[..|segs| - 1] + [Cut(segs[|segs| - 1], 0)];
  }

  lemma SubmitLeads(c: Config, s: State, r: Record)
    requires SubmitEnabled(s, r) && s.queue == []
    ensures var rec := r.(lsn := s.nextLSN);
            Leads(c, s, s.(queue := [rec], nextLSN := s.nextLSN + 1, log := s.log + [rec]))
  {
    hide Enabled, Apply, Leads, SubmitEnabled;
    assert s.queue + [r.(lsn := s.nextLSN)] == [r.(lsn := s.nextLSN)];
    Submits(c, s, r);
    LeadsOne(c, s, Submit(r));
  }

  lemma TakeLeads(c: Config, s: State)
    requires s.phase == Idle && |s.queue| == 1
    ensures Leads(c, s, s.(phase := Gathered, batch := s.queue, queue := []))
  {
    hide Enabled, Apply, Leads;
    assert [s.queue[0]] == s.queue && s.queue[1..] == [];
    Gathers(c, s, Take);
    LeadsOne(c, s, Gather(Take));
  }

  lemma KeepLeads(c: Config, s: State)
    requires s.phase == Gathered && s.disk != [] && |LastOf(s.disk).seg.data| < c.segmentSize
    ensures Leads(c, s, s.(phase := Ready))
  {
    hide Enabled, Apply, Leads;
    Gathers(c, s, Keep);
    LeadsOne(c, s, Gather(Keep));
  }

  lemma GatheredAtOnce(c: Config, s: State, r: Record) returns (t: State)
    requires ValidConfig(c) && SubmitEnabled(s, r) && s.phase == Idle && s.queue == [] && s.batch == []
    requires s.disk != [] && LastOf(s.disk).seg.data == []
    ensures var rec := r.(lsn := s.nextLSN);
            t == s.(phase := Ready, batch := [rec], nextLSN := s.nextLSN + 1, log := s.log + [rec])
    ensures Leads(c, s, t)
  {
    hide Leads, SubmitEnabled;
    var rec := r.(lsn := s.nextLSN);
    var a := s.(queue := [rec], nextLSN := s.nextLSN + 1, log := s.log + [rec]);
    var b := a.(phase := Gathered, batch := [rec], queue := []);
    t := b.(phase := Ready);
    SubmitLeads(c, s, r);
    TakeLeads(c, a);
    KeepLeads(c, b);
    LeadsJoin(c, s, a, b);
    LeadsJoin(c, s, b, t);
  }

  lemma DurableAtOnce(c: Config, s: State) returns (t: State)
    requires s.phase == Ready && |s.batch| == 1 && s.disk != []
    ensures Leads(c, s, t) && t == s.(phase := Synced(0), disk := t.disk, durableLSN := s.batch[0].lsn)
    ensures Segments(t.disk) == Appended(Segments(s.disk), s.batch)
  {
    hide Enabled, Apply, Leads, EncodeAll;
    Commits(c, s, Write);
    LeadsOne(c, s, Commit(Write));
    t := Apply(c, s, Commit(Write));
    Commits(c, t, Sync);
    LeadsNext(c, s, t, Commit(Sync));
    t := Apply(c, t, Commit(Sync));
    assert Segments(t.disk) == Appended(Segments(s.disk), s.batch);
  }

  lemma CommittedAtOnce(c: Config, s: State) returns (t: State)
    requires s.phase == Ready && |s.batch| == 1 && s.disk != []
    ensures Leads(c, s, t) && t.phase == Down && t.snap == s.snap && t.acked == s.batch[0].lsn && t.log == s.log
    ensures Segments(t.disk) == Appended(Segments(s.disk), s.batch)
  {
    hide Enabled, Apply, Leads, Appended, Segments;
    t := DurableAtOnce(c, s);
    Commits(c, t, Finish);
    LeadsNext(c, s, t, Commit(Finish));
    t := Apply(c, t, Commit(Finish));
    Crashes(c, t);
    LeadsNext(c, s, t, Fail(Crash));
    t := Apply(c, t, Fail(Crash));
  }

  /** A resumed writer acknowledges one record, and the process dies. */
  lemma AckedAtOnce(c: Config, s: State, r: Record) returns (t: State)
    requires ValidConfig(c) && SubmitEnabled(s, r) && s.phase == Idle && s.queue == [] && s.batch == []
    requires s.disk != [] && LastOf(s.disk).seg.data == []
    ensures Leads(c, s, t) && t.phase == Down && t.snap == s.snap
    ensures t.acked == s.nextLSN && t.log == s.log + [r.(lsn := s.nextLSN)]
    ensures Segments(t.disk) == Appended(Segments(s.disk), [r.(lsn := s.nextLSN)])
  {
    hide Leads, Appended, SubmitEnabled;
    var m := GatheredAtOnce(c, s, r);
    t := CommittedAtOnce(c, m);
    LeadsJoin(c, s, m, t);
  }

  lemma Crashes(c: Config, s: State)
    requires s.phase != Down
    ensures Enabled(c, s, Fail(Crash)) && Apply(c, s, Fail(Crash)) == s.(phase := Down, queue := [], batch := [])
  {
  }

  lemma Recovers(c: Config, s: State)
    requires s.phase == Down && Recovery(s).Recovered?
    ensures Enabled(c, s, Fail(Recover)) && Apply(c, s, Fail(Recover)) == Restarted(s, Recovery(s).nextLSN)
  {
  }

  /** A recovery that is not safe to append after: whatever record is acknowledged next, a crash
      later the whole log is refused. */
  lemma UnsafeRecoveryLosesAck(c: Config, s: State, r: Record) returns (t: State)
    requires ValidConfig(c) && Encodable(r) && r.kind != SEGMENT_HDR
    requires s.phase == Down && s.queue == [] && s.batch == []
    requires Recovery(s).Recovered? && !SafeRecovery(s) && Recovery(s).nextLSN < MAX_LSN
    ensures Leads(c, s, t) && t.phase == Down && t.acked == Recovery(s).nextLSN && t.log != []
    ensures t.log[|t.log| - 1] == r.(lsn := t.acked) && Recovery(t).Refused?
  {
    hide Enabled, Apply, Leads, ReplayOf, CutLast, Segments;
    NotFresh(s);
    ResumedEmpty(s);
    Recovers(c, s);
    LeadsOne(c, s, Fail(Recover));
    var m := Restarted(s, Recovery(s).nextLSN);
    t := AckedAtOnce(c, m, r);
    LeadsJoin(c, s, m, t);
    NextLSNIsFresh(Segments(s.disk), s.snap, false);
    ResumeIsSafeIff(Segments(s.disk), s.snap, [r.(lsn := m.nextLSN)]);
  }

  lemma NotFresh(s: State)
    requires Recovery(s).Recovered? && !SafeRecovery(s)
    ensures s.disk != [] && Recovery(s).resume.At? && Recovery(s).resume.offset == 0
  {
  }

  /** One crash is enough to get there: the first segment has been created and nothing is in it. */
  lemma UnsafeIsReachable(c: Config, now: nat) returns (s: State)
    requires now < U64
    ensures Reachable(c, s) && s.phase == Down && s.queue == [] && s.batch == []
    ensures Recovery(s).Recovered? && Recovery(s).resume == At(1, 0) && Recovery(s).nextLSN == 1
  {
    hide Enabled, Apply, Run, After, Reachable;
    s := FirstOpen(c);
    Creates(c, s, CreateFile(now));
    ReachNext(c, s, Create(CreateFile(now)));
    s := Apply(c, s, Create(CreateFile(now)));
    Crashes(c, s);
    ReachNext(c, s, Fail(Crash));
    s := Apply(c, s, Fail(Crash));
    var segs := Segments(s.disk);
    assert segs == [Segment(1, [])];
    ScanEmpty();
  }

  /** Acknowledged does not imply recovered for every run: from an empty directory, any record can
      be acknowledged so that the next start refuses the log. */
  lemma AcknowledgedIsRefused(c: Config, r: Record, now: nat) returns (t: State)
    requires ValidConfig(c) && Encodable(r) && r.kind != SEGMENT_HDR && now < U64
    ensures Leads(c, Init(), t) && t.phase == Down && t.acked == 1 && Recovery(t).Refused?
    ensures t.log != [] && t.log[|t.log| - 1] == r.(lsn := 1)
  {
    hide Leads, Reachable, Recovery;
    var s := UnsafeIsReachable(c, now);
    ReachableLeads(c, s);
    t := UnsafeRecoveryLosesAck(c, s, r);
    LeadsJoin(c, Init(), s, t);
  }
}
