/** The engine's write commands (internal/engine/commands.go): what each does to memory, the record it
    leaves in the log, and what that record brings back. */
module Commands {
  import opened Bytes
  import opened Shards
  import opened Expiry
  import opened References
  import opened Recovery
  import opened Stores
  import CrashRecovery
  import Engine
  import MemoryLimit
  import RangeScan
  import Snapshots
  import WalRecord
  import WalReplay
  import WalWriter

  datatype Request =
    | SetKey(key: Bytes, value: Bytes, ttlMs: nat)
    | DeleteKey(key: Bytes)
    | ExpireKey(key: Bytes, ttlMs: nat)

  /** What a command ends with before it waits for the disk: its record is queued, or memory refused
      the write, or memory took it and the log did not. */
  datatype Outcome = Queued(rec: WalRecord.Record) | OutOfMemory | TooLong

  /** The log assigns the number and the time of creation. */
  function Submit(r: WalRecord.Record, lsn: nat, createdAt: nat): (o: Outcome) {
    if |r.key| > WalRecord.MAX_KEY_LEN || |r.value| > WalRecord.MAX_VAL_LEN then TooLong
    else Queued(r.(lsn := lsn, createdAt := createdAt))
  }

  /** A key with this TTL from nowMs on is there at t. */
  predicate Lasts(ttlMs: nat, nowMs: nat, t: nat) {
    ttlMs == 0 || t < nowMs + if ttlMs > 0x4_0000_0000_0000 then 0x4_0000_0000_0000 else ttlMs
  }

  lemma LastsUntil(ttlMs: nat, nowMs: nat)
    requires nowMs < 0xFFFC_0000_0000_0000
    ensures Engine.Deadline(ttlMs, nowMs) < U64
    ensures forall v, t :: Cell(v, Engine.Deadline(ttlMs, nowMs)).Expired(t) <==> !Lasts(ttlMs, nowMs, t)
  {
    forall v, t ensures Cell(v, Engine.Deadline(ttlMs, nowMs)).Expired(t) <==> !Lasts(ttlMs, nowMs, t) {
      Engine.DeadlineIsAhead(ttlMs, nowMs, v, t);
    }
  }

  // The commands

  /** The record is the one the command queues. */
  ghost predicate Wrote(q: Request, nowMs: nat, rec: WalRecord.Record) {
    match q
    case SetKey(key, value, ttlMs) =>
      && rec == WalRecord.Record(rec.lsn, rec.createdAt, 1, 0, key, value, rec.expireAt)
      && forall v, t :: Cell(v, rec.expireAt).Expired(t) <==> !Lasts(ttlMs, nowMs, t)
    case DeleteKey(key) => rec == WalRecord.Record(rec.lsn, rec.createdAt, 2, 0, key, [], 0)
    case ExpireKey(key, ttlMs) =>
      && rec == WalRecord.Record(rec.lsn, rec.createdAt, 3, 0, key, [], rec.expireAt)
      && forall v, t :: Cell(v, rec.expireAt).Expired(t) <==> !Lasts(ttlMs, nowMs, t)
  }

  /** What a command with this deadline does to a keyspace that has room for it. */
  ghost function Effect(m: map<Bytes, Cell>, q: Request, expireAt: nat, at: nat): (r: map<Bytes, Cell>) {
    match q
    case SetKey(key, value, _) => m[key := Cell(value, expireAt)]
    case DeleteKey(key) => m - {key}
    case ExpireKey(key, _) =>
      if key in m && (m[key].expireAt == 0 || at < m[key].expireAt) then m[key := Cell(m[key].value, expireAt)]
      else m - {key}
  }

  /** The deadline is taken from the clock at nowMs, the shard's lock at a later reading. */
  method Set(st: Store, key: Bytes, value: Bytes, ttlMs: nat, nowMs: nat, nowMono: nat, rng: nat -> nat -> nat,
             lsn: nat, createdAt: nat) returns (o: Outcome, ghost gone: set<Bytes>, ghost expireAt: nat)
    requires st.Valid() && Cost(|key|, |value|) < U32 && nowMs < 0xFFFC_0000_0000_0000
    modifies st, st.shards, st.Entries()
    ensures st.Valid() && gone <= old(st.view).Keys - {key} && (st.maxMemory <= 0 ==> gone == {} && !o.OutOfMemory?)
    ensures st.view ==
      if o.OutOfMemory? then old(st.view) - gone else (old(st.view) - gone)[key := Cell(value, expireAt)]
    ensures forall t :: Cell(value, expireAt).Expired(t) <==> !Lasts(ttlMs, nowMs, t)
    ensures o.OutOfMemory? || o == if |key| > 0xFFFF || |value| > 0x100_0000 then TooLong
                                   else Queued(WalRecord.Record(lsn, createdAt, 1, 0, key, value, expireAt))
    ensures o.Queued? ==> Wrote(SetKey(key, value, ttlMs), nowMs, o.rec)
    ensures gone == {} && !o.OutOfMemory? ==>
      st.view == Effect(old(st.view), SetKey(key, value, ttlMs), expireAt, nowMs)
  {
    hide Store.Valid, Store.Entries, RefAfter, Shard.Written, Extends, Store.Slots, Engine.Deadline, JustEnough;
    LastsUntil(ttlMs, nowMs);
    var deadline := Engine.Deadline(ttlMs, nowMs);
    var ok;
    Unlimited(st, st.view[key := Cell(value, deadline)]);
    ok, gone := st.Set(key, value, deadline, nowMono, rng);
    expireAt := deadline;
    if !ok {
      return OutOfMemory, gone, expireAt;
    }
    o := Submit(WalRecord.Record(0, 0, WalRecord.SET, 0, key, value, deadline), lsn, createdAt);
  }

  method Delete(st: Store, key: Bytes, at: nat, lsn: nat, createdAt: nat) returns (existed: bool, o: Outcome)
    requires st.Valid()
    modifies st, st.shards, st.Entries()
    ensures st.Valid() && st.view == old(st.view) - {key}
    ensures existed <==> key in old(st.view) && (old(st.view)[key].expireAt == 0 || at < old(st.view)[key].expireAt)
    ensures o == if |key| > 0xFFFF then TooLong else Queued(WalRecord.Record(lsn, createdAt, 2, 0, key, [], 0))
    ensures st.view == Effect(old(st.view), DeleteKey(key), 0, at) && (o.Queued? ==> Wrote(DeleteKey(key), at, o.rec))
  {
    hide Store.Valid, Store.Entries, RefAfter, RefReply;
    existed := st.Delete(key, at);
    o := Submit(WalRecord.Record(0, 0, WalRecord.DELETE, 0, key, [], 0), lsn, createdAt);
  }

  /** Logged even if there was no such key: replay finds none either. */
  method Expire(st: Store, key: Bytes, ttlMs: nat, nowMs: nat, at: nat, lsn: nat, createdAt: nat)
    returns (ok: bool, o: Outcome, ghost expireAt: nat)
    requires st.Valid() && nowMs < 0xFFFC_0000_0000_0000
    modifies st, st.shards, st.Entries()
    ensures st.Valid() && forall v, t :: Cell(v, expireAt).Expired(t) <==> !Lasts(ttlMs, nowMs, t)
    ensures ok <==> key in old(st.view) && (old(st.view)[key].expireAt == 0 || at < old(st.view)[key].expireAt)
    ensures st.view ==
      if ok then old(st.view)[key := Cell(old(st.view)[key].value, expireAt)] else old(st.view) - {key}
    ensures o == if |key| > 0xFFFF then TooLong
                 else Queued(WalRecord.Record(lsn, createdAt, 3, 0, key, [], expireAt))
    ensures st.view == Effect(old(st.view), ExpireKey(key, ttlMs), expireAt, at)
    ensures o.Queued? ==> Wrote(ExpireKey(key, ttlMs), nowMs, o.rec)
  {
    hide Store.Valid, Store.Entries, RefAfter, RefReply, Extends, Store.Slots, Engine.Deadline;
    LastsUntil(ttlMs, nowMs);
    var deadline := Engine.Deadline(ttlMs, nowMs);
    expireAt := deadline;
    ok := st.Expire(key, deadline, at);
    o := Submit(WalRecord.Record(0, 0, WalRecord.EXPIRE, 0, key, [], deadline), lsn, createdAt);
  }

  // Whole histories

  /** What happens to memory, in order: a command, with its reading for the deadline, the record it
      queued and its reading under the shard's lock, or dead keys being reclaimed. */
  datatype Event =
    | Called(q: Request, nowMs: nat, rec: WalRecord.Record, at: nat)
    | Reclaimed(gone: set<Bytes>, at: nat)

  /** Replaying the record of a command does what the command did. */
  lemma ReplayRedoes(m: map<Bytes, Cell>, q: Request, nowMs: nat, rec: WalRecord.Record, at: nat)
    requires Wrote(q, nowMs, rec) && Engine.Replayable(rec)
    ensures rec.kind != WalRecord.SEGMENT_HDR && Engine.OpOf(rec).key == q.key
    ensures Engine.Next(m, rec, at) == Effect(m, q, rec.expireAt, at)
    ensures After(m, Do(Engine.OpOf(rec), at)) == Effect(m, q, rec.expireAt, at)
  {
    MinusAll(m, q.key);
  }

  ghost predicate Recorded(e: Event) {
    e.Called? ==> Wrote(e.q, e.nowMs, e.rec) && WalRecord.Encodable(e.rec)
  }

  ghost predicate History(es: seq<Event>) {
    forall i :: 0 <= i < |es| ==> Recorded(es[i])
  }

  /** The keyspace after the events, from m. */
  ghost function Holding(m: map<Bytes, Cell>, es: seq<Event>): (r: map<Bytes, Cell>)
    decreases |es|
  {
    if es == [] then m
    else
      var e := es[0];
      Holding(if e.Called? then Effect(m, e.q, e.rec.expireAt, e.at) else m - (e.gone * Dead(m, e.at)), es[1..])
  }

  /** The records, in the order they were queued. */
  ghost function LogOf(es: seq<Event>): (r: seq<WalRecord.Record>)
    decreases |es|
  {
    if es == [] then [] else (if es[0].Called? then [es[0].rec] else []) + LogOf(es[1..])
  }

  /** An event as a step of the recovery model. */
  function StepOf(e: Event): (r: Step)
    requires e.Called? ==> Engine.Replayable(e.rec) && e.rec.kind != WalRecord.SEGMENT_HDR
  {
    if e.Called? then Do(Engine.OpOf(e.rec), e.at) else Reclaim(e.gone, e.at)
  }

  ghost function RunOf(es: seq<Event>): (r: seq<Step>)
    requires History(es)
    ensures |r| == |es| && forall i :: 0 <= i < |es| ==> r[i] == StepOf(es[i])
  {
    seq(|es|, i requires 0 <= i < |es| => assert Recorded(es[i]); StepOf(es[i]))
  }

  lemma RunTail(es: seq<Event>)
    requires History(es) && es != []
    ensures History(es[1..]) && RunOf(es) == [StepOf(es[0])] + RunOf(es[1..]) && RunOf(es)[1..] == RunOf(es[1..])
  {
    hide Wrote, WalRecord.Encodable;
    assert forall i :: 0 <= i < |es[1..]| ==> es[1..][i] == es[i + 1];
  }

  /** The run of the recovery model does to memory what the commands do. */
  lemma {:induction false} RunIsHistory(m: map<Bytes, Cell>, es: seq<Event>)
    requires History(es)
    ensures Memory(m, RunOf(es)) == Holding(m, es)
    decreases |es|
  {
    hide Wrote, Effect, RefAfter, WalRecord.Encodable;
    if es != [] {
      var e := es[0];
      assert Recorded(e);
      RunTail(es);
      if e.Called? {
        ReplayRedoes(m, e.q, e.nowMs, e.rec, e.at);
      }
      RunIsHistory(After(m, StepOf(e)), es[1..]);
    }
  }

  /** The log of the run is the log the commands wrote. */
  lemma {:induction false} RunHasLog(es: seq<Event>)
    requires History(es)
    ensures Engine.AllReplayable(LogOf(es)) && Logged(RunOf(es)) == Logged(Engine.Steps(LogOf(es)))
    ensures |Logged(RunOf(es))| == |LogOf(es)|
    decreases |es|
  {
    hide Wrote, WalRecord.Encodable;
    if es != [] {
      var e, rest := es[0], LogOf(es[1..]);
      assert Recorded(e);
      RunTail(es);
      RunHasLog(es[1..]);
      if e.Called? {
        ReplayRedoes(map[], e.q, e.nowMs, e.rec, e.at);
        var step := Do(Engine.OpOf(e.rec), 0);
        assert ([e.rec] + rest)[1..] == rest && ([step] + Engine.Steps(rest))[1..] == Engine.Steps(rest);
      } else {
        assert [] + rest == rest;
      }
    }
  }

  lemma RunPrefix(es: seq<Event>, n: nat)
    requires History(es) && n <= |es|
    ensures History(es[..n]) && RunOf(es)[..n] == RunOf(es[..n])
    ensures |Logged(RunOf(es)[..n])| == |LogOf(es[..n])|
  {
    hide Wrote, WalRecord.Encodable, Logged;
    assert forall i :: 0 <= i < n ==> es[..n][i] == es[i];
    RunHasLog(es[..n]);
  }

  lemma {:induction false} LogAt(es: seq<Event>, n: nat)
    requires n < |es| && es[n].Called?
    ensures |LogOf(es[..n])| < |LogOf(es)| && LogOf(es)[|LogOf(es[..n])|] == es[n].rec
    decreases |es|
  {
    if n > 0 {
      LogAt(es[1..], n - 1);
      assert es[..n][1..] == es[1..][..n - 1];
    }
  }

  // What survives

  /** The event is a SET or a DELETE and the last command on its key. */
  ghost predicate LastOnKey(es: seq<Event>, n: nat) {
    && n < |es| && es[n].Called? && !es[n].q.ExpireKey?
    && forall j :: n < j < |es| && es[j].Called? ==> es[j].q.key != es[n].q.key
  }

  /** What the command left is what the keyspace has for its key at the end. */
  ghost predicate StillThere(m: map<Bytes, Cell>, q: Request, nowMs: nat, end: nat) {
    match q
    case SetKey(key, value, ttlMs) =>
      && (key in m <==> Lasts(ttlMs, nowMs, end))
      && (key in m ==> m[key].value == value && forall t :: m[key].Expired(t) <==> !Lasts(ttlMs, nowMs, t))
    case DeleteKey(key) => key !in m
    case ExpireKey(_, _) => true
  }

  /** Everything happened before the restart's clock started. */
  ghost predicate Past(es: seq<Event>, start: nat) {
    forall i :: 0 <= i < |es| ==> es[i].at <= start
  }

  lemma RunIsSuffix(es: seq<Event>, clock: nat -> nat, start: nat)
    requires History(es) && Past(es, start) && From(clock, start)
    ensures Suffix(RunOf(es), clock, start)
  {
    hide Wrote, WalRecord.Encodable;
  }

  lemma RunLastWord(es: seq<Event>, n: nat)
    requires History(es) && LastOnKey(es, n)
    ensures CrashRecovery.LastWord(RunOf(es), n, es[n].q.key)
    ensures CrashRecovery.Left(RunOf(es)[n].op) ==
            if es[n].q.SetKey? then Some(Cell(es[n].q.value, es[n].rec.expireAt)) else None
  {
    hide WalRecord.Encodable;
    assert Recorded(es[n]);
    forall j | n < j < |es| ensures !Touches(RunOf(es)[j], es[n].q.key) {
      assert Recorded(es[j]);
    }
  }

  /** An acknowledged SET or DELETE that no later command touches is what replay leaves for its key,
      wherever the crash has cut the log after it and wherever the snapshot was taken: the value for as
      long as the TTL lasts, counted from when the command came in, and no longer. */
  lemma CommandSurvives(es: seq<Event>, n: nat, l: nat, p: Bytes -> nat, shown: map<Bytes, Cell>, seen: nat,
                        snap: nat, acked: nat, k: nat, clock: nat -> nat, start: nat, end: nat)
    requires History(es) && WalWriter.Numbered(LogOf(es)) && LastOnKey(es, n) && es[n].rec.lsn <= acked
    requires l <= |es| && |LogOf(es[..l])| == snap <= k && acked <= k <= |LogOf(es)|
    requires Past(es, start) && From(clock, start) && seen <= start <= end && Fuzzy(shown, RunOf(es), l, p, seen)
    ensures Engine.AllReplayable(LogOf(es)[snap..k])
    ensures StillThere(Live(Replayed(shown, Engine.Steps(LogOf(es)[snap..k]), clock, 0), end),
                       es[n].q, es[n].nowMs, end)
  {
    hide Logged, Engine.Steps, LogOf, RunOf, Memory, Live, Replayed, Fuzzy, WalRecord.Encodable;
    var e := es[n];
    assert Recorded(e);
    RunHasLog(es);
    RunIsSuffix(es, clock, start);
    RunLastWord(es, n);
    RunPrefix(es, l);
    RunPrefix(es, n);
    LogAt(es, n);
    CrashRecovery.AcknowledgedSurvives(RunOf(es), l, p, shown, seen, LogOf(es), snap, acked, k, clock, start, end,
                                       e.q.key, n);
  }

  /** All that the first n snapshot files hand over, in the order they are tried. */
  ghost function Shown(files: seq<Bytes>, n: nat): (r: map<Bytes, Cell>)
    requires n <= |files|
  {
    RangeScan.PutAll(map[], Engine.Pairs(Engine.Handed(files, seq(n, j requires 0 <= j < n =>
      |Snapshots.LoadOf(files[j]).out|))))
  }

  lemma RestoredIs(files: seq<Bytes>, taken: seq<nat>, applied: seq<WalRecord.Record>, clock: nat -> nat, end: nat)
    requires Engine.Taken(files, taken) && Engine.AllReplayable(applied)
    requires forall j :: 0 <= j < |taken| ==> taken[j] == |Snapshots.LoadOf(files[j]).out|
    ensures Engine.Restored(files, taken, applied, clock, end) ==
            Live(Replayed(Shown(files, |taken|), Engine.Steps(applied), clock, 0), end)
  {
    hide Snapshots.LoadOf, Engine.Handed, Engine.Steps, Live, Replayed, RangeScan.PutAll;
    assert taken == seq(|taken|, j requires 0 <= j < |taken| => |Snapshots.LoadOf(files[j]).out|);
  }

  /** The same of the store itself, after any run of the log, cut by a crash at any moment, and a
      restart: nothing acknowledged is lost. */
  method Restart(ghost c: WalWriter.Config, ghost events: seq<WalWriter.Event>, st: Store, files: seq<Bytes>,
                 ghost i: nat, dir: WalReplay.Directory, clock: nat -> nat, end: nat, env: nat -> MemoryLimit.Env,
                 ghost es: seq<Event>, ghost n: nat, ghost l: nat, ghost p: Bytes -> nat, ghost seen: nat,
                 ghost start: nat) returns (rep: Engine.Report)
    requires WalWriter.ValidConfig(c) && WalWriter.Run(c, WalWriter.Init(), events)
    requires WalWriter.After(c, WalWriter.Init(), events).phase == WalWriter.Down
    requires dir.segs == WalWriter.Segments(WalWriter.After(c, WalWriter.Init(), events).disk)
    requires CrashRecovery.NewestIs(files, i, WalWriter.After(c, WalWriter.Init(), events).snap)
    requires st.Valid() && st.view == map[] && st.maxMemory <= 0
    requires History(es) && LogOf(es) == WalWriter.After(c, WalWriter.Init(), events).log && LastOnKey(es, n)
    requires es[n].rec.lsn <= WalWriter.After(c, WalWriter.Init(), events).acked
    requires l <= |es| && |LogOf(es[..l])| == WalWriter.After(c, WalWriter.Init(), events).snap
    requires Past(es, start) && From(clock, start) && seen <= start <= end
    requires Fuzzy(Shown(files, if files == [] then 0 else i + 1), RunOf(es), l, p, seen)
    modifies st, st.shards, st.Entries(), dir
    ensures st.Valid() && rep.Opened? && StillThere(st.view, es[n].q, es[n].nowMs, end)
  {
    hide Store.Valid, WalWriter.Run, WalWriter.After, WalWriter.Segments, CrashRecovery.NewestIs, History, LogOf,
      LastOnKey, Past, From, Fuzzy, RunOf, Shown, StillThere, Snapshots.LoadOf, Engine.Restored;
    ghost var s := WalWriter.After(c, WalWriter.Init(), events);
    ghost var _ := WalWriter.Durability(c, events);
    ghost var k, taken;
    rep, k, taken := CrashRecovery.Reopen(c, events, st, files, i, dir, clock, end, env);
    RestoredIs(files, taken, s.log[s.snap..k], clock, end);
    CommandSurvives(es, n, l, p, Shown(files, |taken|), seen, s.snap, s.acked, k, clock, start, end);
  }
}
