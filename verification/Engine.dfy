/** The engine around the store: deadlines, recovery at start-up, and checkpoints. */
module Engine {
  import opened Bytes
  import opened Shards
  import opened Expiry
  import opened References
  import opened Stores
  import opened MemoryLimit
  import RangeScan
  import Recovery
  import Checkpoints
  import LiveCheckpoints
  import Snapshots
  import WalRecord
  import WalScan
  import WalReplay

  // Deadlines

  const MAX_TTL: nat := 0x4_0000_0000_0000

  /** Relative on the wire, absolute in storage; 64-bit arithmetic. */
  function Deadline(ttlMs: nat, nowMs: nat): (d: nat) {
    if ttlMs == 0 then 0 else (nowMs + if ttlMs > MAX_TTL then MAX_TTL else ttlMs) % U64
  }

  /** A key with no TTL never dies. One with a TTL is there at every moment before the TTL has passed,
      counted up to 2^50 ms, and at none after, as long as the sum does not wrap. */
  lemma DeadlineIsAhead(ttlMs: nat, nowMs: nat, v: Bytes, t: nat)
    requires nowMs < 0xFFFC_0000_0000_0000
    ensures ttlMs == 0 ==> !Cell(v, Deadline(ttlMs, nowMs)).Expired(t)
    ensures 0 < ttlMs <= 0x4_0000_0000_0000 ==> (!Cell(v, Deadline(ttlMs, nowMs)).Expired(t) <==> t < nowMs + ttlMs)
    ensures ttlMs > 0x4_0000_0000_0000 ==>
      (!Cell(v, Deadline(ttlMs, nowMs)).Expired(t) <==> t < nowMs + 0x4_0000_0000_0000)
  {
    assert 0x4_0000_0000_0000 + 0xFFFC_0000_0000_0000 == U64;
  }

  /** The clamp keeps the sum from wrapping for any clock reading in the next 500 million years; a TTL
      is kept to exactly when it does. */
  lemma DeadlineKeptIff(ttlMs: nat, nowMs: nat, v: Bytes)
    requires 0 < ttlMs <= 0x4_0000_0000_0000 && nowMs < U64
    ensures (forall t: nat :: !Cell(v, Deadline(ttlMs, nowMs)).Expired(t) <==> t < nowMs + ttlMs) <==>
            nowMs + ttlMs < U64
  {
    var c := Cell(v, Deadline(ttlMs, nowMs));
    if nowMs + ttlMs >= U64 {
      assert c.expireAt == nowMs + ttlMs - U64 <= nowMs;
      assert c.Expired(nowMs) || !c.Expired(nowMs + ttlMs);
    }
  }

  // Replaying records

  predicate Replayable(r: WalRecord.Record) {
    WalRecord.Encodable(r)
  }

  /** The request a record stands for; a segment header stands for none. */
  function OpOf(r: WalRecord.Record): (op: Op)
    requires Replayable(r) && r.kind != WalRecord.SEGMENT_HDR
  {
    if r.kind == WalRecord.SET then Op.Set(r.key, r.value, r.expireAt)
    else if r.kind == WalRecord.DELETE then Op.Delete(r.key)
    else Op.Expire(r.key, r.expireAt)
  }

  ghost predicate AllReplayable(rs: seq<WalRecord.Record>) {
    forall i :: 0 <= i < |rs| ==> Replayable(rs[i])
  }

  /** The log as steps of the recovery model: the writes in order. */
  ghost function Steps(rs: seq<WalRecord.Record>): (r: seq<Recovery.Step>)
    requires AllReplayable(rs)
    decreases |rs|
  {
    if rs == [] then []
    else if rs[0].kind == WalRecord.SEGMENT_HDR then [Recovery.Reclaim({}, 0)] + Steps(rs[1..])
    else [Recovery.Do(OpOf(rs[0]), 0)] + Steps(rs[1..])
  }

  /** One record into the store. Only a memory limit can evict other keys, or refuse. */
  method ApplyRecord(st: Store, r: WalRecord.Record, nowMs: nat, nowMono: nat, rng: nat -> nat -> nat,
                     ghost ideal: map<Bytes, Cell>, ghost before: Evicted)
    returns (ok: bool, ghost lost: Evicted, ghost gone: set<Bytes>)
    requires st.Valid() && Replayable(r) && Remains(st.view, ideal, before) && Allowed(st, before)
    modifies st, st.shards, st.Entries()
    ensures st.Valid() && (forall e :: e in st.Entries() ==> e in old(st.Entries()) || fresh(e))
    ensures Remains(st.view, if ok then Next(ideal, r, nowMs) else ideal, lost) && Allowed(st, lost)
    ensures st.maxMemory <= 0 || r.kind != WalRecord.SET ==> ok && lost == before
    ensures r.kind != WalRecord.SET ==> st.view == Next(old(st.view), r, nowMs)
    ensures before == {} && st.Roomy(Next(ideal, r, nowMs)) ==> ok && lost == {}
    ensures r.kind == WalRecord.SET ==>
      && gone <= old(st.view).Keys - {r.key} && lost == before + Cells(old(st.view), gone)
      && st.view == if ok then (old(st.view) - gone)[r.key := Cell(r.value, r.expireAt)] else old(st.view) - gone
    ensures r.kind == WalRecord.DELETE ==> st.view == old(st.view) - {r.key}
    ensures r.kind == WalRecord.EXPIRE ==>
      var seen := old(st.view);
      st.view == if r.key in seen && (seen[r.key].expireAt == 0 || nowMs < seen[r.key].expireAt)
                 then seen[r.key := Cell(seen[r.key].value, r.expireAt)] else seen - {r.key}
    ensures r.kind == WalRecord.SEGMENT_HDR ==> st.view == old(st.view)
  {
    hide RefAfter, RefReply, Store.Valid, Store.Entries, Remains, Allowed, Store.Roomy;
    ok, lost, gone := true, before, {};
    if r.kind == WalRecord.SET {
      SetIs(ideal, r.key, r.value, r.expireAt, nowMs);
      ok, lost, gone := SetWithin(st, r.key, r.value, r.expireAt, nowMono, rng, ideal, before);
    } else if r.kind != WalRecord.SEGMENT_HDR {
      RemainsAfter(st.view, ideal, before, OpOf(r), nowMs);
      if r.kind == WalRecord.DELETE {
        var _ := st.Delete(r.key, nowMs);
      } else {
        var _ := st.Expire(r.key, r.expireAt, nowMs);
      }
    }
  }

  /** What a record does to a keyspace without a limit. */
  ghost function Next(m: map<Bytes, Cell>, r: WalRecord.Record, nowMs: nat): (n: map<Bytes, Cell>)
    requires Replayable(r)
  {
    if r.kind == WalRecord.SEGMENT_HDR then m else RefAfter(m, OpOf(r), nowMs)
  }

  lemma SetIs(m: map<Bytes, Cell>, k: Bytes, v: Bytes, d: nat, now: nat)
    ensures RefAfter(m, Op.Set(k, v, d), now) == m[k := Cell(v, d)]
  {
  }

  /** The keyspace replay has reached after the first i records, without a limit. */
  ghost function Reached(m: map<Bytes, Cell>, rs: seq<WalRecord.Record>, clock: nat -> nat, i: nat)
    : (r: map<Bytes, Cell>)
    requires AllReplayable(rs) && i <= |rs|
  {
    Recovery.Replayed(m, Steps(rs[..i]), clock, 0)
  }

  lemma ReachedNext(m: map<Bytes, Cell>, rs: seq<WalRecord.Record>, clock: nat -> nat, i: nat, n: nat)
    requires AllReplayable(rs) && i < |rs| && n == Recovery.Ticks(0, Steps(rs[..i]))
    ensures Reached(m, rs, clock, i + 1) == Next(Reached(m, rs, clock, i), rs[i], clock(n))
    ensures Recovery.Ticks(0, Steps(rs[..i + 1])) == if rs[i].kind == WalRecord.SEGMENT_HDR then n else n + 1
  {
    hide RefAfter, Steps;
    assert rs[..i + 1] == rs[..i] + [rs[i]];
    StepsJoin(rs[..i], [rs[i]]);
    Recovery.ReplayedJoin(m, Steps(rs[..i]), Steps([rs[i]]), clock, 0);
    StepsOne(rs[i], Reached(m, rs, clock, i), clock, n);
  }

  lemma StepsOne(r: WalRecord.Record, m: map<Bytes, Cell>, clock: nat -> nat, n: nat)
    requires Replayable(r)
    ensures Recovery.Replayed(m, Steps([r]), clock, n) == Next(m, r, clock(n))
    ensures Recovery.Ticks(n, Steps([r])) == if r.kind == WalRecord.SEGMENT_HDR then n else n + 1
  {
    hide RefAfter;
    assert [r][1..] == [];
    var step := if r.kind == WalRecord.SEGMENT_HDR then Recovery.Reclaim({}, 0) else Recovery.Do(OpOf(r), 0);
    assert Steps([r]) == [step] + [] && ([step] + [])[1..] == [];
  }

  lemma {:induction false} StepsJoin(a: seq<WalRecord.Record>, b: seq<WalRecord.Record>)
    requires AllReplayable(a) && AllReplayable(b)
    ensures AllReplayable(a + b) && Steps(a + b) == Steps(a) + Steps(b)
    decreases |a|
  {
    hide WalRecord.Encodable;
    if a == [] {
      assert a + b == b;
    } else {
      assert (a + b)[1..] == a[1..] + b;
      StepsJoin(a[1..], b);
    }
  }

  lemma ReachedEnds(m: map<Bytes, Cell>, rs: seq<WalRecord.Record>, clock: nat -> nat)
    requires AllReplayable(rs)
    ensures Reached(m, rs, clock, 0) == m && Recovery.Ticks(0, Steps(rs[..0])) == 0
    ensures Reached(m, rs, clock, |rs|) == Recovery.Replayed(m, Steps(rs), clock, 0)
  {
    assert rs[..|rs|] == rs;
  }

  /** There is room for everything replay goes through. */
  ghost predicate RoomyReplay(st: Store, m: map<Bytes, Cell>, rs: seq<WalRecord.Record>, clock: nat -> nat)
    requires AllReplayable(rs)
  {
    forall i :: 0 <= i <= |rs| ==> st.Roomy(Reached(m, rs, clock, i))
  }

  /** Records in order, each at the clock's reading at that moment. */
  method ApplyRecords(st: Store, rs: seq<WalRecord.Record>, clock: nat -> nat, env: Env)
    returns (ok: bool, ghost lost: Evicted)
    requires st.Valid() && AllReplayable(rs)
    modifies st, st.shards, st.Entries()
    ensures st.Valid() && (forall e :: e in st.Entries() ==> e in old(st.Entries()) || fresh(e))
    ensures ok ==> Remains(st.view, Recovery.Replayed(old(st.view), Steps(rs), clock, 0), lost)
    ensures Allowed(st, lost) && (st.maxMemory <= 0 ==> ok)
    ensures RoomyReplay(st, old(st.view), rs, clock) ==> ok && lost == {}
  {
    hide Store.Valid, Store.Entries, RefAfter, Remains, Steps, Recovery.Replayed, Replayable, Reached, Allowed,
      Store.Roomy, Next;
    var n := 0;
    ghost var start, gone := st.view, {};
    lost := {};
    NothingLost(st, st.view);
    RemainsAll(st.view, st.view);
    ReachedEnds(start, rs, clock);
    for i := 0 to |rs|
      invariant st.Valid() && (forall e :: e in st.Entries() ==> e in old(st.Entries()) || fresh(e))
      invariant Remains(st.view, Reached(start, rs, clock, i), lost) && Allowed(st, lost)
      invariant RoomyReplay(st, start, rs, clock) ==> lost == {}
      invariant n == Recovery.Ticks(0, Steps(rs[..i]))
    {
      ReachedNext(start, rs, clock, i, n);
      ok, lost, gone := ApplyRecord(st, rs[i], clock(n), env.mono(i), env.rng(i), Reached(start, rs, clock, i), lost);
      if !ok {
        return;
      }
      if rs[i].kind != WalRecord.SEGMENT_HDR {
        n := n + 1;
      }
    }
    ok := true;
  }

  // Loading a snapshot

  function Pair(e: Snapshots.Item): (x: RangeScan.Emission) {
    (e.key, Cell(e.value, e.expireAt))
  }

  function Pairs(es: seq<Snapshots.Item>): (r: seq<RangeScan.Emission>)
    ensures |r| == |es| && forall i :: 0 <= i < |es| ==> r[i] == Pair(es[i])
  {
    seq(|es|, i requires 0 <= i < |es| => Pair(es[i]))
  }

  /** There is room for everything a load goes through. */
  ghost predicate RoomyLoad(st: Store, m: map<Bytes, Cell>, es: seq<Snapshots.Item>) {
    forall i :: 0 <= i <= |es| ==> st.Roomy(RangeScan.PutAll(m, Pairs(es[..i])))
  }

  /** Entries into the store, up to the first one refused. */
  method LoadItems(st: Store, es: seq<Snapshots.Item>, env: Env, ghost ideal: map<Bytes, Cell>, ghost before: Evicted)
    returns (ok: bool, ghost n: nat, ghost lost: Evicted)
    requires st.Valid() && Snapshots.AllFit(es) && Remains(st.view, ideal, before) && Allowed(st, before)
    modifies st, st.shards, st.Entries()
    ensures st.Valid() && (forall e :: e in st.Entries() ==> e in old(st.Entries()) || fresh(e))
    ensures n <= |es| && (ok <==> n == |es|)
    ensures Remains(st.view, RangeScan.PutAll(ideal, Pairs(es[..n])), lost) && Allowed(st, lost)
    ensures st.maxMemory <= 0 ==> ok
    ensures before == {} && RoomyLoad(st, ideal, es) ==> ok && lost == {}
  {
    hide Store.Valid, Store.Entries, Remains, RangeScan.PutAll, Pairs, Allowed, Store.Roomy;
    lost, n := before, 0;
    PairsNext(ideal, es, 0);
    for i := 0 to |es|
      invariant st.Valid() && (forall e :: e in st.Entries() ==> e in old(st.Entries()) || fresh(e)) && n == i
      invariant Remains(st.view, RangeScan.PutAll(ideal, Pairs(es[..i])), lost) && Allowed(st, lost)
      invariant before == {} && RoomyLoad(st, ideal, es) ==> lost == {}
    {
      PairsNext(ideal, es, i);
      ghost var gone;
      ok, lost, gone := SetWithin(st, es[i].key, es[i].value, es[i].expireAt, env.mono(i), env.rng(i),
                                  RangeScan.PutAll(ideal, Pairs(es[..i])), lost);
      if !ok {
        return;
      }
      n := n + 1;
    }
    ok := true;
  }

  lemma PairsNext(m: map<Bytes, Cell>, es: seq<Snapshots.Item>, i: nat)
    requires i <= |es|
    ensures i == 0 ==> RangeScan.PutAll(m, Pairs(es[..i])) == m
    ensures i < |es| ==>
      RangeScan.PutAll(m, Pairs(es[..i + 1])) ==
      RangeScan.PutAll(m, Pairs(es[..i]))[es[i].key := Cell(es[i].value, es[i].expireAt)]
  {
    if i < |es| {
      assert Pairs(es[..i + 1]) == Pairs(es[..i]) + [Pair(es[i])];
      RangeScan.PutAllJoin(m, Pairs(es[..i]), [Pair(es[i])]);
    }
  }

  // The newest snapshot

  /** How many entries of each file went into the store. */
  ghost predicate Taken(files: seq<Bytes>, taken: seq<nat>) {
    |taken| <= |files| && forall j :: 0 <= j < |taken| ==> taken[j] <= |Snapshots.LoadOf(files[j]).out|
  }

  ghost function Handed(files: seq<Bytes>, taken: seq<nat>): (r: seq<Snapshots.Item>)
    requires Taken(files, taken)
    decreases |taken|
  {
    if taken == [] then []
    else Handed(files, taken[..|taken| - 1]) + Snapshots.LoadOf(files[|taken| - 1]).out[..taken[|taken| - 1]]
  }

  /** Files refused before they delivered anything leave no trace. */
  lemma {:induction false} HandedLast(files: seq<Bytes>, taken: seq<nat>)
    requires Taken(files, taken) && taken != []
    requires forall j :: 0 <= j < |taken| - 1 ==> Snapshots.LoadOf(files[j]).out == []
    ensures Handed(files, taken) == Snapshots.LoadOf(files[|taken| - 1]).out[..taken[|taken| - 1]]
    decreases |taken|
  {
    hide Snapshots.LoadOf;
    if |taken| > 1 {
      HandedLast(files, taken[..|taken| - 1]);
    }
  }

  lemma HandedMore(files: seq<Bytes>, taken: seq<nat>, n: nat)
    requires Taken(files, taken) && |taken| < |files| && n <= |Snapshots.LoadOf(files[|taken|]).out|
    ensures Taken(files, taken + [n])
    ensures RangeScan.PutAll(map[], Pairs(Handed(files, taken + [n]))) ==
      RangeScan.PutAll(RangeScan.PutAll(map[], Pairs(Handed(files, taken))),
                       Pairs(Snapshots.LoadOf(files[|taken|]).out[..n]))
  {
    hide Snapshots.LoadOf, RangeScan.PutAll;
    var a, b := Handed(files, taken), Snapshots.LoadOf(files[|taken|]).out[..n];
    assert (taken + [n])[..|taken|] == taken;
    assert Pairs(a + b) == Pairs(a) + Pairs(b);
    RangeScan.PutAllJoin(map[], Pairs(a), Pairs(b));
  }

  /** File j was passed over: it is bad, or the memory limit refused one of its entries. */
  ghost predicate PassedOver(files: seq<Bytes>, taken: seq<nat>, j: nat)
    requires Taken(files, taken) && j < |taken|
  {
    Snapshots.LoadOf(files[j]).outcome.Bad? || taken[j] < |Snapshots.LoadOf(files[j]).out|
  }

  method ReadFile(st: Store, file: Bytes) returns (r: Snapshots.Loaded)
    requires st.Valid()
    ensures r == Snapshots.LoadOf(file) && Snapshots.AllFit(r.out)
    ensures st.Valid() && st.Entries() == old(st.Entries())
  {
    hide Holds, Slice, Store.Apart, Snapshots.LoadOf;
    Snapshots.LoadFits(file);
    r := Snapshots.Load(file);
  }

  /** Newest first, until a file loads without an entry being refused; what the files before it
      delivered stays in the store. */
  method LoadNewest(st: Store, files: seq<Bytes>, env: nat -> Env)
    returns (c: Snapshots.Choice, ghost taken: seq<nat>, ghost lost: Evicted)
    requires st.Valid() && st.view == map[]
    modifies st, st.shards, st.Entries()
    ensures st.Valid() && (forall e :: e in st.Entries() ==> e in old(st.Entries()) || fresh(e))
    ensures c.NoSnapshot? <==> files == []
    ensures Taken(files, taken) && |taken| == if c.Chosen? then c.index + 1 else |files|
    ensures Remains(st.view, RangeScan.PutAll(map[], Pairs(Handed(files, taken))), lost)
    ensures c.Chosen? ==>
      Snapshots.LoadOf(files[c.index]).outcome == Snapshots.Good(c.meta) && !PassedOver(files, taken, c.index)
    ensures forall j :: 0 <= j < |taken| && (c.Chosen? ==> j != c.index) ==> PassedOver(files, taken, j)
    ensures Allowed(st, lost)
    ensures st.maxMemory <= 0 ==> forall j :: 0 <= j < |taken| ==> taken[j] == |Snapshots.LoadOf(files[j]).out|
  {
    hide Store.Valid, Store.Entries, Remains, RangeScan.PutAll, Pairs, Handed, Snapshots.LoadOf, Allowed, RoomyLoad;
    taken, lost := [], {};
    NothingLost(st, map[]);
    NoneHanded(files);
    RemainsAll(st.view, map[]);
    for i := 0 to |files|
      invariant st.Valid() && (forall e :: e in st.Entries() ==> e in old(st.Entries()) || fresh(e))
      invariant |taken| == i && Taken(files, taken)
      invariant Remains(st.view, RangeScan.PutAll(map[], Pairs(Handed(files, taken))), lost)
      invariant forall j :: 0 <= j < i ==> PassedOver(files, taken, j)
      invariant Allowed(st, lost)
      invariant st.maxMemory <= 0 ==> forall j :: 0 <= j < i ==> taken[j] == |Snapshots.LoadOf(files[j]).out|
    {
      var r := ReadFile(st, files[i]);
      var ok;
      ghost var n;
      ghost var before := taken;
      ok, n, lost := LoadItems(st, r.out, env(i), RangeScan.PutAll(map[], Pairs(Handed(files, taken))), lost);
      HandedMore(files, taken, n);
      taken := taken + [n];
      assert forall j :: 0 <= j < i ==> taken[j] == before[j] && PassedOver(files, before, j);
      if ok && r.outcome.Good? {
        return Snapshots.Chosen(i, r.outcome.meta), taken, lost;
      }
    }
    c := if files == [] then Snapshots.NoSnapshot else Snapshots.AllBad;
  }

  lemma NoneHanded(files: seq<Bytes>)
    ensures Taken(files, []) && RangeScan.PutAll(map[], Pairs(Handed(files, []))) == map[]
  {
  }

  // Recovery

  datatype Report = Opened(snapshotLSN: nat, nextLSN: nat, expired: nat) | Failed

  lemma {:induction false} DeliveredReplayable(segs: seq<WalReplay.Segment>, minLSN: nat)
    ensures AllReplayable(WalReplay.Delivered(segs, minLSN))
  {
    if segs != [] {
      hide WalScan.ScanOf, WalRecord.Encodable;
      ScannedReplayable(segs[0].data, minLSN);
      DeliveredReplayable(segs[1..], minLSN);
    }
  }

  lemma ScannedReplayable(data: Bytes, minLSN: nat)
    ensures AllReplayable(WalReplay.Above(WalScan.ScanOf(data).records, minLSN))
  {
    hide WalScan.ScanOf, WalRecord.Encodable;
    var _ := WalScan.ScanOfSound(data);
    AboveReplayable(WalScan.ScanOf(data).records, minLSN);
  }

  lemma {:induction false} AboveReplayable(rs: seq<WalRecord.Record>, minLSN: nat)
    requires AllReplayable(rs)
    ensures AllReplayable(WalReplay.Above(rs, minLSN))
  {
    if rs != [] {
      AboveReplayable(rs[1..], minLSN);
    }
  }

  lemma RecoveredReplayable(segs: seq<WalReplay.Segment>, minLSN: nat, unsafeTruncate: bool)
    ensures var r := WalReplay.ReplayOf(segs, minLSN, unsafeTruncate); r.Recovered? ==> AllReplayable(r.applied)
  {
    hide WalScan.ScanOf, WalRecord.Encodable, WalReplay.Highest;
    if segs != [] {
      var n := WalReplay.LastRead(segs);
      DeliveredReplayable(segs[..n], minLSN);
      ScannedReplayable(segs[n].data, minLSN);
    }
  }

  /** The log above the snapshot, and then the keys that died meanwhile. */
  method RecoverLog(st: Store, dir: WalReplay.Directory, lsn: nat, unsafeTruncate: bool, clock: nat -> nat, end: nat,
                    env: Env)
    returns (rep: Report, ghost applied: seq<WalRecord.Record>, ghost lost: Evicted)
    requires st.Valid()
    modifies st, st.shards, st.Entries(), dir
    ensures st.Valid()
    ensures WalReplay.ReplayOf(old(dir.segs), lsn, unsafeTruncate).Refused? ==> rep.Failed?
    ensures Allowed(st, lost)
    ensures st.maxMemory <= 0 ==> (rep.Failed? <==> WalReplay.ReplayOf(old(dir.segs), lsn, unsafeTruncate).Refused?)
    ensures AllReplayable(applied) && (RoomyReplay(st, old(st.view), applied, clock) ==>
      lost == {} && (rep.Failed? <==> WalReplay.ReplayOf(old(dir.segs), lsn, unsafeTruncate).Refused?))
    ensures rep.Opened? ==>
      && rep.snapshotLSN == lsn < rep.nextLSN
      && Remains(st.view, Live(Recovery.Replayed(old(st.view), Steps(applied), clock, 0), end), lost)
      && var log := WalReplay.ReplayOf(old(dir.segs), lsn, unsafeTruncate);
         applied == log.applied && rep.nextLSN == log.nextLSN
  {
    hide Store.Valid, WalReplay.ReplayOf, Recovery.Replayed, Live, Steps, Remains, Allowed, RoomyReplay;
    applied, lost := [], {};
    NothingLost(st, map[]);
    assert forall s :: s in st.shards ==> s as object != dir;
    assert forall e :: e in st.Entries() ==> e as object != dir;
    var res := WalReplay.Replay(dir, lsn, unsafeTruncate);
    RecoveredReplayable(old(dir.segs), lsn, unsafeTruncate);
    if res.Refused? {
      return Failed, applied, lost;
    }
    applied := res.applied;
    WalReplay.NextLSNIsFresh(old(dir.segs), lsn, unsafeTruncate);
    var ok;
    ok, lost := ApplyRecords(st, res.applied, clock, env);
    if !ok {
      return Failed, applied, lost;
    }
    RemainsLive(st.view, Recovery.Replayed(old(st.view), Steps(applied), clock, 0), lost, end);
    var expired := st.PurgeExpired(end);
    rep := Opened(lsn, res.nextLSN, expired);
  }

  /** Where the log takes over. */
  function StartLSN(c: Snapshots.Choice): (lsn: nat) {
    if c.Chosen? then c.meta.lsn else 0
  }

  /** The snapshot's entries with the log replayed over them, without what has died by then. */
  ghost function Restored(files: seq<Bytes>, taken: seq<nat>, applied: seq<WalRecord.Record>, clock: nat -> nat,
                          end: nat): (r: map<Bytes, Cell>)
    requires Taken(files, taken) && AllReplayable(applied)
  {
    Live(Recovery.Replayed(RangeScan.PutAll(map[], Pairs(Handed(files, taken))), Steps(applied), clock, 0), end)
  }

  /** Start-up: the newest snapshot that loads, and what the log has on top of it. */
  method Recover(st: Store, files: seq<Bytes>, dir: WalReplay.Directory, unsafeTruncate: bool, clock: nat -> nat,
                 end: nat, env: nat -> Env)
    returns (rep: Report, ghost c: Snapshots.Choice, ghost taken: seq<nat>, ghost applied: seq<WalRecord.Record>,
             ghost lost: Evicted)
    requires st.Valid() && st.view == map[]
    modifies st, st.shards, st.Entries(), dir
    ensures st.Valid()
    ensures c.NoSnapshot? <==> files == []
    ensures Taken(files, taken) && |taken| == if c.Chosen? then c.index + 1 else |files|
    ensures c.Chosen? ==>
      Snapshots.LoadOf(files[c.index]).outcome == Snapshots.Good(c.meta) && !PassedOver(files, taken, c.index)
    ensures forall j :: 0 <= j < |taken| && (c.Chosen? ==> j != c.index) ==> PassedOver(files, taken, j)
    ensures Allowed(st, lost)
    ensures st.maxMemory <= 0 ==>
      && (forall j :: 0 <= j < |taken| ==> taken[j] == |Snapshots.LoadOf(files[j]).out|)
      && (rep.Failed? <==> c.AllBad? || WalReplay.ReplayOf(old(dir.segs), StartLSN(c), unsafeTruncate).Refused?)
    ensures rep.Opened? ==>
      && !c.AllBad? && rep.snapshotLSN == StartLSN(c) && AllReplayable(applied)
      && Remains(st.view, Restored(files, taken, applied, clock, end), lost)
      && var log := WalReplay.ReplayOf(old(dir.segs), rep.snapshotLSN, unsafeTruncate);
         log.Recovered? && applied == log.applied && rep.nextLSN == log.nextLSN > rep.snapshotLSN
  {
    hide Store.Valid, Snapshots.LoadOf, WalReplay.ReplayOf, Recovery.Replayed, RangeScan.PutAll, Live, Steps, Remains,
      Handed, Pairs, PassedOver, Allowed, RoomyReplay;
    applied := [];
    assert forall s :: s in st.shards ==> s as object != dir;
    assert forall e :: e in st.Entries() ==> e as object != dir;
    var choice;
    choice, taken, lost := LoadNewest(st, files, env);
    c := choice;
    if choice.AllBad? {
      return Failed, c, taken, applied, lost;
    }

    ghost var view, snap := st.view, RangeScan.PutAll(map[], Pairs(Handed(files, taken)));
    ghost var more;
    rep, applied, more := RecoverLog(st, dir, StartLSN(choice), unsafeTruncate, clock, end, env(|files|));
    if rep.Opened? {
      RemainsReplayed(view, snap, lost, Steps(applied), clock, 0);
      RemainsLive(Recovery.Replayed(view, Steps(applied), clock, 0), Recovery.Replayed(snap, Steps(applied), clock, 0),
                  lost, end);
      RemainsTwice(st.view, Live(Recovery.Replayed(view, Steps(applied), clock, 0), end),
                   Restored(files, taken, applied, clock, end), more, lost);
    }
    AllowedBoth(st, lost, more);
    lost := lost + more;
  }

  lemma {:induction false} RemainsReplayed(a: map<Bytes, Cell>, b: map<Bytes, Cell>, lost: Evicted,
                                           steps: seq<Recovery.Step>, clock: nat -> nat, i: nat)
    requires Remains(a, b, lost)
    ensures Remains(Recovery.Replayed(a, steps, clock, i), Recovery.Replayed(b, steps, clock, i), lost)
    decreases |steps|
  {
    hide Remains, RefAfter;
    if steps != [] {
      if steps[0].Reclaim? {
        RemainsReplayed(a, b, lost, steps[1..], clock, Recovery.Tick(i, steps[0]));
      } else {
        RemainsAfter(a, b, lost, steps[0].op, clock(i));
        RemainsReplayed(RefAfter(a, steps[0].op, clock(i)), RefAfter(b, steps[0].op, clock(i)), lost, steps[1..], clock,
                        Recovery.Tick(i, steps[0]));
      }
    }
  }

  /** What `Recover` leaves in the store is the live keyspace of the run whose log it replayed,
      exactly when no live key's EXPIRE is replayed over a deadline already passed. */
  lemma RecoveredKeyspaceIff(run: seq<Recovery.Step>, l: nat, p: Bytes -> nat, items: seq<Snapshots.Item>,
                             applied: seq<WalRecord.Record>,
                             seen: nat, clock: nat -> nat, start: nat, end: nat)
    requires Recovery.Suffix(run, clock, start) && l <= |run| && seen <= start <= end
    requires Recovery.Fuzzy(RangeScan.PutAll(map[], Pairs(items)), run, l, p, seen)
    requires AllReplayable(applied) && Recovery.Logged(Steps(applied)) == Recovery.Logged(run[l..])
    ensures Live(Recovery.Replayed(RangeScan.PutAll(map[], Pairs(items)), Steps(applied), clock, 0), end) ==
            Live(Recovery.Memory(map[], run), end) <==>
            forall k :: k in Live(Recovery.Memory(map[], run), end) ==> Recovery.KeyAhead(run, l, p, clock, k)
  {
    hide Recovery.Memory, Recovery.Replayed, Recovery.KeyAhead, RangeScan.PutAll, Live, Recovery.Logged, Steps;
    var snap := RangeScan.PutAll(map[], Pairs(items));
    Recovery.SameLogSameReplay(snap, Steps(applied), run[l..], clock);
    Recovery.RecoveryIff(run, l, p, snap, seen, clock, start, end);
  }

  // Checkpoints

  function Itemised(x: RangeScan.Emission): (e: Snapshots.Item) {
    Snapshots.Item(x.0, x.1.value, x.1.expireAt)
  }

  ghost predicate Storable(es: seq<RangeScan.Emission>) {
    forall i :: 0 <= i < |es| ==> Snapshots.Fits(Itemised(es[i]))
  }

  /** Emissions into a snapshot file. */
  method WriteOut(out: seq<RangeScan.Emission>, m: Snapshots.Meta) returns (ok: bool, file: Bytes, count: nat)
    requires m.Fits() && forall x :: x in out ==> x.1.expireAt < U64
    ensures ok && count < U64 ==> Snapshots.LoadOf(file).outcome == Snapshots.Good(m)
    ensures ok && count < U64 ==> Pairs(Snapshots.LoadOf(file).out) == out
    ensures Storable(out) ==> ok
  {
    hide Snapshots.LoadOf, Snapshots.File, Snapshots.Head, Snapshots.EncodeItems;
    var w := new Snapshots.Writer(m);
    for i := 0 to |out|
      invariant w.Valid() && !w.closed && fresh(w) && w.meta == m && |w.items| == i
      invariant forall j :: 0 <= j < i ==> w.items[j] == Itemised(out[j])
    {
      assert out[i] in out;
      ok := w.Add(Itemised(out[i]));
      if !ok {
        return false, [], 0;
      }
    }
    count := w.count;
    ok := w.Commit();
    file := w.file;
    assert Pairs(w.items) == out;
    if count < U64 {
      Snapshots.LoadInvertsFile(m, [0, 0, 0, 0], w.items);
    }
  }

  /** A checkpoint of a store nobody writes to: unless a key or value is too long for the format,
      the file loads, and storing its entries rebuilds the live keyspace. */
  method Snapshot(st: Store, m: Snapshots.Meta, nowMs: nat) returns (ok: bool, file: Bytes, count: nat)
    requires st.Valid() && m.Fits() && forall k :: k in st.view ==> st.view[k].expireAt < U64
    ensures ok && count < U64 ==> Snapshots.LoadOf(file).outcome == Snapshots.Good(m)
    ensures ok && count < U64 ==> RangeScan.PutAll(map[], Pairs(Snapshots.LoadOf(file).out)) == Live(st.view, nowMs)
    ensures (forall k :: k in st.view ==>
      Snapshots.Fits(Snapshots.Item(k, st.view[k].value, st.view[k].expireAt))) ==> ok
  {
    hide Store.Valid, Snapshots.LoadOf, RangeScan.PutAll, Live, Pairs;
    var out := st.Range(nowMs);
    ok, file, count := WriteOut(out, m);
  }

  /** Such a checkpoint, taken after l steps, shows every key as it was then. */
  lemma SnapshotAtRestIsFuzzy(view: map<Bytes, Cell>, run: seq<Recovery.Step>, l: nat, items: seq<Snapshots.Item>,
                              seen: nat)
    requires l <= |run| && view == Recovery.Memory(map[], run[..l])
    requires RangeScan.PutAll(map[], Pairs(items)) == Live(view, seen)
    ensures Recovery.Fuzzy(RangeScan.PutAll(map[], Pairs(items)), run, l, _ => l, seen)
  {
    hide Recovery.Memory, RangeScan.PutAll, Pairs, Live;
    forall k ensures Recovery.At(Live(view, seen), k) == Recovery.Visible(Recovery.At(view, k), seen) {
      Recovery.LiveIsVisible(view, seen, k);
    }
  }

  /** A checkpoint with writes and reclaims landing between the batches: the file loads, and as long
      as no entry left a slot already passed it shows every key as it was at some point since the
      scan began. */
  method SnapshotAmidWrites(st: Store, m: Snapshots.Meta, nowMs: nat, groups: seq<seq<Recovery.Step>>,
                            ghost run0: seq<Recovery.Step>)
    returns (ok: bool, file: Bytes, count: nat, ghost run: seq<Recovery.Step>, ghost parts: seq<Checkpoints.Part>,
             ghost p: Bytes -> nat)
    requires st.Valid() && st.maxMemory <= 0 && m.Fits() && st.view == Recovery.Memory(map[], run0)
    requires Checkpoints.Wide(run0)
    requires forall g :: g in groups ==> LiveCheckpoints.AllWritable(g) && Checkpoints.Wide(g)
    modifies st, st.shards, st.Entries()
    ensures st.Valid() && st.view == Recovery.Memory(map[], run) && run0 <= run
    ensures ok && count < U64 ==> Snapshots.LoadOf(file).outcome == Snapshots.Good(m)
    ensures ok && count < U64 && Checkpoints.AllSteady(parts) ==>
      Recovery.Fuzzy(RangeScan.PutAll(map[], Pairs(Snapshots.LoadOf(file).out)), run, |run0|, p, nowMs)
    ensures LiveCheckpoints.Calm(old(st.view), groups) ==> Checkpoints.AllSteady(parts)
  {
    hide Holds, Slice, Store.Apart, Snapshots.LoadOf, RangeScan.PutAll, Pairs, Recovery.Memory, Recovery.Fuzzy,
      LiveCheckpoints.Calm, Checkpoints.Wide, Checkpoints.Genuine, Storable, Checkpoints.AllSteady,
      LiveCheckpoints.AllWritable, Checkpoints.Scanned, Checkpoints.AllBounded, Checkpoints.All, LiveCheckpoints.Home;
    var out, used;
    out, used, run, parts, p := LiveCheckpoints.Take(st, groups, nowMs, run0);
    LiveCheckpoints.RanWide(run0, groups, used);
    Checkpoints.GenuineWide(out, run);
    ok, file, count := WriteOut(out, m);
  }

  /** From the batches of a checkpoint to the keyspace after recovery: if no entry leaves a slot the
      scan has passed, what `Recover` makes of the file and the log above it is the live keyspace
      of the run, exactly when no live key's EXPIRE is replayed over a deadline already passed. */
  lemma CheckpointedKeyspaceIff(parts: seq<Checkpoints.Part>, home: Bytes -> nat, run: seq<Recovery.Step>, l: nat,
                                items: seq<Snapshots.Item>, applied: seq<WalRecord.Record>,
                                seen: nat, clock: nat -> nat, start: nat, end: nat) returns (p: Bytes -> nat)
    requires Checkpoints.Scanned(parts, run, l, home) && Checkpoints.AllSteady(parts) && forall k :: home(k) < |parts|
    requires Checkpoints.AllBounded(parts)
    requires Pairs(items) == Checkpoints.All(parts, seen)
    requires Recovery.Suffix(run, clock, start) && l <= |run| && seen <= start <= end
    requires AllReplayable(applied) && Recovery.Logged(Steps(applied)) == Recovery.Logged(run[l..])
    ensures Recovery.Fuzzy(RangeScan.PutAll(map[], Pairs(items)), run, l, p, seen)
    ensures Live(Recovery.Replayed(RangeScan.PutAll(map[], Pairs(items)), Steps(applied), clock, 0), end) ==
            Live(Recovery.Memory(map[], run), end) <==>
            forall k :: k in Live(Recovery.Memory(map[], run), end) ==> Recovery.KeyAhead(run, l, p, clock, k)
  {
    hide Recovery.Memory, Recovery.Replayed, Recovery.KeyAhead, RangeScan.PutAll, Live, Recovery.Logged, Steps, Pairs,
      Checkpoints.All, Checkpoints.Scanned, Checkpoints.AllBounded, Checkpoints.AllSteady, Recovery.Suffix;
    p := Checkpoints.CheckpointIsFuzzy(parts, run, l, home, seen);
    RecoveredKeyspaceIff(run, l, p, items, applied, seen, clock, start, end);
  }
}
