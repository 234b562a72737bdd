/** From any run of the log's step system, cut by a crash, to what start-up puts in the store. */
module CrashRecovery {
  import opened Bytes
  import opened MemoryLimit
  import opened Stores
  import opened Expiry
  import opened Recovery
  import opened References
  import opened Shards
  import Engine
  import Snapshots
  import WalRecord
  import WalReplay
  import WalWriter

  /** The newest file that loads is a snapshot at lsn, or there is no file and lsn is 0. */
  ghost predicate NewestIs(files: seq<Bytes>, i: nat, lsn: nat) {
    if files == [] then lsn == 0
    else
      && i < |files| && Snapshots.LoadOf(files[i]).outcome.Good?
      && Snapshots.LoadOf(files[i]).outcome.meta.lsn == lsn
      && forall j :: 0 <= j < i ==> Snapshots.LoadOf(files[j]).outcome.Bad?
  }

  lemma ChosenIs(files: seq<Bytes>, i: nat, lsn: nat, c: Snapshots.Choice, taken: seq<nat>)
    requires NewestIs(files, i, lsn) && Engine.Taken(files, taken)
    requires c.NoSnapshot? <==> files == []
    requires |taken| == if c.Chosen? then c.index + 1 else |files|
    requires c.Chosen? ==> Snapshots.LoadOf(files[c.index]).outcome == Snapshots.Good(c.meta)
    requires forall j :: 0 <= j < |taken| && (c.Chosen? ==> j != c.index) ==> Engine.PassedOver(files, taken, j)
    requires forall j :: 0 <= j < |taken| ==> taken[j] == |Snapshots.LoadOf(files[j]).out|
    ensures !c.AllBad? && Engine.StartLSN(c) == lsn && (c.Chosen? ==> c.index == i)
  {
    hide Snapshots.LoadOf;
    forall j | 0 <= j < |taken| && (c.Chosen? ==> j != c.index) ensures Snapshots.LoadOf(files[j]).outcome.Bad? {
      assert Engine.PassedOver(files, taken, j);
    }
  }

  /** After any run, cut at any moment, on the segments the crash has left: start-up succeeds, and
      the store holds the snapshot with the log replayed over it up to some point at or past every
      acknowledged write, less what has died. */
  method Reopen(ghost c: WalWriter.Config, ghost events: seq<WalWriter.Event>, st: Store, files: seq<Bytes>,
                ghost i: nat, dir: WalReplay.Directory, clock: nat -> nat, end: nat, env: nat -> Env)
    returns (rep: Engine.Report, ghost k: nat, ghost taken: seq<nat>)
    requires WalWriter.ValidConfig(c) && WalWriter.Run(c, WalWriter.Init(), events)
    requires WalWriter.After(c, WalWriter.Init(), events).phase == WalWriter.Down
    requires dir.segs == WalWriter.Segments(WalWriter.After(c, WalWriter.Init(), events).disk)
    requires NewestIs(files, i, WalWriter.After(c, WalWriter.Init(), events).snap)
    requires st.Valid() && st.view == map[] && st.maxMemory <= 0
    modifies st, st.shards, st.Entries(), dir
    ensures st.Valid() && rep.Opened? && Engine.Taken(files, taken)
    ensures |taken| == if files == [] then 0 else i + 1
    ensures forall j :: 0 <= j < |taken| ==> taken[j] == |Snapshots.LoadOf(files[j]).out|
    ensures var s := WalWriter.After(c, WalWriter.Init(), events);
            && rep.snapshotLSN == s.snap <= k && s.acked <= k <= |s.log| && rep.nextLSN == k + 1
            && Engine.AllReplayable(s.log[s.snap..k])
            && st.view == Engine.Restored(files, taken, s.log[s.snap..k], clock, end)
  {
    hide Store.Valid, WalWriter.Run, WalWriter.After, WalWriter.Segments, WalReplay.ReplayOf, Engine.Restored,
      NewestIs, Engine.PassedOver, Snapshots.LoadOf, Remains;
    ghost var s := WalWriter.After(c, WalWriter.Init(), events);
    k := WalWriter.Durability(c, events);
    ghost var choice, applied, lost;
    rep, choice, taken, applied, lost := Engine.Recover(st, files, dir, false, clock, end, env);
    ChosenIs(files, i, s.snap, choice, taken);
    RemainsAll(st.view, Engine.Restored(files, taken, applied, clock, end));
  }

  // What an acknowledged write has left in the store

  lemma {:induction false} LoggedJoin(a: seq<Step>, b: seq<Step>)
    ensures Logged(a + b) == Logged(a) + Logged(b)
    decreases |a|
  {
    if a == [] {
      assert a + b == b;
    } else {
      var first := if a[0].Do? then [a[0].op] else [];
      JoinTail(a, b);
      LoggedJoin(a[1..], b);
      JoinAssoc(first, Logged(a[1..]), Logged(b));
    }
  }

  /** A run can be cut anywhere in its log. */
  lemma {:induction false} CutAt(run: seq<Step>, n: nat) returns (cut: nat)
    requires n <= |Logged(run)|
    ensures cut <= |run| && |Logged(run[..cut])| == n
    decreases |run|
  {
    if n == 0 {
      cut := 0;
    } else {
      var first := if run[0].Do? then 1 else 0;
      var rest := CutAt(run[1..], n - first);
      cut := rest + 1;
      assert run[..cut][1..] == run[1..][..rest];
    }
  }

  /** What is replayed is the part of the run between the snapshot's place in the log and the cut. */
  lemma CutOfLog(run: seq<Step>, l: nat, log: seq<WalRecord.Record>, snap: nat, k: nat) returns (cut: nat)
    requires Engine.AllReplayable(log) && Logged(run) == Logged(Engine.Steps(log)) && snap <= k <= |log|
    requires l <= |run| && |Logged(run[..l])| == |Logged(Engine.Steps(log[..snap]))|
    ensures l <= cut <= |run| && Logged(run[l..cut]) == Logged(Engine.Steps(log[snap..k]))
  {
    hide Logged, Engine.Steps, WalRecord.Encodable;
    var mid := Engine.Steps(log[snap..k]);
    assert log == log[..snap] + (log[snap..k] + log[k..]) && run == run[..l] + run[l..];
    Engine.StepsJoin(log[snap..k], log[k..]);
    Engine.StepsJoin(log[..snap], log[snap..k] + log[k..]);
    LoggedJoin(Engine.Steps(log[..snap]), Engine.Steps(log[snap..k] + log[k..]));
    LoggedJoin(mid, Engine.Steps(log[k..]));
    LoggedJoin(run[..l], run[l..]);
    assert Logged(run[l..]) == Logged(run)[|Logged(run[..l])|..];
    assert Logged(run[l..]) == Logged(mid) + Logged(Engine.Steps(log[k..]));
    var c := CutAt(run[l..], |Logged(mid)|);
    assert run[l..] == run[l..][..c] + run[l..][c..] && run[l..][..c] == run[l..l + c];
    LoggedJoin(run[l..][..c], run[l..][c..]);
    cut := l + c;
    assert Logged(run[l..cut]) == Logged(run[l..])[..|Logged(mid)|];
  }

  /** One key after start-up, from a snapshot that shows it as it was after q steps of the run whose
      log this is: under the EXPIRE condition as memory had it where the log ends, if it was shown by
      then or what is replayed sets or deletes it; otherwise the value shown with the last deadline
      replayed. */
  lemma ReopenedKey(run: seq<Step>, l: nat, q: nat, snap: map<Bytes, Cell>, seen: nat, applied: seq<WalRecord.Record>,
                    cut: nat, clock: nat -> nat, start: nat, end: nat, key: Bytes)
    requires Suffix(run, clock, start) && l <= cut <= |run| && l <= q <= |run| && seen <= start <= end
    requires At(snap, key) == Visible(At(Memory(map[], run[..q]), key), seen)
    requires Engine.AllReplayable(applied) && Logged(run[l..cut]) == Logged(Engine.Steps(applied))
    ensures var memory := Memory(map[], run[..cut]);
            var view := Live(Replayed(snap, Engine.Steps(applied), clock, 0), end);
            q <= cut || Reset(run[l..cut], key) ==>
              (At(view, key) == Visible(At(memory, key), end) <==>
               Gone(At(memory, key), end) || Ahead(At(Memory(map[], run[..q]), key), run[l..cut], key, clock, 0))
    ensures var view := Live(Replayed(snap, Engine.Steps(applied), clock, 0), end);
            !Reset(run[l..cut], key) ==>
              At(view, key) == Visible(Redated(At(Memory(map[], run[..q]), key), run[l..cut], key, clock), end)
  {
    hide Memory, Replayed, Live, Logged, Engine.Steps, Reset, Ahead, Redated, Suffix;
    SameLogSameReplay(snap, Engine.Steps(applied), run[l..cut], clock);
    LiveIsVisible(Replayed(snap, run[l..cut], clock, 0), end, key);
    CutOffKey(run, l, cut, q, snap, seen, clock, start, end, key);
  }

  /** The cell a SET or a DELETE leaves. */
  function Left(op: Op): (c: Maybe) {
    if op.Set? then Some(Cell(op.value, op.expireAt)) else None
  }

  /** Step t is the last of the run to touch the key, and sets or deletes it. */
  ghost predicate LastWord(run: seq<Step>, t: nat, key: Bytes) {
    && t < |run| && Touches(run[t], key) && (run[t].op.Set? || run[t].op.Delete?)
    && forall j :: t < j < |run| ==> !Touches(run[j], key)
  }

  /** Memory at any point after the last word has what it left, unless that has died. */
  lemma MemoryAfter(run: seq<Step>, t: nat, q: nat, key: Bytes, start: nat)
    requires LastWord(run, t, key) && t < q <= |run| && Before(run, start)
    ensures Weak(At(Memory(map[], run[..q]), key), Left(run[t].op), start)
  {
    hide Memory, Lived;
    var a, b := run[..t], run[t + 1..q];
    assert run[..q] == a + ([run[t]] + b);
    MemoryAt(map[], run[..q], key);
    LivedJoin(None, a, [run[t]] + b, key);
    LivedJoin(Lived(None, a, key), [run[t]], b, key);
    LivedOne(Lived(None, a, key), run[t], key);
    LivedOn(Left(run[t].op), b, key, start);
  }

  lemma LivedOne(c: Maybe, s: Step, key: Bytes)
    requires Touches(s, key) && (s.op.Set? || s.op.Delete?)
    ensures Lived(c, [s], key) == Left(s.op)
  {
    assert [s][1..] == [];
  }

  /** Replay past the last word ends with what it left. */
  lemma {:induction false} RedoneLast(c: Maybe, steps: seq<Step>, t: nat, key: Bytes, clock: nat -> nat, i: nat)
    requires LastWord(steps, t, key)
    ensures Redone(c, steps, key, clock, i) == Left(steps[t].op)
    decreases |steps|
  {
    if t == 0 {
      Untouched(Left(steps[0].op), steps[1..], key, clock, Tick(i, steps[0]));
    } else {
      var next := if Touches(steps[0], key) then Once(c, steps[0].op, clock(i)) else c;
      RedoneLast(next, steps[1..], t - 1, key, clock, Tick(i, steps[0]));
    }
  }

  /** An acknowledged SET or DELETE that no later write touches, logged before the cut, is what start-up
      leaves for its key: the very cell, unless it has died, whether the snapshot shows it or the log
      has it. */
  lemma AcknowledgedIsThere(run: seq<Step>, l: nat, q: nat, snap: map<Bytes, Cell>, seen: nat,
                            applied: seq<WalRecord.Record>, cut: nat, clock: nat -> nat, start: nat, end: nat,
                            key: Bytes, t: nat)
    requires Suffix(run, clock, start) && l <= cut <= |run| && l <= q <= |run| && seen <= start <= end
    requires At(snap, key) == Visible(At(Memory(map[], run[..q]), key), seen)
    requires Engine.AllReplayable(applied) && Logged(run[l..cut]) == Logged(Engine.Steps(applied))
    requires LastWord(run, t, key) && t < cut
    ensures At(Live(Replayed(snap, Engine.Steps(applied), clock, 0), end), key) == Visible(Left(run[t].op), end)
  {
    hide Memory, Replayed, Live, Logged, Engine.Steps, Redone;
    var tail := run[l..cut];
    SameLogSameReplay(snap, Engine.Steps(applied), tail, clock);
    LiveIsVisible(Replayed(snap, tail, clock, 0), end, key);
    ReplayedAt(snap, tail, key, clock, 0);
    if t >= l {
      assert tail[t - l] == run[t];
      RedoneLast(At(snap, key), tail, t - l, key, clock, 0);
    } else {
      Untouched(At(snap, key), tail, key, clock, 0);
      MemoryAfter(run, t, q, key, start);
    }
  }

  /** A log of writes has one step per record. */
  lemma {:induction false} OnePerRecord(log: seq<WalRecord.Record>)
    requires Engine.AllReplayable(log) && forall i :: 0 <= i < |log| ==> log[i].kind != WalRecord.SEGMENT_HDR
    ensures |Logged(Engine.Steps(log))| == |log|
    decreases |log|
  {
    hide WalRecord.Encodable;
    if log != [] {
      var rest := Engine.Steps(log[1..]);
      OnePerRecord(log[1..]);
      assert ([Do(Engine.OpOf(log[0]), 0)] + rest)[1..] == rest;
    }
  }

  lemma NumberedReplayable(log: seq<WalRecord.Record>)
    requires WalWriter.Numbered(log)
    ensures Engine.AllReplayable(log) && forall i :: 0 <= i < |log| ==> log[i].kind != WalRecord.SEGMENT_HDR
  {
    hide WalRecord.Encodable;
  }

  lemma LoggedBefore(run: seq<Step>, a: nat, b: nat)
    requires a <= b <= |run|
    ensures |Logged(run[..a])| + |Logged(run[a..b])| == |Logged(run[..b])|
  {
    hide Logged;
    assert run[..b] == run[..a] + run[a..b];
    LoggedJoin(run[..a], run[a..b]);
  }

  /** The whole way: record n of the log was acknowledged, so the log that survives any crash has it;
      memory's run has this log, the snapshot shows memory since its place in the log, and no later
      write touches the key. Then start-up leaves what record n wrote, unless it has died. */
  lemma AcknowledgedSurvives(run: seq<Step>, l: nat, p: Bytes -> nat, shown: map<Bytes, Cell>, seen: nat,
                             log: seq<WalRecord.Record>, snap: nat, acked: nat, k: nat,
                             clock: nat -> nat, start: nat, end: nat, key: Bytes, t: nat)
    requires WalWriter.Numbered(log) && Engine.AllReplayable(log) && Logged(run) == Logged(Engine.Steps(log))
    requires l <= |run| && |Logged(run[..l])| == snap <= k && acked <= k <= |log|
    requires Suffix(run, clock, start) && seen <= start <= end && Fuzzy(shown, run, l, p, seen)
    requires LastWord(run, t, key) && t < |run| && |Logged(run[..t])| < acked
    ensures Engine.AllReplayable(log[snap..k])
    ensures At(Live(Replayed(shown, Engine.Steps(log[snap..k]), clock, 0), end), key) == Visible(Left(run[t].op), end)
  {
    hide Logged, Engine.Steps, WalWriter.Numbered, Suffix, LastWord, Memory, Live, Replayed, WalRecord.Encodable;
    NumberedReplayable(log);
    OnePerRecord(log[..snap]);
    OnePerRecord(log[snap..k]);
    var cut := CutOfLog(run, l, log, snap, k);
    LoggedBefore(run, l, cut);
    if cut <= t {
      LoggedBefore(run, cut, t);
    }
    AcknowledgedIsThere(run, l, p(key), shown, seen, log[snap..k], cut, clock, start, end, key, t);
  }
}
