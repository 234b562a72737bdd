/** Recovery: a snapshot scanned while writers go on, and the log above it replayed by the
    recovery clock, against the memory they stand for. */
module Recovery {
  import opened Bytes
  import opened Shards
  import opened Expiry
  import opened References
  import opened RangeScan

  /** What happens to memory, in order: a logged write at its own clock reading, or keys that
      are dead at some reading being reclaimed, which nobody logs. */
  datatype Step =
    | Do(op: Op, at: nat)
    | Reclaim(gone: set<Bytes>, at: nat)

  datatype Maybe = None | Some(cell: Cell)

  function At(m: map<Bytes, Cell>, k: Bytes): (r: Maybe) {
    if k in m then Some(m[k]) else None
  }

  predicate Gone(c: Maybe, now: nat) {
    c.None? || c.cell.Expired(now)
  }

  function Visible(c: Maybe, now: nat): (r: Maybe) {
    if Gone(c, now) then None else c
  }

  // Whole keyspaces

  ghost function After(m: map<Bytes, Cell>, s: Step): (r: map<Bytes, Cell>) {
    match s
    case Do(op, at) => RefAfter(m, op, at)
    case Reclaim(gone, at) => m - (gone * Dead(m, at))
  }

  ghost function Memory(m: map<Bytes, Cell>, steps: seq<Step>): (r: map<Bytes, Cell>)
    decreases |steps|
  {
    if steps == [] then m else Memory(After(m, steps[0]), steps[1..])
  }

  /** The position in the log of the record after s. */
  function Tick(i: nat, s: Step): (r: nat) {
    if s.Do? then i + 1 else i
  }

  function Ticks(i: nat, steps: seq<Step>): (r: nat)
    decreases |steps|
  {
    if steps == [] then i else Ticks(Tick(i, steps[0]), steps[1..])
  }

  /** Replay applies the logged writes only, each at the recovery clock's reading. */
  ghost function Replayed(m: map<Bytes, Cell>, steps: seq<Step>, clock: nat -> nat, i: nat): (r: map<Bytes, Cell>)
    decreases |steps|
  {
    if steps == [] then m
    else if steps[0].Reclaim? then Replayed(m, steps[1..], clock, Tick(i, steps[0]))
    else Replayed(RefAfter(m, steps[0].op, clock(i)), steps[1..], clock, Tick(i, steps[0]))
  }

  lemma {:induction false} ReplayedJoin(m: map<Bytes, Cell>, a: seq<Step>, b: seq<Step>, clock: nat -> nat, i: nat)
    ensures Replayed(m, a + b, clock, i) == Replayed(Replayed(m, a, clock, i), b, clock, Ticks(i, a))
    ensures Ticks(i, a + b) == Ticks(Ticks(i, a), b)
    decreases |a|
  {
    hide RefAfter;
    if a == [] {
      assert a + b == b;
    } else {
      assert (a + b)[1..] == a[1..] + b;
      var next := if a[0].Reclaim? then m else RefAfter(m, a[0].op, clock(i));
      ReplayedJoin(next, a[1..], b, clock, Tick(i, a[0]));
    }
  }

  // The same, one key at a time

  predicate Touches(s: Step, k: Bytes) {
    s.Do? && s.op.key == k
  }

  function Once(c: Maybe, op: Op, now: nat): (r: Maybe) {
    match op
    case Set(_, v, d) => Some(Cell(v, d))
    case Delete(_) => None
    case Expire(_, d) => if Gone(c, now) then None else Some(Cell(c.cell.value, d))
    case _ => Visible(c, now)
  }

  function Lived(c: Maybe, steps: seq<Step>, k: Bytes): (r: Maybe)
    decreases |steps|
  {
    if steps == [] then c else Lived(LivedOnce(c, steps[0], k), steps[1..], k)
  }

  function LivedOnce(c: Maybe, s: Step, k: Bytes): (r: Maybe) {
    if Touches(s, k) then Once(c, s.op, s.at)
    else if s.Reclaim? && k in s.gone then Visible(c, s.at)
    else c
  }

  function Redone(c: Maybe, steps: seq<Step>, k: Bytes, clock: nat -> nat, i: nat): (r: Maybe)
    decreases |steps|
  {
    if steps == [] then c
    else if Touches(steps[0], k) then Redone(Once(c, steps[0].op, clock(i)), steps[1..], k, clock, Tick(i, steps[0]))
    else Redone(c, steps[1..], k, clock, Tick(i, steps[0]))
  }

  lemma {:induction false} MemoryAt(m: map<Bytes, Cell>, steps: seq<Step>, k: Bytes)
    ensures At(Memory(m, steps), k) == Lived(At(m, k), steps, k)
    decreases |steps|
  {
    if steps != [] {
      MemoryAt(After(m, steps[0]), steps[1..], k);
    }
  }

  lemma {:induction false} ReplayedAt(m: map<Bytes, Cell>, steps: seq<Step>, k: Bytes, clock: nat -> nat, i: nat)
    ensures At(Replayed(m, steps, clock, i), k) == Redone(At(m, k), steps, k, clock, i)
    decreases |steps|
  {
    if steps != [] {
      var next := if steps[0].Do? then RefAfter(m, steps[0].op, clock(i)) else m;
      ReplayedAt(next, steps[1..], k, clock, Tick(i, steps[0]));
    }
  }

  lemma {:induction false} LivedJoin(c: Maybe, a: seq<Step>, b: seq<Step>, k: Bytes)
    ensures Lived(c, a + b, k) == Lived(Lived(c, a, k), b, k)
    decreases |a|
  {
    if a == [] {
      assert a + b == b;
    } else {
      assert (a + b)[1..] == a[1..] + b;
      var s := a[0];
      LivedJoin(LivedOnce(c, s, k), a[1..], b, k);
    }
  }

  // When replay by the recovery clock loses nothing

  /** A later SET or DELETE makes everything before it irrelevant for the key. */
  predicate Reset(steps: seq<Step>, k: Bytes) {
    exists j :: 0 <= j < |steps| && Touches(steps[j], k) && (steps[j].op.Set? || steps[j].op.Delete?)
  }

  /** What replay does to the key if every EXPIRE finds it live. */
  function Carried(c: Maybe, steps: seq<Step>, k: Bytes): (r: Maybe)
    decreases |steps|
  {
    if steps == [] then c
    else if Touches(steps[0], k) then Carried(Forced(c, steps[0].op), steps[1..], k)
    else Carried(c, steps[1..], k)
  }

  function Forced(c: Maybe, op: Op): (r: Maybe) {
    match op
    case Set(_, v, d) => Some(Cell(v, d))
    case Delete(_) => None
    case Expire(_, d) => if c.None? then None else Some(Cell(c.cell.value, d))
    case _ => c
  }

  /** Every deadline an EXPIRE supersedes, with no later SET or DELETE of the key, is 0 or
      still ahead when that EXPIRE is replayed. */
  predicate Ahead(c: Maybe, steps: seq<Step>, k: Bytes, clock: nat -> nat, i: nat)
    decreases |steps|
  {
    steps == [] ||
    if Touches(steps[0], k) then
      && (steps[0].op.Expire? && c.Some? && !Reset(steps[1..], k) ==> !c.cell.Expired(clock(i)))
      && Ahead(Forced(c, steps[0].op), steps[1..], k, clock, Tick(i, steps[0]))
    else Ahead(c, steps[1..], k, clock, Tick(i, steps[0]))
  }

  ghost predicate Writes(steps: seq<Step>) {
    forall i :: 0 <= i < |steps| && steps[i].Do? ==> steps[i].op.Set? || steps[i].op.Delete? || steps[i].op.Expire?
  }

  /** Everything in the run happened before the recovery clock started. */
  ghost predicate Before(steps: seq<Step>, start: nat) {
    forall i :: 0 <= i < |steps| ==> steps[i].at <= start
  }

  ghost predicate From(clock: nat -> nat, start: nat) {
    forall i :: start <= clock(i)
  }

  /** x is c, or c was already dead and has been dropped. */
  ghost predicate Weak(x: Maybe, c: Maybe, start: nat) {
    x == c || (x.None? && Gone(c, start))
  }

  /** A log suffix as recovery meets it. */
  ghost predicate Suffix(steps: seq<Step>, clock: nat -> nat, start: nat) {
    Writes(steps) && Before(steps, start) && From(clock, start)
  }

  lemma {:induction false} AheadKeeps(x: Maybe, y: Maybe, c: Maybe, steps: seq<Step>, k: Bytes, clock: nat -> nat,
                                      i: nat, start: nat)
    requires Suffix(steps, clock, start) && !Reset(steps, k) && Ahead(c, steps, k, clock, i)
    requires Weak(x, c, start) && Weak(y, c, start)
    ensures Weak(Lived(x, steps, k), Carried(c, steps, k), start)
    ensures Weak(Redone(y, steps, k, clock, i), Carried(c, steps, k), start)
    decreases |steps|
  {
    if steps != [] {
      var s := steps[0];
      TailOf(steps, clock, start, k);
      assert s.at <= start <= clock(i);
      if Touches(s, k) {
        AheadKeeps(Once(x, s.op, s.at), Once(y, s.op, clock(i)), Forced(c, s.op),
                   steps[1..], k, clock, Tick(i, s), start);
      } else {
        AheadKeeps(LivedOnce(x, s, k), y, c, steps[1..], k, clock, Tick(i, s), start);
      }
    }
  }

  lemma TailOf(steps: seq<Step>, clock: nat -> nat, start: nat, k: Bytes)
    requires Suffix(steps, clock, start) && steps != []
    ensures Suffix(steps[1..], clock, start) && (Reset(steps[1..], k) ==> Reset(steps, k))
    ensures Reset(steps, k) ==>
      Reset(steps[1..], k) || (Touches(steps[0], k) && (steps[0].op.Set? || steps[0].op.Delete?))
  {
    if Reset(steps[1..], k) {
      var rest := steps[1..];
      var j :| 0 <= j < |rest| && Touches(rest[j], k) && (rest[j].op.Set? || rest[j].op.Delete?);
      assert steps[j + 1] == rest[j];
    }
    if Reset(steps, k) {
      var j :| 0 <= j < |steps| && Touches(steps[j], k) && (steps[j].op.Set? || steps[j].op.Delete?);
      if j > 0 {
        assert steps[1..][j - 1] == steps[j];
      }
    }
  }

  lemma {:induction false} NothingComesBack(steps: seq<Step>, k: Bytes, clock: nat -> nat, i: nat, start: nat)
    requires Suffix(steps, clock, start) && !Reset(steps, k)
    ensures Redone(None, steps, k, clock, i) == None && Lived(None, steps, k) == None
    decreases |steps|
  {
    if steps != [] {
      TailOf(steps, clock, start, k);
      NothingComesBack(steps[1..], k, clock, Tick(i, steps[0]), start);
    }
  }

  /** Otherwise replay ends without the key. */
  lemma {:induction false} StaleDrops(y: Maybe, c: Maybe, steps: seq<Step>, k: Bytes, clock: nat -> nat, i: nat,
                                      start: nat)
    requires Suffix(steps, clock, start) && !Reset(steps, k) && !Ahead(c, steps, k, clock, i) && Weak(y, c, start)
    ensures Redone(y, steps, k, clock, i) == None
    decreases |steps|
  {
    var s := steps[0];
    TailOf(steps, clock, start, k);
    if Touches(s, k) {
      assert s.op.Expire?;
      if c.Some? && c.cell.Expired(clock(i)) {
        NothingComesBack(steps[1..], k, clock, Tick(i, steps[0]), start);
      } else {
        StaleDrops(Once(y, s.op, clock(i)), Forced(c, s.op), steps[1..], k, clock, Tick(i, s), start);
      }
    } else {
      StaleDrops(y, c, steps[1..], k, clock, Tick(i, steps[0]), start);
    }
  }

  /** Before a reset of the key it does not matter what the key was. */
  lemma {:induction false} ResetForgets(x: Maybe, y: Maybe, steps: seq<Step>, k: Bytes, clock: nat -> nat, i: nat,
                                        start: nat)
    requires Suffix(steps, clock, start) && Reset(steps, k)
    ensures Lived(x, steps, k) == Lived(y, steps, k) && Redone(x, steps, k, clock, i) == Redone(y, steps, k, clock, i)
    ensures Ahead(x, steps, k, clock, i) == Ahead(y, steps, k, clock, i)
    decreases |steps|, 1
  {
    TailOf(steps, clock, start, k);
    if Reset(steps[1..], k) {
      SkipStep(x, steps, k, clock, i, start);
      SkipStep(y, steps, k, clock, i, start);
    }
  }

  lemma {:induction false} SkipStep(x: Maybe, steps: seq<Step>, k: Bytes, clock: nat -> nat, i: nat, start: nat)
    requires Suffix(steps, clock, start) && steps != [] && Reset(steps[1..], k)
    ensures Lived(x, steps, k) == Lived(None, steps[1..], k)
    ensures Redone(x, steps, k, clock, i) == Redone(None, steps[1..], k, clock, Tick(i, steps[0]))
    ensures Ahead(x, steps, k, clock, i) == Ahead(None, steps[1..], k, clock, Tick(i, steps[0]))
    decreases |steps|, 0
  {
    var s, rest := steps[0], steps[1..];
    TailOf(steps, clock, start, k);
    var lived := LivedOnce(x, s, k);
    var redone := if Touches(s, k) then Once(x, s.op, clock(i)) else x;
    var kept := if Touches(s, k) then Forced(x, s.op) else x;
    ResetForgets(lived, None, rest, k, clock, Tick(i, s), start);
    ResetForgets(redone, None, rest, k, clock, Tick(i, s), start);
    ResetForgets(kept, None, rest, k, clock, Tick(i, s), start);
  }

  // One key

  /** Replay from where memory stood. */
  lemma {:induction false} SameStart(x: Maybe, steps: seq<Step>, k: Bytes, clock: nat -> nat, i: nat, start: nat,
                                     end: nat)
    requires Suffix(steps, clock, start) && start <= end
    ensures Visible(Redone(x, steps, k, clock, i), end) == Visible(Lived(x, steps, k), end) <==>
            Gone(Lived(x, steps, k), end) || Ahead(x, steps, k, clock, i)
    decreases |steps|
  {
    if !Reset(steps, k) {
      if Ahead(x, steps, k, clock, i) {
        AheadKeeps(x, x, x, steps, k, clock, i, start);
      } else {
        StaleDrops(x, x, steps, k, clock, i, start);
      }
    } else {
      TailOf(steps, clock, start, k);
      if Reset(steps[1..], k) {
        SkipStep(x, steps, k, clock, i, start);
        SameStart(None, steps[1..], k, clock, Tick(i, steps[0]), start, end);
      } else {
        SameStart(Forced(x, steps[0].op), steps[1..], k, clock, Tick(i, steps[0]), start, end);
      }
    }
  }

  /** The deadline a run of EXPIREs leaves. */
  function Final(d: nat, steps: seq<Step>, k: Bytes): (r: nat)
    decreases |steps|
  {
    if steps == [] then d
    else Final(if Touches(steps[0], k) && steps[0].op.Expire? then steps[0].op.expireAt else d, steps[1..], k)
  }

  lemma {:induction false} FinalEither(d: nat, e: nat, steps: seq<Step>, k: Bytes)
    ensures Final(d, steps, k) == Final(e, steps, k) || (Final(d, steps, k) == d && Final(e, steps, k) == e)
    decreases |steps|
  {
    if steps != [] && !(Touches(steps[0], k) && steps[0].op.Expire?) {
      FinalEither(d, e, steps[1..], k);
    }
  }

  lemma {:induction false} CarriedIs(c: Maybe, steps: seq<Step>, k: Bytes, clock: nat -> nat, start: nat)
    requires Suffix(steps, clock, start) && !Reset(steps, k)
    ensures Carried(c, steps, k) == if c.None? then None else Some(Cell(c.cell.value, Final(c.cell.expireAt, steps, k)))
    decreases |steps|
  {
    if steps != [] {
      TailOf(steps, clock, start, k);
      CarriedIs(if Touches(steps[0], k) then Forced(c, steps[0].op) else c, steps[1..], k, clock, start);
    }
  }

  lemma {:induction false} LivedIsCarried(x: Maybe, steps: seq<Step>, k: Bytes, clock: nat -> nat, start: nat)
    requires Suffix(steps, clock, start) && !Reset(steps, k)
    ensures Lived(x, steps, k).None? || Lived(x, steps, k) == Carried(x, steps, k)
    decreases |steps|
  {
    if steps != [] {
      var s := steps[0];
      TailOf(steps, clock, start, k);
      NothingComesBack(steps[1..], k, clock, 0, start);
      LivedIsCarried(if Touches(s, k) then Forced(x, s.op) else x, steps[1..], k, clock, start);
    }
  }

  /** Replaying writes the snapshot already shows changes nothing. */
  lemma CarriedAgain(x: Maybe, steps: seq<Step>, k: Bytes, clock: nat -> nat, start: nat)
    requires Suffix(steps, clock, start) && !Reset(steps, k)
    ensures Carried(Lived(x, steps, k), steps, k) == Lived(x, steps, k)
  {
    var c := Lived(x, steps, k);
    LivedIsCarried(x, steps, k, clock, start);
    CarriedIs(x, steps, k, clock, start);
    CarriedIs(c, steps, k, clock, start);
    if c.Some? {
      FinalEither(x.cell.expireAt, c.cell.expireAt, steps, k);
    }
  }

  lemma {:induction false} AheadJoin(c: Maybe, a: seq<Step>, b: seq<Step>, k: Bytes, clock: nat -> nat, i: nat,
                                     start: nat)
    requires Suffix(a + b, clock, start) && !Reset(a + b, k)
    ensures Carried(c, a + b, k) == Carried(Carried(c, a, k), b, k)
    ensures Ahead(c, a + b, k, clock, i) ==> Ahead(Carried(c, a, k), b, k, clock, Ticks(i, a))
    decreases |a|
  {
    if a == [] {
      assert a + b == b;
    } else {
      assert (a + b)[1..] == a[1..] + b;
      TailOf(a + b, clock, start, k);
      AheadJoin(if Touches(a[0], k) then Forced(c, a[0].op) else c, a[1..], b, k, clock, Tick(i, a[0]), start);
    }
  }

  lemma PartsOf(a: seq<Step>, b: seq<Step>, k: Bytes, clock: nat -> nat, start: nat)
    requires Suffix(a + b, clock, start)
    ensures Suffix(a, clock, start) && Suffix(b, clock, start)
    ensures Reset(a, k) || Reset(b, k) ==> Reset(a + b, k)
  {
    forall j | 0 <= j < |a| ensures a[j] == (a + b)[j] {}
    forall j | 0 <= j < |b| ensures b[j] == (a + b)[|a| + j] {}
  }

  /** One key, from a snapshot that saw it some way into the replayed part of the log. */
  lemma FuzzyStart(x: Maybe, a: seq<Step>, b: seq<Step>, k: Bytes, seen: nat, clock: nat -> nat, start: nat, end: nat)
    requires Suffix(a + b, clock, start) && seen <= start <= end
    ensures var saw := Lived(x, a, k);
            Visible(Redone(Visible(saw, seen), a + b, k, clock, 0), end) == Visible(Lived(x, a + b, k), end) <==>
            Gone(Lived(x, a + b, k), end) || Ahead(saw, a + b, k, clock, 0)
  {
    var saw := Lived(x, a, k);
    var got := Visible(saw, seen);
    if Reset(a + b, k) {
      ResetForgets(x, None, a + b, k, clock, 0, start);
      ResetForgets(got, None, a + b, k, clock, 0, start);
      ResetForgets(saw, None, a + b, k, clock, 0, start);
      SameStart(None, a + b, k, clock, 0, start, end);
    } else if !Ahead(saw, a + b, k, clock, 0) {
      StaleDrops(got, saw, a + b, k, clock, 0, start);
    } else {
      PartsOf(a, b, k, clock, start);
      LivedJoin(x, a, b, k);
      CarriedAgain(x, a, k, clock, start);
      AheadJoin(saw, a, b, k, clock, 0, start);
      AheadKeeps(saw, got, saw, a + b, k, clock, 0, start);
      AheadKeeps(saw, saw, saw, b, k, clock, Ticks(0, a), start);
    }
  }

  // The whole keyspace

  /** The snapshot shows every key as memory had it at some point after the first l steps,
      leaving out what was expired at the scan's clock reading. */
  ghost predicate Fuzzy(snap: map<Bytes, Cell>, run: seq<Step>, l: nat, p: Bytes -> nat, seen: nat) {
    forall k :: l <= p(k) <= |run| && At(snap, k) == Visible(At(Memory(map[], run[..p(k)]), k), seen)
  }

  /** Every deadline of k that replay supersedes is 0 or ahead when it does. */
  ghost predicate KeyAhead(run: seq<Step>, l: nat, p: Bytes -> nat, clock: nat -> nat, k: Bytes)
    requires l <= |run| && p(k) <= |run|
  {
    Ahead(At(Memory(map[], run[..p(k)]), k), run[l..], k, clock, 0)
  }

  /** One key, shown by the snapshot as it was after q steps. */
  lemma OneKeyIff(run: seq<Step>, l: nat, q: nat, snap: map<Bytes, Cell>, seen: nat, clock: nat -> nat, start: nat,
                  end: nat, k: Bytes)
    requires Suffix(run, clock, start) && l <= q <= |run| && seen <= start <= end
    requires At(snap, k) == Visible(At(Memory(map[], run[..q]), k), seen)
    ensures var memory, recovered := Memory(map[], run), Replayed(snap, run[l..], clock, 0);
            Visible(At(recovered, k), end) == Visible(At(memory, k), end) <==>
            Gone(At(memory, k), end) || Ahead(At(Memory(map[], run[..q]), k), run[l..], k, clock, 0)
  {
    hide Memory, Replayed, Lived, Redone, Ahead, Reset;
    var a, b, x := run[l..q], run[q..], Lived(None, run[..l], k);
    assert run[l..] == a + b && run == run[..l] + (a + b) && run[..q] == run[..l] + a;
    PartsOf(run[..l], a + b, k, clock, start);
    MemoryAt(map[], run, k);
    MemoryAt(map[], run[..q], k);
    ReplayedAt(snap, run[l..], k, clock, 0);
    LivedJoin(None, run[..l], a + b, k);
    LivedJoin(None, run[..l], a, k);
    FuzzyStart(x, a, b, k, seen, clock, start, end);
  }

  lemma KeyIff(run: seq<Step>, l: nat, p: Bytes -> nat, snap: map<Bytes, Cell>, seen: nat, clock: nat -> nat,
               start: nat, end: nat, k: Bytes)
    requires Suffix(run, clock, start) && l <= |run| && seen <= start <= end && Fuzzy(snap, run, l, p, seen)
    ensures var memory, recovered := Memory(map[], run), Replayed(snap, run[l..], clock, 0);
            Visible(At(recovered, k), end) == Visible(At(memory, k), end) <==>
            Gone(At(memory, k), end) || KeyAhead(run, l, p, clock, k)
  {
    hide Memory, Replayed, Ahead;
    OneKeyIff(run, l, p(k), snap, seen, clock, start, end, k);
  }

  lemma LiveIsVisible(m: map<Bytes, Cell>, now: nat, k: Bytes)
    ensures At(Live(m, now), k) == Visible(At(m, k), now)
  {
  }

  /** Loading the snapshot and replaying the log above it gives the live keyspace that was in
      memory, if and only if no live key has an EXPIRE replayed over a deadline that has
      passed by then. */
  lemma RecoveryIff(run: seq<Step>, l: nat, p: Bytes -> nat, snap: map<Bytes, Cell>, seen: nat, clock: nat -> nat,
                    start: nat, end: nat)
    requires Suffix(run, clock, start) && l <= |run| && seen <= start <= end && Fuzzy(snap, run, l, p, seen)
    ensures Live(Replayed(snap, run[l..], clock, 0), end) == Live(Memory(map[], run), end) <==>
            forall k :: k in Live(Memory(map[], run), end) ==> KeyAhead(run, l, p, clock, k)
  {
    hide Memory, Replayed, KeyAhead, Live;
    var memory, recovered := Memory(map[], run), Replayed(snap, run[l..], clock, 0);
    forall k ensures At(Live(recovered, end), k) == At(Live(memory, end), k) <==>
                     (k in Live(memory, end) ==> KeyAhead(run, l, p, clock, k)) {
      KeyIff(run, l, p, snap, seen, clock, start, end, k);
      LiveIsVisible(memory, end, k);
      LiveIsVisible(recovered, end, k);
    }
    SameMaps(Live(recovered, end), Live(memory, end));
  }

  lemma SameMaps(a: map<Bytes, Cell>, b: map<Bytes, Cell>)
    ensures a == b <==> forall k :: At(a, k) == At(b, k)
  {
    if forall k :: At(a, k) == At(b, k) {
      forall k ensures k in a <==> k in b {
        assert At(a, k) == At(b, k);
      }
      forall k | k in a ensures a[k] == b[k] {
        assert At(a, k) == At(b, k);
      }
    }
  }

  /** The condition is needed: an EXPIRE that came in time is replayed too late. */
  lemma LateReplayDrops(k: Bytes, v: Bytes, d: nat, longer: nat, now: nat)
    requires 1 < d <= now < longer
    ensures var run := [Do(Op.Set(k, v, d), 0), Do(Op.Expire(k, longer), 1)];
            && Live(Memory(map[], run), now) == map[k := Cell(v, longer)]
            && Live(Replayed(map[], run, _ => now, 0), now) == map[]
  {
    var set1, expire1 := Do(Op.Set(k, v, d), 0), Do(Op.Expire(k, longer), 1);
    var run := [set1, expire1];
    assert run[1..] == [expire1] && [expire1][1..] == [];
    var one := map[k := Cell(v, d)];
    assert RefAfter(map[], set1.op, 0) == one;
    assert Memory(map[], run) == Memory(one, [expire1]) == Memory(one[k := Cell(v, longer)], []);
    assert Replayed(map[], run, _ => now, 0) == Replayed(one, [expire1], _ => now, 1);
    assert Replayed(one, [expire1], _ => now, 1) == Replayed(one - {k}, [], _ => now, 2);
  }

  // A log cut short of what the snapshot shows

  /** A cell after replayed EXPIREs: gone if one comes too late, otherwise under the last deadline. */
  function Redated(c: Maybe, steps: seq<Step>, k: Bytes, clock: nat -> nat): (r: Maybe) {
    if c.None? || !Ahead(c, steps, k, clock, 0) then None
    else Some(Cell(c.cell.value, Final(c.cell.expireAt, steps, k)))
  }

  lemma RedoneIsRedated(c: Maybe, steps: seq<Step>, k: Bytes, seen: nat, clock: nat -> nat, start: nat, end: nat)
    requires Suffix(steps, clock, start) && !Reset(steps, k) && seen <= start <= end
    ensures Visible(Redone(Visible(c, seen), steps, k, clock, 0), end) == Visible(Redated(c, steps, k, clock), end)
  {
    hide Redone, Ahead, Final, Lived, Carried, Reset;
    if Ahead(c, steps, k, clock, 0) {
      AheadKeeps(c, Visible(c, seen), c, steps, k, clock, 0, start);
      CarriedIs(c, steps, k, clock, start);
    } else {
      StaleDrops(Visible(c, seen), c, steps, k, clock, 0, start);
    }
  }

  /** Memory may be ahead of the log, and the snapshot may show it, when a crash takes the log's tail.
      Replay then ends at step cut. A key shown no later than that, or set or deleted in what is
      replayed, comes back as memory had it at the cut, under the same condition as ever. Otherwise
      the value is the one shown, under the last deadline replayed, or the one shown if none is. */
  lemma CutOffKey(run: seq<Step>, l: nat, cut: nat, q: nat, snap: map<Bytes, Cell>, seen: nat, clock: nat -> nat,
                  start: nat, end: nat, k: Bytes)
    requires Suffix(run, clock, start) && l <= cut <= |run| && l <= q <= |run| && seen <= start <= end
    requires At(snap, k) == Visible(At(Memory(map[], run[..q]), k), seen)
    ensures var memory, recovered := Memory(map[], run[..cut]), Replayed(snap, run[l..cut], clock, 0);
            q <= cut || Reset(run[l..cut], k) ==>
              (Visible(At(recovered, k), end) == Visible(At(memory, k), end) <==>
               Gone(At(memory, k), end) || Ahead(At(Memory(map[], run[..q]), k), run[l..cut], k, clock, 0))
    ensures !Reset(run[l..cut], k) ==>
      Visible(At(Replayed(snap, run[l..cut], clock, 0), k), end) ==
      Visible(Redated(At(Memory(map[], run[..q]), k), run[l..cut], k, clock), end)
    ensures (forall i :: l <= i < cut ==> !Touches(run[i], k)) ==>
      At(Replayed(snap, run[l..cut], clock, 0), k) == At(snap, k)
  {
    hide Memory, Replayed, Ahead, Lived, Redone, Reset;
    var part := run[..cut];
    assert run == part + run[cut..] && part[l..] == run[l..cut] && part == part[..l] + part[l..];
    PartsOf(part, run[cut..], k, clock, start);
    PartsOf(part[..l], part[l..], k, clock, start);
    ReplayedAt(snap, run[l..cut], k, clock, 0);
    if q <= cut {
      assert part[..q] == run[..q];
      OneKeyIff(part, l, q, snap, seen, clock, start, end, k);
    } else if Reset(run[l..cut], k) {
      var shown, x := At(Memory(map[], run[..q]), k), Lived(None, part[..l], k);
      MemoryAt(map[], part, k);
      LivedJoin(None, part[..l], part[l..], k);
      ResetForgets(At(snap, k), x, part[l..], k, clock, 0, start);
      ResetForgets(shown, x, part[l..], k, clock, 0, start);
      SameStart(x, part[l..], k, clock, 0, start, end);
    }
    if !Reset(run[l..cut], k) {
      RedoneIsRedated(At(Memory(map[], run[..q]), k), part[l..], k, seen, clock, start, end);
    }
    if forall i :: l <= i < cut ==> !Touches(run[i], k) {
      Untouched(At(snap, k), run[l..cut], k, clock, 0);
    }
  }

  lemma {:induction false} Untouched(c: Maybe, steps: seq<Step>, k: Bytes, clock: nat -> nat, i: nat)
    requires forall j :: 0 <= j < |steps| ==> !Touches(steps[j], k)
    ensures Redone(c, steps, k, clock, i) == c
    decreases |steps|
  {
    if steps != [] {
      Untouched(c, steps[1..], k, clock, Tick(i, steps[0]));
    }
  }

  /** Otherwise an EXPIRE that survives can meet a value that does not: a cell no moment ever saw. */
  lemma CutOffMix(k: Bytes, v: Bytes, w: Bytes, d: nat, now: nat)
    requires v != w && now < d
    ensures var run := [Do(Op.Set(k, v, 0), 0), Do(Op.Expire(k, d), 0), Do(Op.Set(k, w, 0), 0)];
            var snap := Memory(map[], run[..3]);
            && Replayed(snap, run[1..2], _ => now, 0) == map[k := Cell(w, d)]
            && forall q :: 0 <= q <= 3 ==> Memory(map[], run[..q]) != map[k := Cell(w, d)]
  {
    var a, b, c := Do(Op.Set(k, v, 0), 0), Do(Op.Expire(k, d), 0), Do(Op.Set(k, w, 0), 0);
    var run := [a, b, c];
    var one, two, three := map[k := Cell(v, 0)], map[k := Cell(v, d)], map[k := Cell(w, 0)];
    assert run[..0] == [] && run[..1] == [a] && run[..2] == [a] + [b] && run[..3] == [a] + [b, c] && run[1..2] == [b];
    assert [a][1..] == [] && [b][1..] == [] && [c][1..] == [] && [b, c][1..] == [c];
    assert ([a] + [b])[1..] == [b] && ([a] + [b, c])[1..] == [b, c];
    assert After(map[], a) == one && After(one, b) == two && After(two, c) == three;
    assert Memory(map[], run[..1]) == Memory(one, []) == one;
    assert Memory(map[], run[..2]) == Memory(one, [b]) == Memory(two, []) == two;
    assert Memory(map[], run[..3]) == Memory(one, [b, c]) == Memory(two, [c]) == Memory(three, []) == three;
    assert RefAfter(three, b.op, now) == map[k := Cell(w, d)];
    assert Replayed(three, [b], _ => now, 0) == Replayed(map[k := Cell(w, d)], [], _ => now, 1);
    forall q | 0 <= q <= 3 ensures Memory(map[], run[..q]) != map[k := Cell(w, d)] {
      assert q == 0 || q == 1 || q == 2 || q == 3;
    }
  }

  // A log with a gap above the snapshot

  /** Steps that do not touch a key can only drop it once it is dead. */
  lemma {:induction false} LivedOn(c: Maybe, steps: seq<Step>, k: Bytes, start: nat)
    requires Before(steps, start) && forall j :: 0 <= j < |steps| ==> !Touches(steps[j], k)
    ensures Weak(Lived(c, steps, k), c, start)
    decreases |steps|
  {
    if steps != [] {
      assert steps[0].at <= start;
      LivedOn(LivedOnce(c, steps[0], k), steps[1..], k, start);
    }
  }

  /** No step in the gap from l to j matters for the key: the snapshot shows it after the gap, the
      rest sets or deletes it, or nothing in the gap touches it. */
  ghost predicate Bridged(run: seq<Step>, l: nat, j: nat, q: nat, k: Bytes)
    requires l <= j <= |run|
  {
    q >= j || Reset(run[j..], k) || forall i :: l <= i < j ==> !Touches(run[i], k)
  }

  /** The snapshot is as of step l, and the log above it is left from step j on. A key the gap does
      not matter for comes back under the same condition as ever; any other that is not set or
      deleted later comes back with the value shown and the last deadline replayed. */
  lemma GapKey(run: seq<Step>, l: nat, j: nat, q: nat, snap: map<Bytes, Cell>, seen: nat, clock: nat -> nat,
               start: nat, end: nat, k: Bytes)
    requires Suffix(run, clock, start) && l <= j <= |run| && l <= q <= |run| && seen <= start <= end
    requires At(snap, k) == Visible(At(Memory(map[], run[..q]), k), seen)
    ensures var memory, recovered := Memory(map[], run), Replayed(snap, run[j..], clock, 0);
            Bridged(run, l, j, q, k) ==>
              (Visible(At(recovered, k), end) == Visible(At(memory, k), end) <==>
               Gone(At(memory, k), end) || Ahead(At(Memory(map[], run[..q]), k), run[j..], k, clock, 0))
    ensures !Reset(run[j..], k) ==>
      Visible(At(Replayed(snap, run[j..], clock, 0), k), end) ==
      Visible(Redated(At(Memory(map[], run[..q]), k), run[j..], k, clock), end)
  {
    hide Memory, Replayed, Ahead, Lived, Redone, Reset, Redated;
    var tail, shown := run[j..], At(Memory(map[], run[..q]), k);
    assert run == run[..j] + tail;
    PartsOf(run[..j], tail, k, clock, start);
    ReplayedAt(snap, tail, k, clock, 0);
    if !Reset(tail, k) {
      RedoneIsRedated(shown, tail, k, seen, clock, start, end);
    }
    if q >= j {
      OneKeyIff(run, j, q, snap, seen, clock, start, end, k);
    } else if Reset(tail, k) {
      GapReset(run, j, shown, At(snap, k), clock, start, end, k);
    } else if forall i :: l <= i < j ==> !Touches(run[i], k) {
      GapUntouched(run, j, q, seen, clock, start, end, k);
    }
  }

  lemma GapReset(run: seq<Step>, j: nat, shown: Maybe, got: Maybe, clock: nat -> nat, start: nat, end: nat, k: Bytes)
    requires Suffix(run, clock, start) && j <= |run| && start <= end && Reset(run[j..], k)
    ensures var memory := At(Memory(map[], run), k);
            Visible(Redone(got, run[j..], k, clock, 0), end) == Visible(memory, end) <==>
            Gone(memory, end) || Ahead(shown, run[j..], k, clock, 0)
  {
    hide Memory, Ahead, Lived, Redone, Reset;
    var tail, x := run[j..], Lived(None, run[..j], k);
    assert run == run[..j] + tail;
    PartsOf(run[..j], tail, k, clock, start);
    MemoryAt(map[], run, k);
    LivedJoin(None, run[..j], tail, k);
    ResetForgets(got, x, tail, k, clock, 0, start);
    ResetForgets(shown, x, tail, k, clock, 0, start);
    SameStart(x, tail, k, clock, 0, start, end);
  }

  lemma GapUntouched(run: seq<Step>, j: nat, q: nat, seen: nat, clock: nat -> nat, start: nat, end: nat, k: Bytes)
    requires Suffix(run, clock, start) && q <= j <= |run| && seen <= start <= end && !Reset(run[j..], k)
    requires forall i :: q <= i < j ==> !Touches(run[i], k)
    ensures var memory, shown := At(Memory(map[], run), k), At(Memory(map[], run[..q]), k);
            Visible(Redone(Visible(shown, seen), run[j..], k, clock, 0), end) == Visible(memory, end) <==>
            Gone(memory, end) || Ahead(shown, run[j..], k, clock, 0)
  {
    hide Memory, Ahead, Lived, Redone, Reset, Carried;
    var tail, gap := run[j..], run[q..j];
    assert run == run[..q] + (gap + tail);
    PartsOf(run[..q], gap + tail, k, clock, start);
    PartsOf(gap, tail, k, clock, start);
    var shown := Lived(None, run[..q], k);
    MemoryAt(map[], run, k);
    MemoryAt(map[], run[..q], k);
    LivedJoin(None, run[..q], gap + tail, k);
    LivedJoin(shown, gap, tail, k);
    LivedOn(shown, gap, k, start);
    if Ahead(shown, tail, k, clock, 0) {
      AheadKeeps(Lived(shown, gap, k), Visible(shown, seen), shown, tail, k, clock, 0, start);
    } else {
      StaleDrops(Visible(shown, seen), shown, tail, k, clock, 0, start);
    }
  }

  /** The older snapshot and what is left of the log give the live keyspace of memory, if the gap
      matters for no key, exactly when no live key has an EXPIRE replayed over a passed deadline. */
  lemma FallbackIff(run: seq<Step>, l: nat, j: nat, p: Bytes -> nat, snap: map<Bytes, Cell>, seen: nat,
                    clock: nat -> nat, start: nat, end: nat)
    requires Suffix(run, clock, start) && l <= j <= |run| && seen <= start <= end && Fuzzy(snap, run, l, p, seen)
    requires forall k :: Bridged(run, l, j, p(k), k)
    ensures Live(Replayed(snap, run[j..], clock, 0), end) == Live(Memory(map[], run), end) <==>
            forall k :: k in Live(Memory(map[], run), end) ==> KeyAhead(run, j, p, clock, k)
  {
    hide Memory, Replayed, Live, Bridged, Ahead, Redated, Reset;
    var memory, recovered := Memory(map[], run), Replayed(snap, run[j..], clock, 0);
    forall k ensures At(Live(recovered, end), k) == At(Live(memory, end), k) <==>
                     (k in Live(memory, end) ==> KeyAhead(run, j, p, clock, k)) {
      GapKey(run, l, j, p(k), snap, seen, clock, start, end, k);
      LiveIsVisible(memory, end, k);
      LiveIsVisible(recovered, end, k);
    }
    SameMaps(Live(recovered, end), Live(memory, end));
  }

  /** The gap can matter: a SET only the newer snapshot and the pruned segments had is gone. */
  lemma GapLoses(k: Bytes, v: Bytes, clock: nat -> nat, end: nat)
    ensures var run := [Do(Op.Set(k, v, 0), 0)];
            && !Bridged(run, 0, 1, 0, k)
            && Live(Memory(map[], run), end) == map[k := Cell(v, 0)]
            && Live(Replayed(map[], run[1..], clock, 0), end) == map[]
  {
    var run := [Do(Op.Set(k, v, 0), 0)];
    assert run[1..] == [] && Touches(run[0], k);
    assert After(map[], run[0]) == map[k := Cell(v, 0)];
    assert Memory(map[], run) == Memory(map[k := Cell(v, 0)], []);
  }

  // The snapshot a scan makes while writers go on

  /** Read after q steps, the shard shows exactly its own keys, as memory has them. */
  ghost predicate Shot(g: Glimpse, run: seq<Step>, l: nat, q: nat, home: Bytes -> nat, i: nat) {
    && l <= q <= |run|
    && (forall k :: home(k) == i ==> At(g.mem, k) == At(Memory(map[], run[..q]), k))
    && (forall k :: k in g.mem ==> k in g.slots && home(k) == i)
  }

  /** Batch b of shard i is read after pos(b) steps. */
  ghost predicate Sees(trace: nat -> Glimpse, run: seq<Step>, l: nat, pos: nat -> nat, home: Bytes -> nat, i: nat) {
    forall b :: Shot(trace(b), run, l, pos(b), home, i)
  }

  /** With no removal from slots already passed, scanning a shard and storing what comes out, among the
      emissions of other shards, shows each of its keys at some point of the scan. */
  lemma ScanIsFuzzy(trace: nat -> Glimpse, bound: nat, run: seq<Step>, l: nat, pos: nat -> nat, home: Bytes -> nat,
                    before: seq<Emission>, after: seq<Emission>, seen: nat, k: Bytes) returns (p: nat)
    requires Bounded(trace, bound) && Steady(trace) && Sees(trace, run, l, pos, home, home(k))
    requires Absent(before, k) && Absent(after, k)
    ensures l <= p <= |run|
    ensures var all := before + Scan(trace, 0, 0, bound, seen) + after;
            At(PutAll(map[], all), k) == Visible(At(Memory(map[], run[..p]), k), seen)
  {
    hide Scan, Memory, PutAll, Steady, Bounded;
    var es := Scan(trace, 0, 0, bound, seen);
    var all := before + es + after;
    AbsentBoth(before + es, after, k);
    AbsentBoth(before, es, k);
    PutAllAt(map[], all, k);
    forall b: nat ensures k in trace(b).mem ==> k in trace(b).slots {
      assert Shot(trace(b), run, l, pos(b), home, home(k));
    }
    if Absent(es, k) {
      var at := 0;
      if b :| k !in trace(b).mem {
        at := b;
      } else {
        var i :| 0 <= i < |trace(0).slots| && trace(0).slots[i] == k;
        at := ScanCovers(trace, 0, bound, seen, k, i);
      }
      assert Shot(trace(at), run, l, pos(at), home, home(k));
      p := pos(at);
    } else {
      var x := (k, PutAll(map[], all)[k]);
      InMiddle(before, es, after, x);
      var at := ScanSound(trace, 0, 0, bound, seen, x);
      assert Shot(trace(at), run, l, pos(at), home, home(k));
      p := pos(at);
    }
  }

  lemma InMiddle(before: seq<Emission>, es: seq<Emission>, after: seq<Emission>, x: Emission)
    requires x in before + es + after && Absent(before, x.0) && Absent(after, x.0)
    ensures x in es
  {
  }

  // What replay sees of a run: its log

  function Logged(steps: seq<Step>): (r: seq<Op>)
    decreases |steps|
  {
    if steps == [] then [] else (if steps[0].Do? then [steps[0].op] else []) + Logged(steps[1..])
  }

  ghost function Redo(m: map<Bytes, Cell>, ops: seq<Op>, clock: nat -> nat, i: nat): (r: map<Bytes, Cell>)
    decreases |ops|
  {
    if ops == [] then m else Redo(RefAfter(m, ops[0], clock(i)), ops[1..], clock, i + 1)
  }

  lemma {:induction false} ReplayedIsRedo(m: map<Bytes, Cell>, steps: seq<Step>, clock: nat -> nat, i: nat)
    ensures Replayed(m, steps, clock, i) == Redo(m, Logged(steps), clock, i)
    decreases |steps|
  {
    if steps != [] {
      var rest := Logged(steps[1..]);
      if steps[0].Do? {
        assert Logged(steps) == [steps[0].op] + rest && ([steps[0].op] + rest)[1..] == rest;
        ReplayedIsRedo(RefAfter(m, steps[0].op, clock(i)), steps[1..], clock, i + 1);
      } else {
        assert [] + rest == rest;
        ReplayedIsRedo(m, steps[1..], clock, i);
      }
    }
  }

  /** Two runs with the same log replay alike, whatever was reclaimed in either. */
  lemma SameLogSameReplay(m: map<Bytes, Cell>, a: seq<Step>, b: seq<Step>, clock: nat -> nat)
    requires Logged(a) == Logged(b)
    ensures Replayed(m, a, clock, 0) == Replayed(m, b, clock, 0)
  {
    ReplayedIsRedo(m, a, clock, 0);
    ReplayedIsRedo(m, b, clock, 0);
  }
}
