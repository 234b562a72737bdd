/** A checkpoint's scan of a store object that is being written to between the batches. */
module LiveCheckpoints {
  import opened Bytes
  import opened Shards
  import opened Expiry
  import opened References
  import opened Stores
  import opened RangeScan
  import opened Recovery
  import opened Checkpoints

  // Writes

  predicate Writable(s: Step) {
    s.Do? ==> s.op.Delete? || s.op.Expire? || (s.op.Set? && Cost(|s.op.key|, |s.op.value|) < U32)
  }

  predicate AllWritable(steps: seq<Step>) {
    forall i :: 0 <= i < |steps| ==> Writable(steps[i])
  }

  /** A write that leaves every entry in its slot: a SET, or an EXPIRE that does not find its key expired. */
  ghost predicate Mild(m: map<Bytes, Cell>, s: Step) {
    s.Do? && (s.op.Set? || (s.op.Expire? && (s.op.key in m ==> !m[s.op.key].Expired(s.at))))
  }

  ghost predicate AllMild(m: map<Bytes, Cell>, steps: seq<Step>)
    decreases |steps|
  {
    steps == [] || (Mild(m, steps[0]) && AllMild(After(m, steps[0]), steps[1..]))
  }

  /** Keys that are dead at a reading are reclaimed, each under its shard's lock. */
  method ReapAll(st: Store, keys: set<Bytes>, at: nat)
    requires st.Valid()
    modifies st, st.shards, st.Entries()
    ensures st.Valid() && st.Entries() <= old(st.Entries())
    ensures st.view == old(st.view) - (keys * Dead(old(st.view), at))
  {
    hide Store.Valid, Store.Entries, Dead;
    var left := keys;
    ghost var gone: set<Bytes> := {};
    MinusNone(st.view);
    while left != {}
      invariant st.Valid() && st.Entries() <= old(st.Entries()) && left <= keys
      invariant gone == (keys - left) * Dead(old(st.view), at) && st.view == old(st.view) - gone
      decreases |left|
    {
      var k :| k in left;
      DeadOne(old(st.view), gone, keys - left, at, k);
      var ok := st.LateReap(k, at);
      left := left - {k};
      gone := if ok then gone + {k} else gone;
    }
  }

  lemma DeadOne(m: map<Bytes, Cell>, gone: set<Bytes>, done: set<Bytes>, at: nat, k: Bytes)
    requires gone == done * Dead(m, at) && k !in done
    ensures var ok := k in m - gone && (m - gone)[k].Expired(at);
            && (done + {k}) * Dead(m, at) == (if ok then gone + {k} else gone)
            && (m - gone) - {k} == m - (gone + {k})
  {
  }

  method WriteOne(st: Store, s: Step)
    requires st.Valid() && st.maxMemory <= 0 && Writable(s)
    modifies st, st.shards, st.Entries()
    ensures st.Valid() && (forall e :: e in st.Entries() ==> e in old(st.Entries()) || fresh(e))
    ensures st.view == After(old(st.view), s) && (Mild(old(st.view), s) ==> Extends(old(st.Slots()), st.Slots()))
  {
    hide RefAfter, Store.Valid, Store.Entries, Store.Slots, Extends, Shard.Written, Dead, Store.Fits;
    if s.Reclaim? {
      ReapAll(st, s.gone, s.at);
    } else if s.op.Set? {
      Unlimited(st, st.view[s.op.key := Cell(s.op.value, s.op.expireAt)]);
      SetAnyTime(st.view, s.op.key, s.op.value, s.op.expireAt, s.at);
      var ok, _ := st.Set(s.op.key, s.op.value, s.op.expireAt, 0, _ => _ => 0);
    } else if s.op.Expire? {
      ExpireIs(st.view, s.op.key, s.op.expireAt, s.at);
      var ok := st.Expire(s.op.key, s.op.expireAt, s.at);
    } else {
      var ok := st.Delete(s.op.key, s.at);
    }
  }

  method WriteAll(st: Store, steps: seq<Step>)
    requires st.Valid() && st.maxMemory <= 0 && AllWritable(steps)
    modifies st, st.shards, st.Entries()
    ensures st.Valid() && (forall e :: e in st.Entries() ==> e in old(st.Entries()) || fresh(e))
    ensures st.view == Memory(old(st.view), steps)
    ensures AllMild(old(st.view), steps) ==> Extends(old(st.Slots()), st.Slots())
  {
    hide After, Store.Valid, Store.Entries, Mild, Writable, Extends, AllMild, Memory;
    assert steps[0..] == steps;
    ghost var first := st.Slots();
    ExtendsItself(first);
    for i := 0 to |steps|
      invariant st.Valid() && (forall e :: e in st.Entries() ==> e in old(st.Entries()) || fresh(e))
      invariant Memory(st.view, steps[i..]) == Memory(old(st.view), steps)
      invariant AllMild(old(st.view), steps) ==> AllMild(st.view, steps[i..]) && Extends(first, st.Slots())
    {
      StepOn(st.view, steps, i);
      ghost var mid := st.Slots();
      WriteOne(st, steps[i]);
      ExtendsOn(first, mid, st.Slots());
    }
    MemoryDone(st.view, steps);
  }

  lemma StepOn(m: map<Bytes, Cell>, steps: seq<Step>, i: nat)
    requires i < |steps|
    ensures Memory(m, steps[i..]) == Memory(After(m, steps[i]), steps[i + 1..])
    ensures AllMild(m, steps[i..]) <==> Mild(m, steps[i]) && AllMild(After(m, steps[i]), steps[i + 1..])
  {
    hide After, Mild;
    assert steps[i..][0] == steps[i] && steps[i..][1..] == steps[i + 1..];
  }

  lemma MemoryDone(m: map<Bytes, Cell>, steps: seq<Step>)
    ensures Memory(m, steps[|steps|..]) == m
  {
  }

  lemma ExtendsItself(a: seq<seq<Entry>>)
    ensures Extends(a, a)
  {
  }

  lemma ExtendsOn(a: seq<seq<Entry>>, b: seq<seq<Entry>>, c: seq<seq<Entry>>)
    ensures Extends(a, b) && Extends(b, c) ==> Extends(a, c)
  {
    if Extends(a, b) && Extends(b, c) {
      forall i | 0 <= i < |a| ensures a[i] <= c[i] {
        assert a[i] <= b[i] && b[i] <= c[i];
      }
    }
  }

  // The batches of one scan

  ghost predicate Neat(g: Glimpse) {
    g.Valid() && Distinct(g.slots)
  }

  /** The batches so far, and how many steps each came after. */
  ghost predicate History(gs: seq<Glimpse>, ps: seq<nat>, run: seq<Step>, l: nat, home: Bytes -> nat, i: nat) {
    && |gs| == |ps|
    && (forall b :: 0 <= b < |gs| ==> Shot(gs[b], run, l, ps[b], home, i) && Neat(gs[b]))
  }

  /** Between two batches no slot the scan had passed changed hands. */
  ghost predicate PassedOn(g: Glimpse, h: Glimpse, b: nat) {
    BATCH * (b + 1) < |g.slots| ==> g.slots[..BATCH * (b + 1)] <= h.slots
  }

  ghost predicate AllPassedOn(gs: seq<Glimpse>) {
    forall b: nat :: b + 1 < |gs| ==> PassedOn(gs[b], gs[b + 1], b)
  }

  /** After the last batch nobody looks any more. */
  ghost function Stretch<T>(s: seq<T>): (r: nat -> T)
    requires s != []
  {
    (b: nat) => if b < |s| then s[b] else s[|s| - 1]
  }

  ghost function Longest(gs: seq<Glimpse>): (n: nat)
    ensures forall b :: 0 <= b < |gs| ==> |gs[b].slots| <= n
  {
    if gs == [] then 0
    else
      var n, last := Longest(gs[..|gs| - 1]), |gs[|gs| - 1].slots|;
      assert forall b :: 0 <= b < |gs| - 1 ==> gs[b] == gs[..|gs| - 1][b];
      if last > n then last else n
  }

  ghost function PartOf(gs: seq<Glimpse>, ps: seq<nat>): (r: Part)
    requires gs != [] && ps != []
  {
    Part(Stretch(gs), Longest(gs), Stretch(ps))
  }

  lemma HistoryIsSound(gs: seq<Glimpse>, ps: seq<nat>, run: seq<Step>, l: nat, home: Bytes -> nat, i: nat)
    requires History(gs, ps, run, l, home, i) && gs != []
    ensures Sound(PartOf(gs, ps), run, l, home, i)
  {
    hide Shot, Distinct;
    var part := PartOf(gs, ps);
    forall b: nat ensures Shot(part.trace(b), run, l, part.pos(b), home, i) && Neat(part.trace(b)) {}
  }

  lemma PassedIsSteady(gs: seq<Glimpse>, ps: seq<nat>, run: seq<Step>, l: nat, home: Bytes -> nat, i: nat)
    requires History(gs, ps, run, l, home, i) && gs != [] && AllPassedOn(gs)
    ensures Steady(PartOf(gs, ps).trace)
  {
    hide Shot, Distinct;
    var trace := PartOf(gs, ps).trace;
    forall b: nat ensures Distinct(trace(b).slots) {
      assert Neat(trace(b));
    }
    forall b: nat ensures Passed(trace, b) {
      if b + 1 < |gs| {
        assert PassedOn(gs[b], gs[b + 1], b);
      } else {
        assert trace(b) == trace(b + 1);
      }
    }
  }

  lemma HistoryMore(gs: seq<Glimpse>, ps: seq<nat>, g: Glimpse, run: seq<Step>, l: nat, home: Bytes -> nat, i: nat)
    requires History(gs, ps, run, l, home, i) && Shot(g, run, l, |run|, home, i) && Neat(g)
    ensures History(gs + [g], ps + [|run|], run, l, home, i)
  {
    hide Shot, Neat;
  }

  /** Steps taken later do not change what was seen. */
  lemma ShotLater(g: Glimpse, run: seq<Step>, later: seq<Step>, l: nat, q: nat, home: Bytes -> nat, i: nat)
    requires Shot(g, run, l, q, home, i) && run <= later
    ensures Shot(g, later, l, q, home, i)
  {
    hide Memory;
    assert later[..q] == run[..q];
  }

  lemma HistoryLater(gs: seq<Glimpse>, ps: seq<nat>, run: seq<Step>, later: seq<Step>, l: nat, home: Bytes -> nat,
                     i: nat)
    requires History(gs, ps, run, l, home, i) && run <= later
    ensures History(gs, ps, later, l, home, i)
  {
    hide Shot, Neat;
    forall b | 0 <= b < |gs| ensures Shot(gs[b], later, l, ps[b], home, i) {
      ShotLater(gs[b], run, later, l, ps[b], home, i);
    }
  }

  lemma SoundLater(part: Part, run: seq<Step>, later: seq<Step>, l: nat, home: Bytes -> nat, i: nat)
    requires Sound(part, run, l, home, i) && run <= later
    ensures Sound(part, later, l, home, i)
  {
    hide Shot, Bounded;
    forall b: nat ensures Shot(part.trace(b), later, l, part.pos(b), home, i) {
      ShotLater(part.trace(b), run, later, l, part.pos(b), home, i);
    }
  }

  ghost predicate AllValid(gs: seq<Glimpse>) {
    forall b :: 0 <= b < |gs| ==> gs[b].Valid()
  }

  /** What the batches of one scan deliver. */
  ghost function Pieces(gs: seq<Glimpse>, nowMs: nat): (r: seq<Emission>)
    requires AllValid(gs)
    decreases |gs|
  {
    if gs == [] then []
    else Pieces(gs[..|gs| - 1], nowMs) + Batch(gs[|gs| - 1], BATCH * (|gs| - 1), BATCH, nowMs)
  }

  /** Batch b was not the last one. */
  ghost predicate GoesOn(gs: seq<Glimpse>, b: nat)
    requires b < |gs|
  {
    BATCH * (b + 1) < |gs[b].slots|
  }

  lemma {:induction false} ScanSoFar(gs: seq<Glimpse>, b: nat, bound: nat, nowMs: nat)
    requires gs != [] && AllValid(gs) && Bounded(Stretch(gs), bound) && b < |gs|
    requires forall a :: 0 <= a < b ==> GoesOn(gs, a)
    ensures Scan(Stretch(gs), 0, 0, bound, nowMs) ==
            Pieces(gs[..b], nowMs) + Scan(Stretch(gs), b, BATCH * b, bound, nowMs)
    decreases b
  {
    hide Scan, Batch, Bounded;
    if b == 0 {
      assert gs[..0] == [];
    } else {
      ScanSoFar(gs, b - 1, bound, nowMs);
      ScanStep(Stretch(gs), b - 1, BATCH * (b - 1), bound, nowMs);
      assert GoesOn(gs, b - 1) && gs[..b][..b - 1] == gs[..b - 1];
      JoinAssoc(Pieces(gs[..b - 1], nowMs), Batch(gs[b - 1], BATCH * (b - 1), BATCH, nowMs),
             Scan(Stretch(gs), b, BATCH * b, bound, nowMs));
    }
  }

  /** The loop over changing batches is the scan. */
  lemma PiecesAreScan(gs: seq<Glimpse>, bound: nat, nowMs: nat)
    requires gs != [] && AllValid(gs) && Bounded(Stretch(gs), bound)
    requires (forall b :: 0 <= b < |gs| - 1 ==> GoesOn(gs, b)) && !GoesOn(gs, |gs| - 1)
    ensures Pieces(gs, nowMs) == Scan(Stretch(gs), 0, 0, bound, nowMs)
  {
    hide Scan, Bounded;
    var n := |gs| - 1;
    ScanSoFar(gs, n, bound, nowMs);
    ScanStep(Stretch(gs), n, BATCH * n, bound, nowMs);
  }

  // The loop

  function Home(hash: Bytes -> nat, n: nat): (r: Bytes -> nat) {
    k => Route(hash, n, k)
  }

  /** Groups of writes that may run one after another, other work in between. */
  ghost predicate Calm(m: map<Bytes, Cell>, groups: seq<seq<Step>>)
    decreases |groups|
  {
    groups == [] || (AllMild(m, groups[0]) && Calm(Memory(m, groups[0]), groups[1..]))
  }

  lemma {:induction false} MemoryJoin(m: map<Bytes, Cell>, a: seq<Step>, b: seq<Step>)
    ensures Memory(m, a + b) == Memory(Memory(m, a), b)
    decreases |a|
  {
    if a == [] {
      assert a + b == b;
    } else {
      assert (a + b)[1..] == a[1..] + b;
      MemoryJoin(After(m, a[0]), a[1..], b);
    }
  }

  lemma KeysPrefix(a: seq<Entry>, b: seq<Entry>)
    requires a <= b
    ensures Keys(a) <= Keys(b)
  {
  }

  /** A batch read now sees the store as the run has left it. */
  lemma ShotNow(st: Store, run: seq<Step>, l: nat, i: nat)
    requires st.Valid() && i < |st.shards| && st.view == Memory(map[], run) && l <= |run|
    ensures st.shards[i].Valid() && Glance(st.shards[i]).slots == Keys(st.shards[i].slots)
    ensures Shot(Glance(st.shards[i]), run, l, |run|, Home(st.hash, |st.shards|), i) && Neat(Glance(st.shards[i]))
  {
    hide Memory, Store.Apart, Shard.Valid, Distinct;
    GlanceAll(st.shards[i]);
    assert run[..|run|] == run;
    assert Holds(st.shards[i], Slice(st.view, st.hash, |st.shards|, i));
  }

  /** The run with groups from first up to used appended. */
  ghost function Ran(run0: seq<Step>, groups: seq<seq<Step>>, first: nat, used: nat): (r: seq<Step>)
    requires used <= |groups|
    ensures run0 <= r
    decreases used
  {
    if used <= first then run0 else Ran(run0, groups, first, used - 1) + groups[used - 1]
  }

  lemma {:induction false} RanOn(run0: seq<Step>, groups: seq<seq<Step>>, a: nat, b: nat)
    requires a <= b <= |groups|
    ensures Ran(Ran(run0, groups, 0, a), groups, a, b) == Ran(run0, groups, 0, b)
    decreases b
  {
    if a < b {
      RanOn(run0, groups, a, b - 1);
    }
  }

  lemma {:induction false} RanWide(run0: seq<Step>, groups: seq<seq<Step>>, used: nat)
    requires used <= |groups| && Wide(run0) && forall g :: g in groups ==> Wide(g)
    ensures Wide(Ran(run0, groups, 0, used))
    decreases used
  {
    if used > 0 {
      RanWide(run0, groups, used - 1);
      assert Wide(groups[used - 1]);
    }
  }

  /** A scan in progress: the run so far has made view, and the batches are those of the run. */
  ghost predicate Underway(view: map<Bytes, Cell>, gs: seq<Glimpse>, ps: seq<nat>, run: seq<Step>, l: nat,
                           home: Bytes -> nat, i: nat)
  {
    view == Memory(map[], run) && History(gs, ps, run, l, home, i)
  }

  /** As long as every write is mild the slots only grow. */
  ghost predicate Grows(keys: seq<Bytes>, gs: seq<Glimpse>) {
    AllPassedOn(gs) && (gs != [] ==> gs[|gs| - 1].slots <= keys)
  }

  /** The batches have been read up to the offset, and delivered out. */
  ghost predicate Read(gs: seq<Glimpse>, offset: nat, out: seq<Emission>, seen: nat) {
    && AllValid(gs) && out == Pieces(gs, seen)
    && offset == BATCH * |gs| && forall b :: 0 <= b < |gs| ==> GoesOn(gs, b)
  }

  lemma UnderwayMore(view: map<Bytes, Cell>, g: Glimpse, gs: seq<Glimpse>, ps: seq<nat>, run: seq<Step>, l: nat,
                     home: Bytes -> nat, i: nat)
    requires Underway(view, gs, ps, run, l, home, i) && Shot(g, run, l, |run|, home, i) && Neat(g)
    ensures Underway(view, gs + [g], ps + [|run|], run, l, home, i)
    ensures Grows(g.slots, gs) ==> Grows(g.slots, gs + [g])
  {
    hide History, Memory, Shot;
    HistoryMore(gs, ps, g, run, l, home, i);
    if Grows(g.slots, gs) {
      GrowsMore(g, gs);
    }
  }

  lemma GrowsMore(g: Glimpse, gs: seq<Glimpse>)
    requires Grows(g.slots, gs)
    ensures Grows(g.slots, gs + [g])
  {
    var all := gs + [g];
    forall b: nat | b + 1 < |all| ensures PassedOn(all[b], all[b + 1], b) {
      if b + 1 < |gs| {
        assert PassedOn(gs[b], gs[b + 1], b);
      }
    }
  }

  lemma UnderwayLater(view: map<Bytes, Cell>, gs: seq<Glimpse>, ps: seq<nat>, run: seq<Step>, l: nat,
                      home: Bytes -> nat, i: nat, group: seq<Step>)
    requires Underway(view, gs, ps, run, l, home, i)
    ensures Underway(Memory(view, group), gs, ps, run + group, l, home, i)
  {
    hide History, Memory;
    MemoryJoin(map[], run, group);
    HistoryLater(gs, ps, run, run + group, l, home, i);
  }

  lemma ReadMore(gs: seq<Glimpse>, offset: nat, out: seq<Emission>, seen: nat, g: Glimpse)
    requires Read(gs, offset, out, seen) && g.Valid() && offset + BATCH < |g.slots|
    ensures Read(gs + [g], offset + BATCH, out + Batch(g, offset, BATCH, seen), seen)
  {
    hide Batch;
    var all := gs + [g];
    assert all[..|gs|] == gs;
    forall b | 0 <= b < |all| ensures GoesOn(all, b) {
      assert b < |gs| ==> GoesOn(gs, b);
    }
  }

  /** The batch that comes to the end completes the scan. */
  lemma ReadLast(view: map<Bytes, Cell>, gs: seq<Glimpse>, ps: seq<nat>, run: seq<Step>, l: nat, home: Bytes -> nat,
                 i: nat, offset: nat, out: seq<Emission>, seen: nat, g: Glimpse)
    requires Underway(view, gs + [g], ps + [|run|], run, l, home, i)
    requires Read(gs, offset, out, seen) && g.Valid() && offset + BATCH >= |g.slots|
    ensures var part := PartOf(gs + [g], ps + [|run|]);
            && Sound(part, run, l, home, i) && out + Batch(g, offset, BATCH, seen) == One(part, seen)
            && (AllPassedOn(gs + [g]) ==> Steady(part.trace))
  {
    hide Batch, History, Memory, Scan, Sees, Bounded, Steady, AllPassedOn, Longest;
    var all := gs + [g];
    assert all[..|gs|] == gs;
    HistoryIsSound(all, ps + [|run|], run, l, home, i);
    if AllPassedOn(all) {
      PassedIsSteady(all, ps + [|run|], run, l, home, i);
    }
    forall b | 0 <= b < |gs| ensures GoesOn(all, b) {
      assert GoesOn(gs, b);
    }
    PiecesAreScan(all, Longest(all), seen);
  }

  /** A group of writes between two batches. */
  method WriteGroup(st: Store, i: nat, group: seq<Step>, ghost gs: seq<Glimpse>, ghost ps: seq<nat>,
                    ghost run: seq<Step>, ghost l: nat)
    requires st.Valid() && st.maxMemory <= 0 && i < |st.shards| && AllWritable(group)
    requires Underway(st.view, gs, ps, run, l, Home(st.hash, |st.shards|), i)
    modifies st, st.shards, st.Entries()
    ensures st.Valid() && (forall e :: e in st.Entries() ==> e in old(st.Entries()) || fresh(e))
    ensures st.view == Memory(old(st.view), group)
    ensures Underway(st.view, gs, ps, run + group, l, Home(st.hash, |st.shards|), i)
    ensures AllMild(old(st.view), group) && Grows(Keys(old(st.shards[i].slots)), gs) ==>
      Grows(Keys(st.shards[i].slots), gs)
  {
    hide Store.Valid, Store.Entries, Memory, AllMild, AllWritable, Underway, Extends, Keys, Home;
    ghost var view, before := st.view, st.Slots();
    WriteAll(st, group);
    if AllMild(view, group) {
      StillThere(before, st.Slots(), i);
    }
    UnderwayLater(view, gs, ps, run, l, Home(st.hash, |st.shards|), i, group);
  }

  lemma UnderwayStart(view: map<Bytes, Cell>, keys: seq<Bytes>, run: seq<Step>, l: nat, home: Bytes -> nat, i: nat,
                      seen: nat)
    requires view == Memory(map[], run)
    ensures Underway(view, [], [], run, l, home, i) && Read([], 0, [], seen) && Grows(keys, [])
  {
  }

  lemma CalmNext(m: map<Bytes, Cell>, groups: seq<seq<Step>>, used: nat)
    requires used < |groups| && Calm(m, groups[used..])
    ensures AllMild(m, groups[used]) && Calm(Memory(m, groups[used]), groups[used + 1..])
  {
    hide AllMild, Memory;
    assert groups[used..][0] == groups[used] && groups[used..][1..] == groups[used + 1..];
  }

  /** One batch, under the shard's lock. */
  method ReadNow(st: Store, i: nat, offset: nat, seen: nat, ghost run: seq<Step>, ghost l: nat)
    returns (batch: seq<Emission>, ghost g: Glimpse)
    requires st.Valid() && i < |st.shards| && st.view == Memory(map[], run) && l <= |run|
    ensures st.Valid() && st.Entries() == old(st.Entries())
    ensures g.Valid() && Neat(g) && g.slots == Keys(st.shards[i].slots) && batch == Batch(g, offset, BATCH, seen)
    ensures Shot(g, run, l, |run|, Home(st.hash, |st.shards|), i)
  {
    hide Memory, Shot, Batch, Keys, Home, Glance, Holds, Slice;
    ShotNow(st, run, l, i);
    g := Glance(st.shards[i]);
    batch := ReadBatch(st.shards[i], offset, seen);
  }

  /** The batches of one shard, each under its own lock, with a group of writes after each while
      there are any left. */
  method ScanShard(st: Store, i: nat, groups: seq<seq<Step>>, first: nat, seen: nat, ghost run0: seq<Step>,
                   ghost l: nat)
    returns (out: seq<Emission>, used: nat, ghost run: seq<Step>, ghost part: Part)
    requires st.Valid() && st.maxMemory <= 0 && i < |st.shards| && first <= |groups|
    requires (forall g :: g in groups ==> AllWritable(g)) && st.view == Memory(map[], run0) && l <= |run0|
    modifies st, st.shards, st.Entries()
    ensures st.Valid() && (forall e :: e in st.Entries() ==> e in old(st.Entries()) || fresh(e))
    ensures st.view == Memory(map[], run) && first <= used <= |groups| && run == Ran(run0, groups, first, used)
    ensures Sound(part, run, l, Home(st.hash, |st.shards|), i) && out == One(part, seen)
    ensures Calm(old(st.view), groups[first..]) ==> Calm(st.view, groups[used..]) && Steady(part.trace)
  {
    hide Store.Valid, Store.Entries, Memory, AllMild, AllWritable, Calm, Shot, Batch, Underway, Read, Keys, Home, Sound,
      Glance, One, Grows, Neat, Steady, Longest;
    out, used, run := [], first, run0;
    var offset: nat := 0;
    ghost var gs: seq<Glimpse>, ps: seq<nat>, home := [], [], Home(st.hash, |st.shards|);
    ghost var calm := Calm(st.view, groups[first..]);
    UnderwayStart(st.view, Keys(st.shards[i].slots), run, l, home, i, seen);
    while true
      invariant st.Valid() && (forall e :: e in st.Entries() ==> e in old(st.Entries()) || fresh(e))
      invariant first <= used <= |groups| && run == Ran(run0, groups, first, used) && l <= |run|
      invariant st.view == Memory(map[], run)
      invariant Underway(st.view, gs, ps, run, l, home, i) && Read(gs, offset, out, seen)
      invariant calm ==> Calm(st.view, groups[used..]) && Grows(Keys(st.shards[i].slots), gs)
      decreases |groups| - used, |st.shards[i].slots| - offset
    {
      var batch;
      ghost var g;
      batch, g := ReadNow(st, i, offset, seen, run, l);
      UnderwayMore(st.view, g, gs, ps, run, l, home, i);
      if offset + BATCH >= |st.shards[i].slots| {
        ReadLast(st.view, gs, ps, run, l, home, i, offset, out, seen, g);
        GrowsMeans(g.slots, gs + [g]);
        part, out := PartOf(gs + [g], ps + [|run|]), out + batch;
        return;
      }
      ReadMore(gs, offset, out, seen, g);
      gs, ps, out, offset := gs + [g], ps + [|run|], out + batch, offset + BATCH;
      if used < |groups| {
        if calm {
          CalmNext(st.view, groups, used);
        }
        MemoryJoin(map[], run, groups[used]);
        WriteGroup(st, i, groups[used], gs, ps, run, l);
        run, used := run + groups[used], used + 1;
      }
    }
  }

  lemma GrowsMeans(keys: seq<Bytes>, gs: seq<Glimpse>)
    ensures Grows(keys, gs) ==> AllPassedOn(gs)
  {
  }

  lemma StillThere(before: seq<seq<Entry>>, after: seq<seq<Entry>>, i: nat)
    requires Extends(before, after) && i < |before|
    ensures i < |after| && Keys(before[i]) <= Keys(after[i])
  {
    KeysPrefix(before[i], after[i]);
  }

  lemma ScannedMore(parts: seq<Part>, part: Part, run: seq<Step>, later: seq<Step>, l: nat, home: Bytes -> nat,
                    seen: nat)
    requires Scanned(parts, run, l, home) && run <= later && Sound(part, later, l, home, |parts|)
    ensures Scanned(parts + [part], later, l, home) && AllBounded(parts) && AllBounded(parts + [part])
    ensures All(parts + [part], seen) == All(parts, seen) + One(part, seen)
  {
    hide Sound, One, Bounded;
    var all := parts + [part];
    assert all[..|parts|] == parts;
    forall i | 0 <= i < |all| ensures Sound(all[i], later, l, home, i) {
      if i < |parts| {
        SoundLater(parts[i], run, later, l, home, i);
      }
    }
    ScannedBounded(all, later, l, home);
  }

  lemma AllHome(st: Store, k: Bytes)
    requires st.Valid()
    ensures Home(st.hash, |st.shards|)(k) < |st.shards|
  {
  }

  lemma SteadyMore(parts: seq<Part>, part: Part)
    ensures AllSteady(parts) && Steady(part.trace) ==> AllSteady(parts + [part])
  {
    hide Steady;
  }

  /** A checkpoint's scan of a store without a memory limit, with any groups of writes and reclaims
      executed between the batches: as long as none takes an entry out of a slot already passed, what
      is written out shows every key as it was at some point since the scan began. SETs, and EXPIREs
      that do not find their key expired, never do. */
  method Take(st: Store, groups: seq<seq<Step>>, seen: nat, ghost run0: seq<Step>)
    returns (out: seq<Emission>, used: nat, ghost run: seq<Step>, ghost parts: seq<Part>, ghost p: Bytes -> nat)
    requires st.Valid() && st.maxMemory <= 0 && st.view == Memory(map[], run0)
    requires forall g :: g in groups ==> AllWritable(g)
    modifies st, st.shards, st.Entries()
    ensures st.Valid() && (forall e :: e in st.Entries() ==> e in old(st.Entries()) || fresh(e))
    ensures st.view == Memory(map[], run) && used <= |groups| && run == Ran(run0, groups, 0, used)
    ensures |parts| == |st.shards| && Scanned(parts, run, |run0|, Home(st.hash, |st.shards|))
    ensures AllBounded(parts) && out == All(parts, seen) && Genuine(out, run)
    ensures AllSteady(parts) ==> Fuzzy(PutAll(map[], out), run, |run0|, p, seen)
    ensures Calm(old(st.view), groups) ==> AllSteady(parts)
  {
    hide Store.Valid, Store.Entries, Memory, Calm, Home, Sound, One, All, Scanned, AllBounded, Ran, Fuzzy, PutAll,
      Genuine, AllSteady, Steady, AllWritable;
    out, used, run, parts, p := [], 0, run0, [], _ => 0;
    ghost var home, l := Home(st.hash, |st.shards|), |run0|;
    ghost var calm := Calm(st.view, groups);
    assert groups[0..] == groups;
    TakeStart(run0, groups, l, home, seen);
    for i := 0 to |st.shards|
      invariant st.Valid() && (forall e :: e in st.Entries() ==> e in old(st.Entries()) || fresh(e))
      invariant st.view == Memory(map[], run) && used <= |groups| && run == Ran(run0, groups, 0, used)
      invariant |parts| == i && Scanned(parts, run, l, home) && AllBounded(parts) && out == All(parts, seen)
      invariant calm ==> Calm(st.view, groups[used..]) && AllSteady(parts)
    {
      ghost var before := run;
      ghost var part;
      var first, es := used, [];
      es, used, run, part := ScanShard(st, i, groups, first, seen, before, l);
      RanOn(run0, groups, first, used);
      ScannedMore(parts, part, before, run, l, home, seen);
      SteadyMore(parts, part);
      out, parts := out + es, parts + [part];
    }
    AllGenuine(parts, run, l, home, seen);
    if AllSteady(parts) {
      forall k ensures home(k) < |parts| {
        AllHome(st, k);
      }
      p := CheckpointIsFuzzy(parts, run, l, home, seen);
    }
  }

  lemma TakeStart(run0: seq<Step>, groups: seq<seq<Step>>, l: nat, home: Bytes -> nat, seen: nat)
    ensures Scanned([], run0, l, home) && AllBounded([]) && All([], seen) == [] && Ran(run0, groups, 0, 0) == run0
    ensures AllSteady([])
  {
  }
}
