/** Iterating a shard in bounded batches, each under its own lock. */
module RangeScan {
  import opened Bytes
  import opened Shards
  import opened Expiry

  const BATCH := 256

  /** What one locked batch sees of a shard: the slot array's keys and the cells behind them. */
  datatype Glimpse = Glimpse(slots: seq<Bytes>, mem: map<Bytes, Cell>) {
    ghost predicate Valid() {
      forall i :: 0 <= i < |slots| ==> slots[i] in mem
    }
  }

  type Emission = (Bytes, Cell)

  /** Up to `room` live entries from position j on. */
  ghost function Batch(g: Glimpse, j: nat, room: nat, nowMs: nat): (r: seq<Emission>)
    requires g.Valid()
    decreases |g.slots| - j
  {
    if j >= |g.slots| || room == 0 then []
    else if g.mem[g.slots[j]].Expired(nowMs) then Batch(g, j + 1, room, nowMs)
    else [(g.slots[j], g.mem[g.slots[j]])] + Batch(g, j + 1, room - 1, nowMs)
  }

  /** Batches b, b + 1, ... from an offset on, each seeing the shard as it is at that moment. */
  ghost predicate Bounded(trace: nat -> Glimpse, bound: nat) {
    forall b :: trace(b).Valid() && |trace(b).slots| <= bound
  }

  ghost function Scan(trace: nat -> Glimpse, b: nat, offset: nat, bound: nat, nowMs: nat): (r: seq<Emission>)
    requires Bounded(trace, bound)
    decreases bound - offset
  {
    var g := trace(b);
    if offset >= |g.slots| then []
    else if offset + BATCH >= |g.slots| then Batch(g, offset, BATCH, nowMs)
    else Batch(g, offset, BATCH, nowMs) + Scan(trace, b + 1, offset + BATCH, bound, nowMs)
  }

  lemma ScanStep(trace: nat -> Glimpse, b: nat, offset: nat, bound: nat, nowMs: nat)
    requires Bounded(trace, bound)
    ensures var g := trace(b);
            && g.Valid() && |g.slots| <= bound
            && Scan(trace, b, offset, bound, nowMs) ==
               if offset >= |g.slots| then []
               else if offset + BATCH >= |g.slots| then Batch(g, offset, BATCH, nowMs)
               else Batch(g, offset, BATCH, nowMs) + Scan(trace, b + 1, offset + BATCH, bound, nowMs)
  {
  }

  /** A shard nobody changes looks the same to every batch. */
  function Still(g: Glimpse): (r: nat -> Glimpse) {
    _ => g
  }

  ghost function Glance(s: Shard): (r: Glimpse)
    reads s, s.repr
    requires s.Valid()
  {
    Glimpse(Keys(s.slots), s.Contents())
  }

  ghost function Keys(slots: seq<Entry>): (r: seq<Bytes>)
    ensures |r| == |slots| && forall i :: 0 <= i < |r| ==> r[i] == slots[i].key
  {
    seq(|slots|, i requires 0 <= i < |slots| => slots[i].key)
  }

  lemma GlanceAt(s: Shard, j: nat)
    requires s.Valid()
    ensures Glance(s).Valid() && |Glance(s).slots| == |s.slots|
    ensures j < |s.slots| ==> Glance(s).slots[j] == s.slots[j].key && s.slots[j] in s.repr
    ensures j < |s.slots| ==> Glance(s).mem[s.slots[j].key] == Cell(s.slots[j].value, s.slots[j].expireAt)
  {
    forall i | 0 <= i < |s.slots| ensures s.slots[i].key in s.Contents() {
      s.CellOf(s.slots[i]);
    }
    if j < |s.slots| {
      s.CellOf(s.slots[j]);
    }
  }

  lemma GlanceBounded(s: Shard)
    requires s.Valid()
    ensures Glance(s).Valid() && Bounded(Still(Glance(s)), |s.slots|)
  {
    GlanceAt(s, 0);
  }

  lemma BatchStep(g: Glimpse, from: nat, j: nat, out: seq<Emission>, nowMs: nat)
    requires g.Valid() && from <= j < |g.slots| && |out| < BATCH
    requires Batch(g, from, BATCH, nowMs) == out + Batch(g, j, BATCH - |out|, nowMs)
    ensures var c := g.mem[g.slots[j]]; var more := if c.Expired(nowMs) then out else out + [(g.slots[j], c)];
            Batch(g, from, BATCH, nowMs) == more + Batch(g, j + 1, BATCH - |more|, nowMs)
  {
    var c := g.mem[g.slots[j]];
    if !c.Expired(nowMs) {
      var x, y := [(g.slots[j], c)], Batch(g, j + 1, BATCH - |out| - 1, nowMs);
      assert out + (x + y) == (out + x) + y;
    }
  }

  /** One locked batch of the loop. */
  method ReadBatch(s: Shard, offset: nat, nowMs: nat) returns (batch: seq<Emission>)
    requires s.Valid()
    ensures Glance(s).Valid() && batch == Batch(Glance(s), offset, BATCH, nowMs)
  {
    hide s.Valid, Glance;
    batch := [];
    var j := offset;
    GlanceAt(s, j);
    while j < |s.slots| && |batch| < BATCH
      invariant offset <= j && |batch| <= BATCH && Glance(s).Valid()
      invariant Batch(Glance(s), offset, BATCH, nowMs) == batch + Batch(Glance(s), j, BATCH - |batch|, nowMs)
    {
      GlanceAt(s, j);
      BatchStep(Glance(s), offset, j, batch, nowMs);
      var e := s.slots[j];
      if !e.Expired(nowMs) {
        batch := batch + [(e.key, Cell(e.value, e.expireAt))];
      }
      j := j + 1;
    }
  }

  /** The whole loop on a shard nobody else touches. */
  method Range(s: Shard, nowMs: nat) returns (out: seq<Emission>)
    requires s.Valid()
    ensures Bounded(Still(Glance(s)), |s.slots|)
    ensures out == Scan(Still(Glance(s)), 0, 0, |s.slots|, nowMs)
  {
    hide s.Valid, Glance, Scan, Batch, Bounded;
    GlanceBounded(s);
    GlanceAt(s, 0);
    out := [];
    var offset, total := 0, |s.slots|;
    ghost var trace := Still(Glance(s));
    ghost var b := 0;
    while true
      invariant Bounded(trace, total) && trace(b) == Glance(s) && |Glance(s).slots| == total
      invariant Scan(trace, 0, 0, total, nowMs) == out + Scan(trace, b, offset, total, nowMs)
      decreases total - offset
    {
      ScanStep(trace, b, offset, total, nowMs);
      var batch := ReadBatch(s, offset, nowMs);
      var scanned := if BATCH < total - offset then BATCH else total - offset;
      if scanned <= 0 {
        break;
      }
      ghost var rest := if offset + BATCH >= total then [] else Scan(trace, b + 1, offset + BATCH, total, nowMs);
      assert out + (batch + rest) == (out + batch) + rest;
      offset, b, out := offset + scanned, b + 1, out + batch;
      if offset >= total {
        break;
      }
    }
  }

  // What one batch delivers

  ghost predicate Shows(g: Glimpse, x: Emission, nowMs: nat) {
    x.0 in g.mem && x.1 == g.mem[x.0] && !x.1.Expired(nowMs) && x.0 in g.slots
  }

  lemma {:induction false} BatchSound(g: Glimpse, j: nat, room: nat, nowMs: nat, x: Emission)
    requires g.Valid() && x in Batch(g, j, room, nowMs)
    ensures Shows(g, x, nowMs)
    decreases |g.slots| - j
  {
    if g.mem[g.slots[j]].Expired(nowMs) {
      BatchSound(g, j + 1, room, nowMs, x);
    } else if x != (g.slots[j], g.mem[g.slots[j]]) {
      BatchSound(g, j + 1, room - 1, nowMs, x);
    }
  }

  lemma {:induction false} BatchCovers(g: Glimpse, j: nat, room: nat, nowMs: nat, i: nat)
    requires g.Valid() && j <= i < |g.slots| && i < j + room && !g.mem[g.slots[i]].Expired(nowMs)
    ensures (g.slots[i], g.mem[g.slots[i]]) in Batch(g, j, room, nowMs)
    decreases |g.slots| - j
  {
    if j < i {
      BatchCovers(g, j + 1, if g.mem[g.slots[j]].Expired(nowMs) then room else room - 1, nowMs, i);
    }
  }

  lemma {:induction false} BatchWithin(g: Glimpse, j: nat, room: nat, nowMs: nat, x: Emission) returns (i: nat)
    requires g.Valid() && x in Batch(g, j, room, nowMs)
    ensures j <= i < |g.slots| && g.slots[i] == x.0
    decreases |g.slots| - j
  {
    if g.mem[g.slots[j]].Expired(nowMs) {
      i := BatchWithin(g, j + 1, room, nowMs, x);
    } else if x == (g.slots[j], g.mem[g.slots[j]]) {
      i := j;
    } else {
      i := BatchWithin(g, j + 1, room - 1, nowMs, x);
    }
  }

  // What the whole scan delivers

  /** Nothing is made up: every emission was in the shard, live, when its batch was read. */
  lemma {:induction false} ScanSound(trace: nat -> Glimpse, b: nat, offset: nat, bound: nat, nowMs: nat, x: Emission)
    returns (at: nat)
    requires Bounded(trace, bound) && x in Scan(trace, b, offset, bound, nowMs)
    ensures b <= at && Shows(trace(at), x, nowMs)
    decreases bound - offset
  {
    var g := trace(b);
    if x in Batch(g, offset, BATCH, nowMs) {
      BatchSound(g, offset, BATCH, nowMs, x);
      at := b;
    } else {
      at := ScanSound(trace, b + 1, offset + BATCH, bound, nowMs, x);
    }
  }

  ghost predicate Distinct(s: seq<Bytes>) {
    forall i, j :: 0 <= i < j < |s| ==> s[i] != s[j]
  }

  /** Between batch b and the next, no slot the scan has passed changes hands. */
  ghost predicate Passed(trace: nat -> Glimpse, b: nat) {
    BATCH * (b + 1) < |trace(b).slots| ==> trace(b).slots[..BATCH * (b + 1)] <= trace(b + 1).slots
  }

  /** Entries are added at the end, changed in place, or removed from slots the scan has not come to. */
  ghost predicate Steady(trace: nat -> Glimpse) {
    forall b :: Distinct(trace(b).slots) && Passed(trace, b)
  }

  /** Entries are only added at the end or changed in place. */
  ghost predicate Growing(trace: nat -> Glimpse) {
    forall a, b :: a <= b ==> trace(a).slots <= trace(b).slots
  }

  lemma GrowingIsSteady(trace: nat -> Glimpse)
    requires Growing(trace) && forall b :: Distinct(trace(b).slots)
    ensures Steady(trace)
  {
    forall b: nat ensures Passed(trace, b) {
      assert trace(b).slots <= trace(b + 1).slots;
    }
  }

  /** A key that is there at every batch keeps ahead of the scan until a batch reads its slot. */
  lemma {:induction false} ScanCovers(trace: nat -> Glimpse, b: nat, bound: nat, nowMs: nat, k: Bytes, i: nat)
    returns (at: nat)
    requires Bounded(trace, bound) && Steady(trace) && forall a :: a >= b ==> k in trace(a).slots
    requires BATCH * b <= i < |trace(b).slots| && trace(b).slots[i] == k
    ensures b <= at && k in trace(at).mem
    ensures !trace(at).mem[k].Expired(nowMs) ==> (k, trace(at).mem[k]) in Scan(trace, b, BATCH * b, bound, nowMs)
    decreases bound - BATCH * b
  {
    hide Batch, Scan, Bounded, Steady;
    var g := trace(b);
    ScanStep(trace, b, BATCH * b, bound, nowMs);
    if i < BATCH * b + BATCH {
      at := b;
      if !g.mem[k].Expired(nowMs) {
        BatchCovers(g, BATCH * b, BATCH, nowMs, i);
      }
    } else {
      var h := NotPassed(trace, b, k, i);
      at := ScanCovers(trace, b + 1, bound, nowMs, k, h);
    }
  }

  lemma NotPassed(trace: nat -> Glimpse, b: nat, k: Bytes, i: nat) returns (h: nat)
    requires Steady(trace) && k in trace(b + 1).slots
    requires BATCH * (b + 1) <= i < |trace(b).slots| && trace(b).slots[i] == k
    ensures BATCH * (b + 1) <= h < |trace(b + 1).slots| && trace(b + 1).slots[h] == k
  {
    h :| 0 <= h < |trace(b + 1).slots| && trace(b + 1).slots[h] == k;
    assert Distinct(trace(b).slots) && Passed(trace, b);
    assert forall j :: 0 <= j < BATCH * (b + 1) ==> trace(b + 1).slots[j] == trace(b).slots[j];
  }

  // What a removal between batches does

  /** The shard after the entry in slot i has been removed. */
  ghost function Removed(g: Glimpse, i: nat): (r: Glimpse)
    requires g.Valid() && i < |g.slots| && Distinct(g.slots)
    ensures r.Valid()
  {
    Glimpse(SwapRemove(g.slots, i), g.mem - {g.slots[i]})
  }

  /** c batches see g, the rest see it with slot i removed. */
  ghost function Then(g: Glimpse, c: nat, i: nat): (r: nat -> Glimpse)
    requires g.Valid() && i < |g.slots| && Distinct(g.slots)
  {
    b => if b < c then g else Removed(g, i)
  }

  ghost predicate Absent(es: seq<Emission>, k: Bytes) {
    forall x :: x in es ==> x.0 != k
  }

  lemma AbsentBoth(a: seq<Emission>, b: seq<Emission>, k: Bytes)
    ensures Absent(a + b, k) <==> Absent(a, k) && Absent(b, k)
  {
    forall x | x in a ensures x in a + b {}
    forall x | x in b ensures x in a + b {}
  }

  /** One entry, not the last, is removed after c batches. */
  ghost predicate Removal(g: Glimpse, c: nat, i: nat, bound: nat) {
    g.Valid() && Distinct(g.slots) && i < |g.slots| - 1 && BATCH * c < |g.slots| && Bounded(Then(g, c, i), bound)
  }

  /** What batches b to c of a shard at rest deliver. */
  ghost function Batches(g: Glimpse, b: nat, c: nat, nowMs: nat): (r: seq<Emission>)
    requires g.Valid()
    decreases c - b
  {
    if b >= c then [] else Batch(g, BATCH * b, BATCH, nowMs) + Batches(g, b + 1, c, nowMs)
  }

  lemma {:induction false} ScanBefore(g: Glimpse, c: nat, i: nat, b: nat, bound: nat, nowMs: nat)
    requires Removal(g, c, i, bound) && b <= c
    ensures Scan(Then(g, c, i), b, BATCH * b, bound, nowMs) ==
            Batches(g, b, c, nowMs) + Scan(Then(g, c, i), c, BATCH * c, bound, nowMs)
    decreases c - b
  {
    hide Scan, Batch, Bounded, Removed, Distinct;
    if b < c {
      assert BATCH * b + BATCH == BATCH * (b + 1) <= BATCH * c;
      ScanStep(Then(g, c, i), b, BATCH * b, bound, nowMs);
      ScanBefore(g, c, i, b + 1, bound, nowMs);
      JoinAssoc(Batch(g, BATCH * b, BATCH, nowMs), Batches(g, b + 1, c, nowMs),
             Scan(Then(g, c, i), c, BATCH * c, bound, nowMs));
    }
  }

  lemma {:induction false} MissedAfter(g: Glimpse, c: nat, i: nat, b: nat, bound: nat, nowMs: nat)
    requires Removal(g, c, i, bound) && c <= b && i < BATCH * b
    ensures Absent(Scan(Then(g, c, i), b, BATCH * b, bound, nowMs), g.slots[|g.slots| - 1])
    decreases if bound >= BATCH * b then bound - BATCH * b else 0
  {
    hide Scan, Batch, Bounded;
    var last, r := g.slots[|g.slots| - 1], Removed(g, i);
    ScanStep(Then(g, c, i), b, BATCH * b, bound, nowMs);
    forall x | x in Batch(r, BATCH * b, BATCH, nowMs) ensures x.0 != last {
      var h := BatchWithin(r, BATCH * b, BATCH, nowMs, x);
      assert r.slots[h] == g.slots[h];
    }
    if BATCH * b + BATCH < |r.slots| {
      MissedAfter(g, c, i, b + 1, bound, nowMs);
      AbsentBoth(Batch(r, BATCH * b, BATCH, nowMs), Scan(Then(g, c, i), b + 1, BATCH * (b + 1), bound, nowMs), last);
    }
  }

  lemma MovedTo(g: Glimpse, i: nat)
    requires g.Valid() && Distinct(g.slots) && i < |g.slots| - 1
    ensures var r, last := Removed(g, i), g.slots[|g.slots| - 1];
            && |r.slots| == |g.slots| - 1 && r.slots[i] == last && Distinct(r.slots)
            && (forall h :: 0 <= h < |r.slots| && h != i ==> r.slots[h] == g.slots[h])
            && last in r.mem && r.mem[last] == g.mem[last]
  {
  }

  /** A removal from a slot the scan has not come to. */
  lemma RemovalIsSteady(g: Glimpse, c: nat, i: nat, bound: nat)
    requires Removal(g, c, i, bound) && i >= BATCH * c
    ensures Steady(Then(g, c, i))
  {
    hide Distinct, Bounded, Removed;
    var trace, r := Then(g, c, i), Removed(g, i);
    MovedTo(g, i);
    forall b: nat ensures Passed(trace, b) {
      if b + 1 == c {
        assert g.slots[..BATCH * c] == r.slots[..BATCH * c];
      }
    }
  }

  lemma DeadIsAbsent(g: Glimpse, c: nat, i: nat, bound: nat, nowMs: nat)
    requires Removal(g, c, i, bound) && g.mem[g.slots[|g.slots| - 1]].Expired(nowMs)
    ensures Absent(Scan(Then(g, c, i), 0, 0, bound, nowMs), g.slots[|g.slots| - 1])
  {
    hide Distinct, Bounded, Removed, Scan;
    MovedTo(g, i);
    forall x | x in Scan(Then(g, c, i), 0, 0, bound, nowMs) ensures x.0 != g.slots[|g.slots| - 1] {
      var at := ScanSound(Then(g, c, i), 0, 0, bound, nowMs, x);
      assert Then(g, c, i)(at) in {g, Removed(g, i)};
    }
  }

  lemma MovedIsCovered(g: Glimpse, c: nat, i: nat, bound: nat, nowMs: nat)
    requires Removal(g, c, i, bound) && i >= BATCH * c && !g.mem[g.slots[|g.slots| - 1]].Expired(nowMs)
    ensures !Absent(Scan(Then(g, c, i), 0, 0, bound, nowMs), g.slots[|g.slots| - 1])
  {
    hide Scan, Steady, Bounded, Distinct, Removed;
    var trace, last := Then(g, c, i), g.slots[|g.slots| - 1];
    MovedTo(g, i);
    RemovalIsSteady(g, c, i, bound);
    forall b: nat ensures last in trace(b).slots && last in trace(b).mem && trace(b).mem[last] == g.mem[last] {
      assert trace(b) == if b < c then g else Removed(g, i);
      assert trace(b).slots[if b < c then |g.slots| - 1 else i] == last;
    }
    var h := if c > 0 then |g.slots| - 1 else i;
    assert trace(0).slots[h] == last;
    var at := ScanCovers(trace, 0, bound, nowMs, last, h);
  }

  /** Coverage is lost to removals: when slot i is removed after c batches, the entry of the last
      slot, never touched, is missed if and only if it is dead, or i had been passed and the
      batches before had not read as far as the last slot. */
  lemma RemovalHidesIff(g: Glimpse, c: nat, i: nat, bound: nat, nowMs: nat)
    requires Removal(g, c, i, bound)
    ensures var last := g.slots[|g.slots| - 1];
            Absent(Scan(Then(g, c, i), 0, 0, bound, nowMs), last) <==>
            g.mem[last].Expired(nowMs) || (i < BATCH * c && Absent(Batches(g, 0, c, nowMs), last))
  {
    hide Scan, Batch, Absent, Batches, Removed, Bounded;
    var last, tail := g.slots[|g.slots| - 1], Scan(Then(g, c, i), c, BATCH * c, bound, nowMs);
    ScanBefore(g, c, i, 0, bound, nowMs);
    AbsentBoth(Batches(g, 0, c, nowMs), tail, last);
    if g.mem[last].Expired(nowMs) {
      DeadIsAbsent(g, c, i, bound, nowMs);
    } else if i < BATCH * c {
      MissedAfter(g, c, i, c, bound, nowMs);
    } else {
      MovedIsCovered(g, c, i, bound, nowMs);
    }
  }

  ghost predicate AllLive(g: Glimpse, nowMs: nat)
    requires g.Valid()
  {
    forall i :: 0 <= i < |g.slots| ==> !g.mem[g.slots[i]].Expired(nowMs)
  }

  /** A batch of live entries does not read past its share of the slots. */
  lemma {:induction false} LiveBatchWithin(g: Glimpse, j: nat, room: nat, nowMs: nat, x: Emission) returns (i: nat)
    requires g.Valid() && AllLive(g, nowMs) && x in Batch(g, j, room, nowMs)
    ensures j <= i < |g.slots| && i < j + room && g.slots[i] == x.0
    decreases |g.slots| - j
  {
    hide AllLive;
    LiveAt(g, nowMs, j);
    if x == (g.slots[j], g.mem[g.slots[j]]) {
      i := j;
    } else {
      i := LiveBatchWithin(g, j + 1, room - 1, nowMs, x);
    }
  }

  lemma LiveAt(g: Glimpse, nowMs: nat, j: nat)
    requires g.Valid() && AllLive(g, nowMs) && j < |g.slots|
    ensures !g.mem[g.slots[j]].Expired(nowMs)
  {
  }

  lemma {:induction false} LiveBatchesEarly(g: Glimpse, b: nat, c: nat, nowMs: nat)
    requires g.Valid() && Distinct(g.slots) && AllLive(g, nowMs) && BATCH * c < |g.slots|
    ensures Absent(Batches(g, b, c, nowMs), g.slots[|g.slots| - 1])
    decreases c - b
  {
    hide Batch, AllLive;
    if b < c {
      var last, batch := g.slots[|g.slots| - 1], Batch(g, BATCH * b, BATCH, nowMs);
      forall x | x in batch ensures x.0 != last {
        var i := LiveBatchWithin(g, BATCH * b, BATCH, nowMs, x);
        assert i < BATCH * (b + 1) <= BATCH * c;
      }
      LiveBatchesEarly(g, b + 1, c, nowMs);
      AbsentBoth(batch, Batches(g, b + 1, c, nowMs), last);
    }
  }

  /** With nothing expired the untouched entry is missed exactly when the freed slot had been passed. */
  lemma LiveRemovalHidesIff(g: Glimpse, c: nat, i: nat, bound: nat, nowMs: nat)
    requires Removal(g, c, i, bound) && AllLive(g, nowMs)
    ensures Absent(Scan(Then(g, c, i), 0, 0, bound, nowMs), g.slots[|g.slots| - 1]) <==> i < BATCH * c
  {
    hide Scan, Batches, Absent, Bounded, AllLive;
    LiveBatchesEarly(g, 0, c, nowMs);
    LiveAt(g, nowMs, |g.slots| - 1);
    RemovalHidesIff(g, c, i, bound, nowMs);
  }

  /** n live entries under two-byte keys, all different up to n == 2^16. */
  function Row(n: nat): (g: Glimpse)
    ensures |g.slots| == n && forall i :: 0 <= i < n ==> g.slots[i] == LE(i, 2)
    ensures g.mem == map k | k in g.slots :: Cell([], 0)
  {
    var slots := seq(n, i requires 0 <= i < n => LE(i, 2));
    Glimpse(slots, map k | k in slots :: Cell([], 0))
  }

  /** Slot 0 of 300 is removed after the first batch: the entry of slot 299 is never seen. */
  lemma HiddenEntry()
    ensures var g := Row(300);
            && Removal(g, 1, 0, 300) && AllLive(g, 0)
            && Absent(Scan(Then(g, 1, 0), 0, 0, 300, 0), g.slots[299])
  {
    hide Scan, Absent, LE, FromLE;
    var g := Row(300);
    forall i, j | 0 <= i < j < |g.slots| ensures g.slots[i] != g.slots[j] {
      LEFits(i, 2);
      LEFits(j, 2);
    }
    assert g.Valid() && Distinct(g.slots) && |Removed(g, 0).slots| == 299;
    assert Bounded(Then(g, 1, 0), 300);
    LiveRemovalHidesIff(g, 1, 0, 300, 0);
  }

  // What a scan at rest delivers twice

  ghost predicate Unique(es: seq<Emission>) {
    forall i, j :: 0 <= i < j < |es| ==> es[i].0 != es[j].0
  }

  ghost predicate Apart(a: seq<Emission>, b: seq<Emission>) {
    forall x, y :: x in a && y in b ==> x.0 != y.0
  }

  lemma UniqueJoin(a: seq<Emission>, b: seq<Emission>)
    ensures Unique(a + b) <==> Unique(a) && Unique(b) && Apart(a, b)
  {
    var c := a + b;
    if Unique(c) {
      forall i, j | 0 <= i < j < |b| ensures b[i].0 != b[j].0 {
        assert c[|a| + i] == b[i] && c[|a| + j] == b[j];
      }
      forall i, j | 0 <= i < j < |a| ensures a[i].0 != a[j].0 {
        assert c[i] == a[i] && c[j] == a[j];
      }
      forall x, y | x in a && y in b ensures x.0 != y.0 {
        var i :| 0 <= i < |a| && a[i] == x;
        var j :| 0 <= j < |b| && b[j] == y;
        assert c[i] == x && c[|a| + j] == y;
      }
    }
  }

  /** How many of the slots from a up to c are live. */
  ghost function LiveCount(g: Glimpse, a: nat, c: nat, nowMs: nat): (n: nat)
    requires g.Valid() && c <= |g.slots|
    decreases c - a
  {
    if a >= c then 0 else LiveCount(g, a + 1, c, nowMs) + if g.mem[g.slots[a]].Expired(nowMs) then 0 else 1
  }

  lemma {:induction false} LiveCountJoin(g: Glimpse, a: nat, m: nat, c: nat, nowMs: nat)
    requires g.Valid() && a <= m <= c <= |g.slots|
    ensures LiveCount(g, a, c, nowMs) == LiveCount(g, a, m, nowMs) + LiveCount(g, m, c, nowMs)
    decreases m - a
  {
    if a < m {
      LiveCountJoin(g, a + 1, m, c, nowMs);
    }
  }

  /** All of them, if and only if none has expired. */
  lemma {:induction false} LiveCountFull(g: Glimpse, a: nat, c: nat, nowMs: nat)
    requires g.Valid() && a <= c <= |g.slots|
    ensures LiveCount(g, a, c, nowMs) <= c - a
    ensures LiveCount(g, a, c, nowMs) == c - a <==> forall p :: a <= p < c ==> !g.mem[g.slots[p]].Expired(nowMs)
    decreases c - a
  {
    if a < c {
      LiveCountFull(g, a + 1, c, nowMs);
    }
  }

  lemma {:induction false} LiveCountNone(g: Glimpse, a: nat, c: nat, nowMs: nat)
    requires g.Valid() && a <= c <= |g.slots| && forall p :: a <= p < c ==> g.mem[g.slots[p]].Expired(nowMs)
    ensures LiveCount(g, a, c, nowMs) == 0
    decreases c - a
  {
    if a < c {
      LiveCountNone(g, a + 1, c, nowMs);
    }
  }

  /** A batch reaches a live slot if and only if there is room for what is live before it. */
  lemma {:induction false} BatchReaches(g: Glimpse, j: nat, room: nat, nowMs: nat, i: nat)
    requires g.Valid() && j <= i < |g.slots| && !g.mem[g.slots[i]].Expired(nowMs)
    requires LiveCount(g, j, i, nowMs) < room
    ensures (g.slots[i], g.mem[g.slots[i]]) in Batch(g, j, room, nowMs)
    decreases |g.slots| - j
  {
    if j < i {
      BatchReaches(g, j + 1, if g.mem[g.slots[j]].Expired(nowMs) then room else room - 1, nowMs, i);
    }
  }

  lemma {:induction false} BatchStops(g: Glimpse, j: nat, room: nat, nowMs: nat, x: Emission) returns (i: nat)
    requires g.Valid() && x in Batch(g, j, room, nowMs)
    ensures j <= i < |g.slots| && g.slots[i] == x.0 && !g.mem[g.slots[i]].Expired(nowMs)
    ensures LiveCount(g, j, i, nowMs) < room
    decreases |g.slots| - j
  {
    if g.mem[g.slots[j]].Expired(nowMs) {
      i := BatchStops(g, j + 1, room, nowMs, x);
    } else if x == (g.slots[j], g.mem[g.slots[j]]) {
      i := j;
    } else {
      i := BatchStops(g, j + 1, room - 1, nowMs, x);
    }
  }

  lemma {:induction false} BatchUnique(g: Glimpse, j: nat, room: nat, nowMs: nat)
    requires g.Valid() && Distinct(g.slots)
    ensures Unique(Batch(g, j, room, nowMs))
    decreases |g.slots| - j
  {
    if j < |g.slots| && room > 0 {
      if g.mem[g.slots[j]].Expired(nowMs) {
        BatchUnique(g, j + 1, room, nowMs);
      } else {
        var head, rest := [(g.slots[j], g.mem[g.slots[j]])], Batch(g, j + 1, room - 1, nowMs);
        BatchUnique(g, j + 1, room - 1, nowMs);
        forall x, y | x in head && y in rest ensures x.0 != y.0 {
          var i := BatchWithin(g, j + 1, room - 1, nowMs, y);
        }
        UniqueJoin(head, rest);
      }
    }
  }

  /** No slot from `from` on is live in a later group of 256 than one that has expired. */
  ghost predicate Clear(g: Glimpse, from: nat, nowMs: nat)
    requires g.Valid()
  {
    forall p, q :: from <= p < q < |g.slots| && g.mem[g.slots[p]].Expired(nowMs) && !g.mem[g.slots[q]].Expired(nowMs)
      ==> p / BATCH == q / BATCH
  }

  /** Then a batch keeps to its own group. */
  lemma BatchKeepsTo(g: Glimpse, b: nat, nowMs: nat, x: Emission) returns (i: nat)
    requires g.Valid() && Clear(g, BATCH * b, nowMs) && x in Batch(g, BATCH * b, BATCH, nowMs)
    ensures BATCH * b <= i < BATCH * (b + 1) && i < |g.slots| && g.slots[i] == x.0
  {
    hide Batch, LiveCount;
    var o := BATCH * b;
    i := BatchStops(g, o, BATCH, nowMs, x);
    if i >= o + BATCH {
      LiveCountJoin(g, o, o + BATCH, i, nowMs);
      LiveCountFull(g, o, o + BATCH, nowMs);
      var p :| o <= p < o + BATCH && g.mem[g.slots[p]].Expired(nowMs);
      SameGroup(b, p);
    }
  }

  lemma SameGroup(b: nat, p: nat)
    ensures p / BATCH == b <==> BATCH * b <= p < BATCH * (b + 1)
  {
  }

  /** The scan from group b on has nothing of the groups before it. */
  lemma {:induction false} ScanFrom(g: Glimpse, b: nat, nowMs: nat, x: Emission) returns (i: nat)
    requires Bounded(Still(g), |g.slots|) && x in Scan(Still(g), b, BATCH * b, |g.slots|, nowMs)
    ensures BATCH * b <= i < |g.slots| && g.slots[i] == x.0
    decreases |g.slots| - BATCH * b
  {
    hide Batch, Scan;
    ScanStep(Still(g), b, BATCH * b, |g.slots|, nowMs);
    if x in Batch(g, BATCH * b, BATCH, nowMs) {
      i := BatchWithin(g, BATCH * b, BATCH, nowMs, x);
    } else {
      i := ScanFrom(g, b + 1, nowMs, x);
    }
  }

  /** A batch with an expired slot in its own group reads on into the next. */
  lemma ReadsOn(g: Glimpse, b: nat, nowMs: nat, p: nat, i: nat)
    requires g.Valid() && BATCH * b <= p < BATCH * (b + 1) <= i < |g.slots|
    requires g.mem[g.slots[p]].Expired(nowMs) && !g.mem[g.slots[i]].Expired(nowMs)
    requires forall q :: BATCH * (b + 1) <= q < i ==> g.mem[g.slots[q]].Expired(nowMs)
    ensures (g.slots[i], g.mem[g.slots[i]]) in Batch(g, BATCH * b, BATCH, nowMs)
  {
    hide Batch, LiveCount;
    var o, m := BATCH * b, BATCH * (b + 1);
    LiveCountJoin(g, o, m, i, nowMs);
    LiveCountNone(g, m, i, nowMs);
    LiveCountFull(g, o, m, nowMs);
    BatchReaches(g, o, BATCH, nowMs, i);
  }

  /** An expired slot in group b and a live one in a later group: the first such is read by batch b,
      in place of the expired one, and again by its own. */
  lemma ReadTwice(g: Glimpse, b: nat, nowMs: nat, p: nat, q: nat)
    requires Bounded(Still(g), |g.slots|) && g.Valid() && Distinct(g.slots)
    requires BATCH * b <= p < BATCH * (b + 1) <= q < |g.slots|
    requires g.mem[g.slots[p]].Expired(nowMs) && !g.mem[g.slots[q]].Expired(nowMs)
    ensures !Apart(Batch(g, BATCH * b, BATCH, nowMs), Scan(Still(g), b + 1, BATCH * (b + 1), |g.slots|, nowMs))
  {
    hide Batch, Scan, Bounded, Steady, Distinct;
    var i := FirstLive(g, BATCH * (b + 1), q, nowMs);
    ReadsOn(g, b, nowMs, p, i);
    StillSteady(g);
    var at := ScanCovers(Still(g), b + 1, |g.slots|, nowMs, g.slots[i], i);
  }

  lemma StillSteady(g: Glimpse)
    requires Distinct(g.slots)
    ensures Steady(Still(g))
  {
  }

  lemma {:induction false} FirstLive(g: Glimpse, m: nat, q: nat, nowMs: nat) returns (i: nat)
    requires g.Valid() && m <= q < |g.slots| && !g.mem[g.slots[q]].Expired(nowMs)
    ensures m <= i <= q && !g.mem[g.slots[i]].Expired(nowMs)
    ensures forall p :: m <= p < i ==> g.mem[g.slots[p]].Expired(nowMs)
    decreases q - m
  {
    i := m;
    if g.mem[g.slots[m]].Expired(nowMs) {
      i := FirstLive(g, m + 1, q, nowMs);
    }
  }

  /** A scan of a shard at rest delivers every live key once if and only if no key is live in a later
      group of 256 slots than one that has expired. */
  lemma {:induction false} OnceIff(g: Glimpse, b: nat, nowMs: nat)
    requires Bounded(Still(g), |g.slots|) && g.Valid() && Distinct(g.slots)
    ensures Unique(Scan(Still(g), b, BATCH * b, |g.slots|, nowMs)) <==> Clear(g, BATCH * b, nowMs)
    decreases |g.slots| - BATCH * b
  {
    hide Batch, Scan, Unique, Clear, Apart, Bounded;
    var o := BATCH * b;
    ScanStep(Still(g), b, o, |g.slots|, nowMs);
    BatchUnique(g, o, BATCH, nowMs);
    if o + BATCH >= |g.slots| {
      NoneTwice();
      LastGroup(g, b, nowMs);
    } else {
      var first, rest := Batch(g, o, BATCH, nowMs), Scan(Still(g), b + 1, o + BATCH, |g.slots|, nowMs);
      OnceIff(g, b + 1, nowMs);
      UniqueJoin(first, rest);
      ClearNext(g, b, nowMs);
      if Clear(g, o, nowMs) {
        GroupsApart(g, b, nowMs);
      } else if Clear(g, o + BATCH, nowMs) {
        var p, q := Unclear(g, b, nowMs);
        ReadTwice(g, b, nowMs, p, q);
      }
    }
  }

  lemma NoneTwice()
    ensures Unique([])
  {
  }

  lemma LastGroup(g: Glimpse, b: nat, nowMs: nat)
    requires g.Valid() && BATCH * b + BATCH >= |g.slots|
    ensures Clear(g, BATCH * b, nowMs)
  {
    forall p, q | BATCH * b <= p < q < |g.slots| ensures p / BATCH == q / BATCH {
      SameGroup(b, p);
      SameGroup(b, q);
    }
  }

  lemma ClearNext(g: Glimpse, b: nat, nowMs: nat)
    requires g.Valid()
    ensures Clear(g, BATCH * b, nowMs) ==> Clear(g, BATCH * (b + 1), nowMs)
  {
  }

  lemma Unclear(g: Glimpse, b: nat, nowMs: nat) returns (p: nat, q: nat)
    requires g.Valid() && !Clear(g, BATCH * b, nowMs) && Clear(g, BATCH * (b + 1), nowMs)
    ensures BATCH * b <= p < BATCH * (b + 1) <= q < |g.slots|
    ensures g.mem[g.slots[p]].Expired(nowMs) && !g.mem[g.slots[q]].Expired(nowMs)
  {
    p, q :| BATCH * b <= p < q < |g.slots| && g.mem[g.slots[p]].Expired(nowMs) && !g.mem[g.slots[q]].Expired(nowMs)
      && p / BATCH != q / BATCH;
    SameGroup(b, p);
    SameGroup(b, q);
  }

  lemma GroupsApart(g: Glimpse, b: nat, nowMs: nat)
    requires Bounded(Still(g), |g.slots|) && g.Valid() && Distinct(g.slots) && Clear(g, BATCH * b, nowMs)
    ensures Apart(Batch(g, BATCH * b, BATCH, nowMs), Scan(Still(g), b + 1, BATCH * (b + 1), |g.slots|, nowMs))
  {
    hide Batch, Scan, Clear, Bounded;
    forall x, y | x in Batch(g, BATCH * b, BATCH, nowMs)
                  && y in Scan(Still(g), b + 1, BATCH * (b + 1), |g.slots|, nowMs)
      ensures x.0 != y.0
    {
      var i := BatchKeepsTo(g, b, nowMs, x);
      var j := ScanFrom(g, b + 1, nowMs, y);
    }
  }

  /** 257 slots, the first expired: the first batch reads on into the second group, and slot 256 is
      delivered twice. */
  lemma DeliveredTwice()
    ensures var g := Row(257);
            var dead := g.(mem := g.mem[g.slots[0] := Cell([], 1)]);
            Bounded(Still(dead), 257) && !Unique(Scan(Still(dead), 0, 0, 257, 1))
  {
    hide Scan, Unique, LE, FromLE;
    var g := Row(257);
    forall i, j | 0 <= i < j < |g.slots| ensures g.slots[i] != g.slots[j] {
      LEFits(i, 2);
      LEFits(j, 2);
    }
    var dead := g.(mem := g.mem[g.slots[0] := Cell([], 1)]);
    assert dead.Valid() && Distinct(dead.slots) && Bounded(Still(dead), 257);
    assert dead.slots[256] != dead.slots[0];
    assert !Clear(dead, 0, 1);
    OnceIff(dead, 0, 1);
  }

  // Rebuilding a keyspace from emissions

  ghost function PutAll(m: map<Bytes, Cell>, es: seq<Emission>): (r: map<Bytes, Cell>)
    decreases |es|
  {
    if es == [] then m else PutAll(m[es[0].0 := es[0].1], es[1..])
  }

  /** A key holds its own cell if it is never emitted, and otherwise one of those emitted. */
  lemma {:induction false} PutAllAt(m: map<Bytes, Cell>, es: seq<Emission>, k: Bytes)
    ensures Absent(es, k) ==> (k in PutAll(m, es) <==> k in m) && (k in m ==> PutAll(m, es)[k] == m[k])
    ensures !Absent(es, k) ==> k in PutAll(m, es) && (k, PutAll(m, es)[k]) in es
    decreases |es|
  {
    if es != [] {
      PutAllAt(m[es[0].0 := es[0].1], es[1..], k);
    }
  }

  /** Scanning a shard at rest and storing what comes out rebuilds exactly its live keyspace. */
  lemma ScanRebuilds(g: Glimpse, nowMs: nat)
    requires g.Valid() && Distinct(g.slots) && (forall k :: k in g.mem ==> k in g.slots)
    ensures Bounded(Still(g), |g.slots|) && PutAll(map[], Scan(Still(g), 0, 0, |g.slots|, nowMs)) == Live(g.mem, nowMs)
  {
    var es, got := Scan(Still(g), 0, 0, |g.slots|, nowMs), PutAll(map[], Scan(Still(g), 0, 0, |g.slots|, nowMs));
    forall k ensures k in got <==> k in Live(g.mem, nowMs) {
      RebuiltAt(g, nowMs, k);
    }
    forall k | k in got ensures got[k] == Live(g.mem, nowMs)[k] {
      RebuiltAt(g, nowMs, k);
    }
  }

  lemma RebuiltAt(g: Glimpse, nowMs: nat, k: Bytes)
    requires g.Valid() && Distinct(g.slots) && (forall k :: k in g.mem ==> k in g.slots)
    requires Bounded(Still(g), |g.slots|)
    ensures var got := PutAll(map[], Scan(Still(g), 0, 0, |g.slots|, nowMs));
            (k in got <==> k in Live(g.mem, nowMs)) && (k in got ==> got[k] == g.mem[k])
  {
    var es := Scan(Still(g), 0, 0, |g.slots|, nowMs);
    PutAllAt(map[], es, k);
    if k in Live(g.mem, nowMs) {
      var i :| 0 <= i < |g.slots| && g.slots[i] == k;
      var at := ScanCovers(Still(g), 0, |g.slots|, nowMs, k, i);
      assert (k, g.mem[k]) in es;
    }
    if k in PutAll(map[], es) {
      var at := ScanSound(Still(g), 0, 0, |g.slots|, nowMs, (k, PutAll(map[], es)[k]));
    }
  }

  lemma {:induction false} PutAllJoin(m: map<Bytes, Cell>, a: seq<Emission>, b: seq<Emission>)
    ensures PutAll(m, a + b) == PutAll(PutAll(m, a), b)
    decreases |a|
  {
    if a == [] {
      assert a + b == b;
    } else {
      assert (a + b)[1..] == a[1..] + b;
      PutAllJoin(m[a[0].0 := a[0].1], a[1..], b);
    }
  }

  lemma {:induction false} PutAllOver(m: map<Bytes, Cell>, n: map<Bytes, Cell>, es: seq<Emission>)
    ensures PutAll(m + n, es) == m + PutAll(n, es)
    decreases |es|
  {
    if es != [] {
      assert (m + n)[es[0].0 := es[0].1] == m + n[es[0].0 := es[0].1];
      PutAllOver(m, n[es[0].0 := es[0].1], es[1..]);
    }
  }

  /** No slot is live in a later group of 256 than one that has expired. */
  ghost predicate OnceEach(slots: seq<Entry>, nowMs: nat)
    reads slots`expireAt
  {
    forall p, q :: 0 <= p < q < |slots| && slots[p].Expired(nowMs) && !slots[q].Expired(nowMs) ==> p / 256 == q / 256
  }

  lemma ClearGlance(s: Shard, nowMs: nat)
    requires s.Valid()
    ensures Glance(s).Valid() && (Clear(Glance(s), 0, nowMs) <==> OnceEach(s.slots, nowMs))
  {
    hide s.Valid, Glance;
    GlanceAt(s, 0);
    forall p | 0 <= p < |s.slots|
      ensures Glance(s).mem[Glance(s).slots[p]].Expired(nowMs) <==> s.slots[p].Expired(nowMs)
    {
      GlanceAt(s, p);
    }
  }

  /** A shard at rest, read by the loop: storing what comes out gives its live keyspace. */
  method Collect(s: Shard, nowMs: nat) returns (out: seq<Emission>)
    requires s.Valid()
    ensures PutAll(map[], out) == Live(s.Contents(), nowMs) && OutOf(out, s.Contents())
    ensures Unique(out) <==> OnceEach(s.slots, nowMs)
  {
    hide s.Valid, Scan, Live, CellsOf, PutAll, Unique, Clear, OnceEach;
    GlanceAll(s);
    out := Range(s, nowMs);
    OnceIff(Glance(s), 0, nowMs);
    ClearGlance(s, nowMs);
    ScanRebuilds(Glance(s), nowMs);
    GlanceAt(s, 0);
    forall x | x in out ensures x.0 in s.Contents() && x.1 == s.Contents()[x.0] {
      var at := ScanSound(Still(Glance(s)), 0, 0, |s.slots|, nowMs, x);
    }
  }

  /** Every emission shows a key as it is in m. */
  ghost predicate OutOf(es: seq<Emission>, m: map<Bytes, Cell>) {
    forall x :: x in es ==> x.0 in m && x.1 == m[x.0]
  }

  lemma GlanceAll(s: Shard)
    requires s.Valid()
    ensures Glance(s).Valid() && Distinct(Glance(s).slots) && forall k :: k in Glance(s).mem ==> k in Glance(s).slots
  {
    GlanceAt(s, 0);
    forall k | k in Glance(s).mem ensures k in Glance(s).slots {
      assert s.entries[k] in s.repr && s.slots[s.entries[k].slot] == s.entries[k];
      assert Glance(s).slots[s.entries[k].slot] == k;
    }
  }
}
