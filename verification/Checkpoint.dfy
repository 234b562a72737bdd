/** A checkpoint taken while writers go on, and what recovery makes of it. */
module Checkpoints {
  import opened Bytes
  import opened Shards
  import opened Expiry
  import opened RangeScan
  import opened Recovery

  /** The scan of one shard: what each batch saw, and how many steps of the run it came after. */
  datatype Part = Part(trace: nat -> Glimpse, bound: nat, pos: nat -> nat)

  ghost predicate Sound(part: Part, run: seq<Step>, l: nat, home: Bytes -> nat, i: nat) {
    Bounded(part.trace, part.bound) && Sees(part.trace, run, l, part.pos, home, i)
  }

  /** All shards were scanned, each in its own time, from step l on. */
  ghost predicate Scanned(parts: seq<Part>, run: seq<Step>, l: nat, home: Bytes -> nat) {
    forall i :: 0 <= i < |parts| ==> Sound(parts[i], run, l, home, i)
  }

  /** In no shard did an entry leave a slot its scan had passed. */
  ghost predicate AllSteady(parts: seq<Part>) {
    forall i :: 0 <= i < |parts| ==> Steady(parts[i].trace)
  }

  ghost predicate AllBounded(parts: seq<Part>) {
    forall i :: 0 <= i < |parts| ==> Bounded(parts[i].trace, parts[i].bound)
  }

  ghost function One(part: Part, seen: nat): (r: seq<Emission>)
    requires Bounded(part.trace, part.bound)
  {
    Scan(part.trace, 0, 0, part.bound, seen)
  }

  /** What the checkpoint writes out. */
  ghost function All(parts: seq<Part>, seen: nat): (r: seq<Emission>)
    requires AllBounded(parts)
    decreases |parts|
  {
    if parts == [] then [] else All(parts[..|parts| - 1], seen) + One(parts[|parts| - 1], seen)
  }

  lemma ElsewhereAbsent(part: Part, run: seq<Step>, l: nat, home: Bytes -> nat, i: nat, seen: nat, k: Bytes)
    requires Sound(part, run, l, home, i) && home(k) != i
    ensures Absent(One(part, seen), k)
  {
    hide Scan, Steady, Bounded, Memory;
    forall x | x in One(part, seen) ensures x.0 != k {
      var at := ScanSound(part.trace, 0, 0, part.bound, seen, x);
      assert Shot(part.trace(at), run, l, part.pos(at), home, i);
    }
  }

  lemma {:induction false} PrefixAbsent(parts: seq<Part>, run: seq<Step>, l: nat, home: Bytes -> nat, seen: nat,
                                        k: Bytes)
    requires Scanned(parts, run, l, home) && AllBounded(parts) && home(k) >= |parts|
    ensures Absent(All(parts, seen), k)
    decreases |parts|
  {
    hide Sound, One, Bounded;
    if parts != [] {
      var n := |parts| - 1;
      PrefixAbsent(parts[..n], run, l, home, seen, k);
      ElsewhereAbsent(parts[n], run, l, home, n, seen, k);
      AbsentBoth(All(parts[..n], seen), One(parts[n], seen), k);
    }
  }

  /** Only its own shard's scan can show a key. */
  lemma {:induction false} OnlyAtHome(parts: seq<Part>, run: seq<Step>, l: nat, home: Bytes -> nat, seen: nat, k: Bytes)
    returns (before: seq<Emission>, after: seq<Emission>)
    requires Scanned(parts, run, l, home) && AllBounded(parts) && home(k) < |parts|
    ensures Absent(before, k) && Absent(after, k)
    ensures All(parts, seen) == before + One(parts[home(k)], seen) + after
    decreases |parts|
  {
    hide Sound, One, Bounded;
    var n := |parts| - 1;
    if home(k) == n {
      PrefixAbsent(parts[..n], run, l, home, seen, k);
      before, after := All(parts[..n], seen), [];
    } else {
      before, after := OnlyAtHome(parts[..n], run, l, home, seen, k);
      ElsewhereAbsent(parts[n], run, l, home, n, seen, k);
      AbsentBoth(after, One(parts[n], seen), k);
      after := after + One(parts[n], seen);
    }
  }

  /** Everything written out was in memory at some point. */
  ghost predicate Genuine(es: seq<Emission>, run: seq<Step>) {
    forall x :: x in es ==> exists q :: WasIn(x, run, q)
  }

  ghost predicate WasIn(x: Emission, run: seq<Step>, q: nat) {
    q <= |run| && At(Memory(map[], run[..q]), x.0) == Some(x.1)
  }

  lemma OneGenuine(part: Part, run: seq<Step>, l: nat, home: Bytes -> nat, i: nat, seen: nat)
    requires Sound(part, run, l, home, i)
    ensures Genuine(One(part, seen), run)
  {
    hide Scan, Steady, Bounded, Memory;
    forall x | x in One(part, seen) ensures exists q :: WasIn(x, run, q) {
      var at := ScanSound(part.trace, 0, 0, part.bound, seen, x);
      assert Shot(part.trace(at), run, l, part.pos(at), home, i);
      assert WasIn(x, run, part.pos(at));
    }
  }

  lemma {:induction false} AllGenuine(parts: seq<Part>, run: seq<Step>, l: nat, home: Bytes -> nat, seen: nat)
    requires Scanned(parts, run, l, home) && AllBounded(parts)
    ensures Genuine(All(parts, seen), run)
    decreases |parts|
  {
    hide Sound, One, Bounded, WasIn;
    if parts != [] {
      var n := |parts| - 1;
      AllGenuine(parts[..n], run, l, home, seen);
      OneGenuine(parts[n], run, l, home, n, seen);
    }
  }

  /** The snapshot shows k as it was after q steps. */
  ghost predicate ShownAt(parts: seq<Part>, run: seq<Step>, l: nat, seen: nat, k: Bytes, q: nat)
    requires AllBounded(parts)
  {
    && l <= q <= |run|
    && At(PutAll(map[], All(parts, seen)), k) == Visible(At(Memory(map[], run[..q]), k), seen)
  }

  lemma ShownSomewhere(parts: seq<Part>, run: seq<Step>, l: nat, home: Bytes -> nat, seen: nat, k: Bytes)
    requires Scanned(parts, run, l, home) && AllBounded(parts) && AllSteady(parts) && home(k) < |parts|
    ensures exists q :: ShownAt(parts, run, l, seen, k, q)
  {
    hide All, PutAll, Memory, Scan, Sees, Steady, Bounded;
    var before, after := OnlyAtHome(parts, run, l, home, seen, k);
    var part := parts[home(k)];
    assert Sound(part, run, l, home, home(k)) && Steady(part.trace);
    var q := ScanIsFuzzy(part.trace, part.bound, run, l, part.pos, home, before, after, seen, k);
    assert ShownAt(parts, run, l, seen, k, q);
  }

  ghost function Point(parts: seq<Part>, run: seq<Step>, l: nat, home: Bytes -> nat, seen: nat, k: Bytes): (q: nat)
    requires Scanned(parts, run, l, home) && AllBounded(parts) && AllSteady(parts) && home(k) < |parts|
    ensures ShownAt(parts, run, l, seen, k, q)
  {
    ShownSomewhere(parts, run, l, home, seen, k);
    var q :| ShownAt(parts, run, l, seen, k, q);
    q
  }

  lemma ScannedBounded(parts: seq<Part>, run: seq<Step>, l: nat, home: Bytes -> nat)
    requires Scanned(parts, run, l, home)
    ensures AllBounded(parts)
  {
    forall i | 0 <= i < |parts| ensures Bounded(parts[i].trace, parts[i].bound) {
      assert Sound(parts[i], run, l, home, i);
    }
  }

  /** However the writers' steps fall between the batches, as long as none takes an entry out of
      a slot already passed, the checkpoint shows every key as it was at some point since l. */
  lemma CheckpointIsFuzzy(parts: seq<Part>, run: seq<Step>, l: nat, home: Bytes -> nat, seen: nat)
    returns (p: Bytes -> nat)
    requires Scanned(parts, run, l, home) && AllSteady(parts) && forall k :: home(k) < |parts|
    ensures AllBounded(parts) && Fuzzy(PutAll(map[], All(parts, seen)), run, l, p, seen)
  {
    hide All, PutAll, Memory, Scanned, AllBounded, AllSteady;
    ScannedBounded(parts, run, l, home);
    p := k => if Scanned(parts, run, l, home) && AllBounded(parts) && AllSteady(parts) && home(k) < |parts|
              then Point(parts, run, l, home, seen, k) else 0;
    forall k ensures ShownAt(parts, run, l, seen, k, p(k)) {
      assert p(k) == Point(parts, run, l, home, seen, k);
    }
  }

  /** Loading such a checkpoint and replaying the log above step l gives the live keyspace of
      memory, if and only if no live key has an EXPIRE replayed over a deadline passed by then. */
  lemma CheckpointRecoveryIff(parts: seq<Part>, run: seq<Step>, l: nat, home: Bytes -> nat, seen: nat,
                              clock: nat -> nat, start: nat, end: nat) returns (p: Bytes -> nat)
    requires Scanned(parts, run, l, home) && AllSteady(parts) && forall k :: home(k) < |parts|
    requires Suffix(run, clock, start) && l <= |run| && seen <= start <= end
    ensures AllBounded(parts) && Fuzzy(PutAll(map[], All(parts, seen)), run, l, p, seen)
    ensures Live(Replayed(PutAll(map[], All(parts, seen)), run[l..], clock, 0), end) ==
            Live(Memory(map[], run), end) <==>
            forall k :: k in Live(Memory(map[], run), end) ==> KeyAhead(run, l, p, clock, k)
  {
    hide All, PutAll, Memory, Replayed, Fuzzy, KeyAhead, Live, Suffix;
    p := CheckpointIsFuzzy(parts, run, l, home, seen);
    assert Fuzzy(PutAll(map[], All(parts, seen)), run, l, p, seen);
    RecoveryIff(run, l, p, PutAll(map[], All(parts, seen)), seen, clock, start, end);
  }

  // Widths

  /** Deadlines are 64-bit. */
  ghost predicate Wide(steps: seq<Step>) {
    forall i :: 0 <= i < |steps| && steps[i].Do? && (steps[i].op.Set? || steps[i].op.Expire?) ==>
      steps[i].op.expireAt < U64
  }

  ghost predicate WideCells(m: map<Bytes, Cell>) {
    forall k :: k in m ==> m[k].expireAt < U64
  }

  lemma {:induction false} MemoryWide(m: map<Bytes, Cell>, steps: seq<Step>)
    requires WideCells(m) && Wide(steps)
    ensures WideCells(Memory(m, steps))
    decreases |steps|
  {
    if steps != [] {
      MemoryWide(After(m, steps[0]), steps[1..]);
    }
  }

  lemma GenuineWide(es: seq<Emission>, run: seq<Step>)
    requires Genuine(es, run) && Wide(run)
    ensures forall x :: x in es ==> x.1.expireAt < U64
  {
    hide Memory;
    forall x | x in es ensures x.1.expireAt < U64 {
      var q: nat :| WasIn(x, run, q);
      MemoryWide(map[], run[..q]);
    }
  }
}
