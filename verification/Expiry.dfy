/** Active expiration: sampled sweeps and the full purge. */
module Expiry {
  import opened Bytes
  import opened Shards

  const PURGE_BATCH: nat := 1024

  /** The keys whose deadline has passed. */
  ghost function Dead(m: map<Bytes, Cell>, nowMs: nat): (d: set<Bytes>) {
    set k | k in m && m[k].Expired(nowMs)
  }

  /** The keyspace a client can see. */
  ghost function Live(m: map<Bytes, Cell>, nowMs: nat): (r: map<Bytes, Cell>) {
    m - Dead(m, nowMs)
  }

  /** A key is visible until its deadline, and every key is either visible or dead. */
  lemma LiveOrDead(m: map<Bytes, Cell>, nowMs: nat)
    ensures forall k :: k in Live(m, nowMs) <==> k in m && (m[k].expireAt == 0 || nowMs < m[k].expireAt)
    ensures |m| == |Live(m, nowMs)| + |Dead(m, nowMs)| && Live(m, nowMs) == m - Dead(m, nowMs)
  {
    assert m.Keys == Live(m, nowMs).Keys + Dead(m, nowMs);
    assert |m.Keys| == |Live(m, nowMs).Keys| + |Dead(m, nowMs)|;
  }

  lemma DeadMore(m: map<Bytes, Cell>, gone: set<Bytes>, nowMs: nat, k: Bytes)
    requires gone <= Dead(m, nowMs) && k in m - gone && (m - gone)[k].Expired(nowMs)
    ensures gone + {k} <= Dead(m, nowMs) && |gone + {k}| == |gone| + 1
    ensures m - gone - {k} == m - (gone + {k})
  {
  }

  lemma DeadRest(m: map<Bytes, Cell>, gone: set<Bytes>, nowMs: nat)
    requires gone <= Dead(m, nowMs)
    ensures Dead(m - gone, nowMs) == Dead(m, nowMs) - gone
    ensures Live(m - gone, nowMs) == Live(m, nowMs)
    ensures |Dead(m, nowMs)| == |gone| + |Dead(m, nowMs) - gone|
  {
    assert Dead(m, nowMs) == gone + (Dead(m, nowMs) - gone);
  }

  /** No expired entry from this position of the TTL array on. */
  ghost predicate Clean(list: seq<Entry>, from: int, nowMs: nat)
    reads list`expireAt
  {
    forall i :: 0 <= i < |list| && from <= i ==> !list[i].Expired(nowMs)
  }

  lemma CleanIsLive(s: Shard, nowMs: nat)
    requires s.Indexed() && Clean(s.ttlSlots, 0, nowMs)
    ensures Dead(s.Contents(), nowMs) == {}
  {
    forall k | k in s.Contents() ensures !s.Contents()[k].Expired(nowMs) {
      var e := s.entries[k];
      assert e.expireAt != 0 ==> s.ttlSlots[e.ttlSlot] == e;
    }
  }

  lemma TtlEntry(s: Shard, j: nat)
    requires s.Indexed() && j < |s.ttlSlots|
    ensures s.ttlSlots[j] in s.repr && s.ttlSlots[j].ttlSlot == j && s.ttlSlots[j].expireAt != 0
  {
  }

  /** The last slot fills the hole: nothing unexamined moves behind position j. */
  lemma CleanStep(before: seq<Entry>, j: nat, nowMs: nat)
    requires j < |before| && Clean(before, j + 1, nowMs)
    ensures Clean(SwapRemove(before, j), j, nowMs) && |SwapRemove(before, j)| == |before| - 1
  {
  }

  /** Removes the entry at position j, behind which nothing is expired. */
  method PurgeAt(s: Shard, j: nat, ghost nowMs: nat)
    requires s.Valid() && j < |s.ttlSlots| && Clean(s.ttlSlots, j + 1, nowMs)
    modifies s, s.repr
    ensures s.Valid() && s.repr <= old(s.repr)
    ensures var k := old(s.ttlSlots[j].key); s.Contents() == old(s.Contents()) - {k} && s.Thinned({k})
    ensures |s.ttlSlots| == |old(s.ttlSlots)| - 1 && Clean(s.ttlSlots, j, nowMs)
  {
    hide s.Indexed, CellsOf, Weight, Dropped, Kept, Ranked;
    TtlEntry(s, j);
    CleanStep(s.ttlSlots, j, nowMs);
    s.RemoveEntry(s.ttlSlots[j]);
  }

  /** One locked pass over the TTL array, from the back, bounded in what it removes. */
  method PurgeBatch(s: Shard, nowMs: nat) returns (removed: nat, ghost gone: set<Bytes>)
    requires s.Valid()
    modifies s, s.repr
    ensures s.Valid() && s.repr <= old(s.repr)
    ensures gone <= Dead(old(s.Contents()), nowMs) && |gone| == removed
    ensures s.Contents() == old(s.Contents()) - gone
    ensures removed < PURGE_BATCH ==> gone == Dead(old(s.Contents()), nowMs)
    ensures |s.ttlSlots| == |old(s.ttlSlots)| - removed && s.Thinned(gone)
  {
    hide s.Indexed, CellsOf, Weight, Dropped, Dead, Kept, Ranked, SwapRemove;
    removed, gone := 0, {};
    KeptAll(s.lru);
    MinusNone(s.Contents());
    DeadRest(s.Contents(), {}, nowMs);
    var j := |s.ttlSlots| - 1;
    while j >= 0 && removed < PURGE_BATCH
      invariant s.Valid() && s.repr <= old(s.repr) && s.Contents() == old(s.Contents()) - gone
      invariant gone <= Dead(old(s.Contents()), nowMs) && |gone| == removed
      invariant -1 <= j < |s.ttlSlots| && Clean(s.ttlSlots, j + 1, nowMs)
      invariant |s.ttlSlots| == |old(s.ttlSlots)| - removed && s.Thinned(gone)
      decreases j
    {
      var e := s.ttlSlots[j];
      TtlEntry(s, j);
      if e.Expired(nowMs) {
        s.CellOf(e);
        DeadMore(old(s.Contents()), gone, nowMs, e.key);
        KeptTwice(old(s.lru), gone, {e.key});
        PurgeAt(s, j, nowMs);
        removed, gone := removed + 1, gone + {e.key};
      }
      j := j - 1;
    }
    if removed < PURGE_BATCH {
      CleanIsLive(s, nowMs);
    }
    DeadRest(old(s.Contents()), gone, nowMs);
  }

  /** Pass after pass until one comes back short. */
  method Purge(s: Shard, nowMs: nat) returns (total: nat)
    requires s.Valid()
    modifies s, s.repr
    ensures s.Valid() && s.repr <= old(s.repr)
    ensures s.Contents() == Live(old(s.Contents()), nowMs)
    ensures total == |Dead(old(s.Contents()), nowMs)| && s.Thinned(Dead(old(s.Contents()), nowMs))
  {
    hide s.Valid, CellsOf, Dead, Kept;
    total := 0;
    ghost var all: set<Bytes> := {};
    MinusNone(s.Contents());
    KeptAll(s.lru);
    while true
      invariant s.Valid() && s.repr <= old(s.repr) && s.Contents() == old(s.Contents()) - all && s.Thinned(all)
      invariant all <= Dead(old(s.Contents()), nowMs) && |all| == total
      decreases |s.ttlSlots|
    {
      var removed, gone := PurgeBatch(s, nowMs);
      KeptTwice(old(s.lru), all, gone);
      DeadRest(old(s.Contents()), all, nowMs);
      MoreGone(old(s.Contents()), all, gone);
      total, all := total + removed, all + gone;
      if removed < PURGE_BATCH {
        assert all == Dead(old(s.Contents()), nowMs);
        break;
      }
    }
  }

  lemma MoreGone(m: map<Bytes, Cell>, all: set<Bytes>, gone: set<Bytes>)
    requires gone !! all
    ensures m - all - gone == m - (all + gone) && |all + gone| == |all| + |gone|
  {
  }

  /** Every victim is still in the shard or was already taken out in this round. */
  ghost predicate Pending(s: Shard, victims: seq<Entry>, nowMs: nat)
    reads s`repr, victims`slot, victims`expireAt
  {
    forall i :: 0 <= i < |victims| ==> victims[i].Expired(nowMs) && (victims[i] in s.repr || victims[i].slot == -1)
  }

  /** The i-th random pick. */
  function Drawn(pool: seq<Entry>, draw: nat -> nat, i: nat): (e: Entry)
    requires |pool| > 0
    ensures e in pool
  {
    pool[draw(i) % |pool|]
  }

  /** How many of the first n picks are dead; an entry picked twice counts twice. */
  ghost function DeadDrawn(pool: seq<Entry>, draw: nat -> nat, n: nat, nowMs: nat): (r: nat)
    requires |pool| > 0
    reads pool`expireAt
    ensures r <= n
  {
    if n == 0 then 0
    else DeadDrawn(pool, draw, n - 1, nowMs) + if Drawn(pool, draw, n - 1).Expired(nowMs) then 1 else 0
  }

  lemma DrawMore(pool: seq<Entry>, draw: nat -> nat, n: nat, nowMs: nat)
    requires |pool| > 0
    ensures DeadDrawn(pool, draw, 0, nowMs) == 0
    ensures DeadDrawn(pool, draw, n + 1, nowMs) ==
            DeadDrawn(pool, draw, n, nowMs) + if Drawn(pool, draw, n).Expired(nowMs) then 1 else 0
  {
  }

  lemma DrawnEntry(s: Shard, draw: nat -> nat, i: nat)
    requires s.Indexed() && |s.ttlSlots| > 0
    ensures Drawn(s.ttlSlots, draw, i) in s.repr
  {
    TtlEntry(s, draw(i) % |s.ttlSlots|);
  }

  lemma NonePending(s: Shard, nowMs: nat)
    ensures Pending(s, [], nowMs)
  {
  }

  lemma OneMorePending(s: Shard, victims: seq<Entry>, e: Entry, nowMs: nat)
    requires Pending(s, victims, nowMs) && e in s.repr && e.Expired(nowMs)
    ensures Pending(s, victims + [e], nowMs)
  {
  }

  method Sample(s: Shard, nowMs: nat, sample: nat, draw: nat -> nat) returns (victims: seq<Entry>)
    requires s.Indexed() && |s.ttlSlots| > 0
    ensures |victims| == DeadDrawn(s.ttlSlots, draw, sample, nowMs) && Pending(s, victims, nowMs)
    ensures forall i :: 0 <= i < |victims| ==> victims[i] in s.repr
    ensures forall i: nat :: i < sample && Drawn(s.ttlSlots, draw, i).Expired(nowMs) ==>
      Drawn(s.ttlSlots, draw, i) in victims
  {
    hide s.Indexed, DeadDrawn, Drawn, Pending;
    victims := [];
    NonePending(s, nowMs);
    DrawMore(s.ttlSlots, draw, 0, nowMs);
    for i := 0 to sample
      invariant |victims| == DeadDrawn(s.ttlSlots, draw, i, nowMs) && Pending(s, victims, nowMs)
      invariant forall i :: 0 <= i < |victims| ==> victims[i] in s.repr
      invariant forall j: nat :: j < i && Drawn(s.ttlSlots, draw, j).Expired(nowMs) ==>
        Drawn(s.ttlSlots, draw, j) in victims
    {
      DrawnEntry(s, draw, i);
      DrawMore(s.ttlSlots, draw, i, nowMs);
      var e := Drawn(s.ttlSlots, draw, i);
      if e.Expired(nowMs) {
        OneMorePending(s, victims, e, nowMs);
        victims := victims + [e];
      }
    }
  }

  /** Takes the victims out, each once. */
  method RetireAll(s: Shard, victims: seq<Entry>, nowMs: nat) returns (ghost gone: set<Bytes>)
    requires s.Valid() && Pending(s, victims, nowMs) && forall j :: 0 <= j < |victims| ==> victims[j] in s.repr
    modifies s, s.repr
    ensures s.Valid() && s.repr <= old(s.repr)
    ensures gone <= Dead(old(s.Contents()), nowMs) && s.Contents() == old(s.Contents()) - gone
    ensures |gone| <= |victims| && (victims != [] ==> |gone| > 0) && |s.ttlSlots| == |old(s.ttlSlots)| - |gone|
    ensures (forall j :: 0 <= j < |victims| ==> victims[j].key in gone) && s.Thinned(gone)
  {
    hide s.Indexed, CellsOf, Weight, Dropped, Dead, SwapRemove, Pending, Kept, Ranked;
    gone := {};
    KeptAll(s.lru);
    MinusNone(s.Contents());
    DeadRest(s.Contents(), {}, nowMs);
    for i := 0 to |victims|
      invariant s.Valid() && s.repr <= old(s.repr) && Pending(s, victims, nowMs)
      invariant gone <= Dead(old(s.Contents()), nowMs) && s.Contents() == old(s.Contents()) - gone
      invariant |gone| <= i && (i > 0 ==> |gone| > 0) && |s.ttlSlots| == |old(s.ttlSlots)| - |gone|
      invariant gone == {} ==> forall j :: 0 <= j < |victims| ==> victims[j] in s.repr
      invariant forall j :: 0 <= j < |victims| && victims[j] !in s.repr ==> victims[j].key in gone
      invariant forall j :: 0 <= j < i ==> victims[j].key in gone
      invariant s.Thinned(gone)
    {
      var e := victims[i];
      PendingAt(s, victims, nowMs, i);
      if e.slot >= 0 {
        s.CellOf(e);
        DeadMore(old(s.Contents()), gone, nowMs, e.key);
        KeptTwice(old(s.lru), gone, {e.key});
        Retire(s, e, victims, nowMs);
        gone := gone + {e.key};
      }
    }
  }

  /** One sampled round. The count it returns may count a key sampled twice twice. */
  method Sweep(s: Shard, nowMs: nat, sample: nat, draw: nat -> nat) returns (sampled: nat, expired: nat,
               ghost gone: set<Bytes>)
    requires s.Valid()
    modifies s, s.repr
    ensures s.Valid() && s.repr <= old(s.repr)
    ensures gone <= Dead(old(s.Contents()), nowMs) && s.Contents() == old(s.Contents()) - gone
    ensures |gone| <= expired <= sampled <= sample && (expired > 0 ==> |gone| > 0)
    ensures sampled == if sample < |old(s.ttlSlots)| then sample else |old(s.ttlSlots)|
    ensures expired == if |old(s.ttlSlots)| == 0 then 0 else old(DeadDrawn(s.ttlSlots, draw, sampled, nowMs))
    ensures |s.ttlSlots| == |old(s.ttlSlots)| - |gone|
    ensures forall i: nat :: i < sampled && old(Drawn(s.ttlSlots, draw, i).Expired(nowMs)) ==>
      old(Drawn(s.ttlSlots, draw, i).key) in gone
    ensures s.Thinned(gone)
  {
    hide s.Indexed, CellsOf, Weight, Dead, Pending, Drawn, DeadDrawn, Kept, Ranked;
    gone := {};
    if |s.ttlSlots| == 0 {
      KeptAll(s.lru);
      MinusNone(s.Contents());
      return 0, 0, gone;
    }
    sampled := if sample > |s.ttlSlots| then |s.ttlSlots| else sample;
    var victims := Sample(s, nowMs, sampled, draw);
    expired := |victims|;
    gone := RetireAll(s, victims, nowMs);
  }

  lemma SwapRemoveLen<T>(s: seq<T>, i: nat)
    requires i < |s|
    ensures |SwapRemove(s, i)| == |s| - 1
  {
  }

  lemma PendingAt(s: Shard, victims: seq<Entry>, nowMs: nat, i: nat)
    requires s.Indexed() && Pending(s, victims, nowMs) && i < |victims|
    ensures victims[i].Expired(nowMs) && (victims[i] in s.repr <==> victims[i].slot >= 0)
  {
  }

  method Retire(s: Shard, e: Entry, ghost victims: seq<Entry>, ghost nowMs: nat)
    requires s.Valid() && e in s.repr && e.expireAt != 0 && Pending(s, victims, nowMs)
    modifies s, s.repr
    ensures s.Valid() && s.repr == old(s.repr) - {e} && s.Contents() == old(s.Contents()) - {e.key}
    ensures |s.ttlSlots| == |old(s.ttlSlots)| - 1 && Pending(s, victims, nowMs) && s.Thinned({e.key})
  {
    hide s.Index, s.Timed, s.Ordered, CellsOf, Weight, SwapRemove, Dropped, Kept, Ranked;
    s.Places(e);
    SwapRemoveLen(s.ttlSlots, e.ttlSlot);
    s.RemoveEntry(e);
  }

  ghost predicate Monotone(clock: nat -> nat) {
    forall a, b :: a <= b ==> clock(a) <= clock(b)
  }

  lemma DeadLater(m: map<Bytes, Cell>, early: nat, late: nat)
    requires early <= late
    ensures Dead(m, early) <= Dead(m, late)
  {
  }

  lemma DeadInRest(m: map<Bytes, Cell>, gone: set<Bytes>, nowMs: nat)
    ensures Dead(m - gone, nowMs) <= Dead(m, nowMs) - gone
  {
  }

  /** What a sweep reports: rounds are numbered on from the first, and a key sampled twice in
      one round counts twice. */
  datatype Tally = Tally(round: nat, sampled: nat, expired: nat, budgeted: bool)

  /** One more round of a sweep that has removed `gone` from contents m and list order. */
  method SweepMore(s: Shard, nowMs: nat, sample: nat, draw: nat -> nat, ghost m: map<Bytes, Cell>,
                   ghost order: seq<Entry>, ghost gone: set<Bytes>)
    returns (sampled: nat, expired: nat, ghost more: set<Bytes>)
    requires s.Valid() && s.Contents() == m - gone && s.lru == Kept(order, gone) && gone <= Dead(m, nowMs)
    modifies s, s.repr
    ensures s.Valid() && s.repr <= old(s.repr) && s.sets == old(s.sets) && s.setAt == old(s.setAt)
    ensures s.Contents() == m - more && s.lru == Kept(order, more) && more <= Dead(m, nowMs)
    ensures |more| <= |gone| + expired && expired <= sampled <= sample
    ensures sampled == if sample < |old(s.ttlSlots)| then sample else |old(s.ttlSlots)|
    ensures expired > 0 ==> |s.ttlSlots| < |old(s.ttlSlots)|
  {
    hide s.Valid, CellsOf, Dead, Kept, Drawn, DeadDrawn;
    ghost var taken;
    sampled, expired, taken := Sweep(s, nowMs, sample, draw);
    DeadInRest(m, gone, nowMs);
    assert taken <= Dead(m, nowMs) - gone;
    MoreGone(m, gone, taken);
    KeptTwice(order, gone, taken);
    more := gone + taken;
  }

  /** More than the threshold's share of what a round sampled was dead. */
  predicate Busy(round: (nat, nat), threshold: real) {
    (round.1 as real) > threshold * round.0 as real
  }

  predicate FewEnough(sampled: nat, expired: nat, threshold: real) {
    sampled == 0 || expired as real / sampled as real <= threshold
  }

  /** Rounds on one shard until few enough samples are dead. The time budget may stop it
      early, but it ends without: a round that is repeated has shrunk the TTL array. */
  method SweepRounds(s: Shard, clock: nat -> nat, stop: nat -> bool, sample: nat, threshold: real,
                     rng: nat -> nat -> nat, start: Tally)
    returns (t: Tally, ghost gone: set<Bytes>, ghost rounds: seq<(nat, nat)>)
    requires s.Valid() && threshold > 0.0 && Monotone(clock) && !start.budgeted
    modifies s, s.repr
    ensures s.Valid() && s.repr <= old(s.repr) && s.Thinned(gone)
    ensures start.round <= t.round && (!t.budgeted ==> start.round < t.round)
    ensures start.expired + |gone| <= t.expired && t.expired - start.expired <= t.sampled - start.sampled
    ensures t.sampled - start.sampled <= sample * (t.round - start.round)
    ensures |rounds| == t.round - start.round && (t.sampled - start.sampled, t.expired - start.expired) == Sums(rounds)
    ensures forall i :: 0 <= i < |rounds| && (i < |rounds| - 1 || t.budgeted) ==> Busy(rounds[i], threshold)
    ensures !t.budgeted ==> !Busy(rounds[|rounds| - 1], threshold)
    ensures (t.budgeted ==> stop(t.round)) && forall r :: start.round <= r < t.round ==> !stop(r)
    ensures gone <= Dead(old(s.Contents()), clock(t.round)) && s.Contents() == old(s.Contents()) - gone
  {
    hide s.Valid, CellsOf, Dead, Kept, Sums, Busy, FewEnough, Tallied;
    ghost var m, order := s.Contents(), s.lru;
    t, gone, rounds := start, {}, [];
    TalliedNone(start, sample, threshold, stop);
    MinusNone(m);
    KeptAll(order);
    while true
      invariant s.Valid() && s.repr <= old(s.repr) && s.lru == Kept(order, gone)
      invariant s.sets == old(s.sets) && s.setAt == old(s.setAt) && !t.budgeted && start.expired + |gone| <= t.expired
      invariant Tallied(start, t, rounds, sample, stop) && AllBusy(rounds, threshold)
      invariant gone <= Dead(m, clock(t.round)) && s.Contents() == m - gone
      decreases |s.ttlSlots|
    {
      if stop(t.round) {
        TalliedMeans(start, t, rounds, sample, stop);
        t := t.(budgeted := true);
        return;
      }
      var sampled, expired;
      sampled, expired, gone := SweepMore(s, clock(t.round), sample, rng(t.round), m, order, gone);
      DeadLater(m, clock(t.round), clock(t.round + 1));
      TalliedMore(start, t, rounds, sample, stop, sampled, expired);
      RoundIsBusy(sampled, expired, threshold);
      t := Tally(t.round + 1, t.sampled + sampled, t.expired + expired, false);
      rounds := rounds + [(sampled, expired)];
      if FewEnough(sampled, expired, threshold) {
        TalliedMeans(start, t, rounds, sample, stop);
        return;
      }
    }
  }

  /** All that was sampled in the rounds, and all of that which was dead. */
  ghost function Sums(rounds: seq<(nat, nat)>): (r: (nat, nat)) {
    if rounds == [] then (0, 0)
    else
      var n, last := |rounds| - 1, rounds[|rounds| - 1];
      (Sums(rounds[..n]).0 + last.0, Sums(rounds[..n]).1 + last.1)
  }

  ghost predicate AllBusy(rounds: seq<(nat, nat)>, threshold: real) {
    forall i :: 0 <= i < |rounds| ==> Busy(rounds[i], threshold)
  }

  /** The tally, from start on, adds up the rounds; none began after the time was up. */
  ghost predicate Tallied(start: Tally, t: Tally, rounds: seq<(nat, nat)>, sample: nat, stop: nat -> bool) {
    && start.round <= t.round && |rounds| == t.round - start.round
    && (t.sampled - start.sampled, t.expired - start.expired) == Sums(rounds)
    && t.expired - start.expired <= t.sampled - start.sampled <= sample * (t.round - start.round)
    && forall r :: start.round <= r < t.round ==> !stop(r)
  }

  lemma TalliedMeans(start: Tally, t: Tally, rounds: seq<(nat, nat)>, sample: nat, stop: nat -> bool)
    requires Tallied(start, t, rounds, sample, stop)
    ensures start.round <= t.round && |rounds| == t.round - start.round
    ensures (t.sampled - start.sampled, t.expired - start.expired) == Sums(rounds)
    ensures t.expired - start.expired <= t.sampled - start.sampled <= sample * (t.round - start.round)
    ensures forall r :: start.round <= r < t.round ==> !stop(r)
  {
    hide Sums;
  }

  lemma TalliedNone(start: Tally, sample: nat, threshold: real, stop: nat -> bool)
    ensures Tallied(start, start, [], sample, stop) && AllBusy([], threshold)
  {
  }

  lemma TalliedMore(start: Tally, t: Tally, rounds: seq<(nat, nat)>, sample: nat, stop: nat -> bool, sampled: nat,
                    expired: nat)
    requires Tallied(start, t, rounds, sample, stop) && !stop(t.round) && expired <= sampled <= sample
    ensures Tallied(start, Tally(t.round + 1, t.sampled + sampled, t.expired + expired, false),
                    rounds + [(sampled, expired)], sample, stop)
  {
    hide Sums;
    SumMore(rounds, (sampled, expired));
    OneMore(sample, t.round - start.round);
  }

  lemma SumMore(rounds: seq<(nat, nat)>, r: (nat, nat))
    ensures Sums(rounds + [r]) == (Sums(rounds).0 + r.0, Sums(rounds).1 + r.1)
  {
    assert (rounds + [r])[..|rounds|] == rounds;
  }

  lemma OneMore(sample: nat, n: nat)
    ensures sample * (n + 1) == sample * n + sample
  {
  }

  /** A round is repeated exactly when more than the threshold's share of its samples is dead, which means
      that there were some. */
  lemma RoundIsBusy(sampled: nat, expired: nat, threshold: real)
    requires threshold > 0.0 && expired <= sampled
    ensures Busy((sampled, expired), threshold) <==> !FewEnough(sampled, expired, threshold)
    ensures Busy((sampled, expired), threshold) <==> (expired as real) > threshold * sampled as real
    ensures Busy((sampled, expired), threshold) ==> expired > 0
  {
    var n, x := sampled as real, expired as real;
    if sampled > 0 {
      assert x / n * n == x;
      Larger(x / n, threshold, n);
    }
  }

  lemma Larger(a: real, b: real, n: real)
    requires n > 0.0
    ensures a > b <==> a * n > b * n
  {
    assert (a - b) * n == a * n - b * n;
    if a > b {
      assert (a - b) * n > 0.0;
    } else {
      assert (b - a) * n >= 0.0;
    }
  }
}
