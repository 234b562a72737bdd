/** The sharded store: routing, the public operations and background expiry. */
module Stores {
  import opened Bytes
  import opened Shards
  import opened Expiry
  import opened References
  import RangeScan

  /** Any hash will do: keys are spread over n shards, and a single shard takes them all. */
  function Route(hash: Bytes -> nat, n: nat, key: Bytes): (i: nat) {
    if n <= 1 then 0 else hash(key) % n
  }

  /** The keys of one shard, out of the whole keyspace. */
  ghost function Slice(view: map<Bytes, Cell>, hash: Bytes -> nat, n: nat, i: nat): (r: map<Bytes, Cell>) {
    map k | k in view && Route(hash, n, k) == i :: view[k]
  }

  lemma SlicePut(view: map<Bytes, Cell>, hash: Bytes -> nat, n: nat, k: Bytes, c: Cell)
    ensures forall i: nat :: i != Route(hash, n, k) ==> Slice(view[k := c], hash, n, i) == Slice(view, hash, n, i)
    ensures var i := Route(hash, n, k); Slice(view[k := c], hash, n, i) == Slice(view, hash, n, i)[k := c]
  {
  }

  /** Keys of one shard may go without any other shard noticing. */
  lemma SliceMinus(view: map<Bytes, Cell>, hash: Bytes -> nat, n: nat, i: nat, gone: set<Bytes>)
    requires gone <= Slice(view, hash, n, i).Keys
    ensures forall j: nat :: j != i ==> Slice(view - gone, hash, n, j) == Slice(view, hash, n, j)
    ensures Slice(view - gone, hash, n, i) == Slice(view, hash, n, i) - gone && gone <= view.Keys
  {
  }

  lemma EvictedFrom(view: map<Bytes, Cell>, hash: Bytes -> nat, n: nat, i: nat, gone: set<Bytes>)
    requires gone <= Slice(view, hash, n, i).Keys
    ensures forall k :: k in gone ==> k in view && Route(hash, n, k) == i && Slice(view, hash, n, i)[k] == view[k]
  {
  }

  lemma SliceHas(view: map<Bytes, Cell>, hash: Bytes -> nat, n: nat, k: Bytes)
    ensures var m := Slice(view, hash, n, Route(hash, n, k)); (k in m <==> k in view) && (k in m ==> m[k] == view[k])
  {
  }

  lemma MinusOne(view: map<Bytes, Cell>, hash: Bytes -> nat, n: nat, k: Bytes)
    ensures var i := Route(hash, n, k);
            && (forall j: nat :: j != i ==> Slice(view - {k}, hash, n, j) == Slice(view, hash, n, j))
            && Slice(view - {k}, hash, n, i) == Slice(view, hash, n, i) - {k}
            && (k in Slice(view, hash, n, i) <==> k in view)
            && (k in view ==> Slice(view, hash, n, i)[k] == view[k])
  {
    SliceHas(view, hash, n, k);
  }

  /** The keyspace after a write that evicted `gone`, and went in or did not. */
  function Landed(view: map<Bytes, Cell>, gone: set<Bytes>, k: Bytes, c: Cell, ok: bool): (r: map<Bytes, Cell>) {
    if ok then (view - gone)[k := c] else view - gone
  }

  lemma PutSlices(view: map<Bytes, Cell>, hash: Bytes -> nat, n: nat, k: Bytes, c: Cell, gone: set<Bytes>, ok: bool)
    requires gone <= Slice(view, hash, n, Route(hash, n, k)).Keys
    ensures var i := Route(hash, n, k);
            && (forall j: nat :: j != i ==> Slice(Landed(view, gone, k, c, ok), hash, n, j) == Slice(view, hash, n, j))
            && Slice(Landed(view, gone, k, c, ok), hash, n, i) ==
               (if ok then (Slice(view, hash, n, i) - gone)[k := c] else Slice(view, hash, n, i) - gone)
            && Slice(view[k := c], hash, n, i) == Slice(view, hash, n, i)[k := c]
            && Landed(view, gone, k, c, ok) == (if ok then (view - gone)[k := c] else view - gone)
    ensures forall x :: x in gone ==>
      && x in view && Route(hash, n, x) == Route(hash, n, k)
      && Slice(view, hash, n, Route(hash, n, k))[x] == view[x]
  {
    hide Slice;
    var i := Route(hash, n, k);
    EvictedFrom(view, hash, n, i, gone);
    SliceMinus(view, hash, n, i, gone);
    SlicePut(view, hash, n, k, c);
    SlicePut(view - gone, hash, n, k, c);
  }

  /** The keyspace after an EXPIRE that found the key live, or did not. */
  function Extended(view: map<Bytes, Cell>, k: Bytes, d: nat, ok: bool): (r: map<Bytes, Cell>)
    requires ok ==> k in view
  {
    if ok then view[k := Cell(view[k].value, d)] else view - {k}
  }

  lemma ExpireIs(view: map<Bytes, Cell>, k: Bytes, d: nat, now: nat)
    ensures var live := k in view && !view[k].Expired(now);
            && RefReply(view, Op.Expire(k, d), now) == Flag(live)
            && RefAfter(view, Op.Expire(k, d), now) == Extended(view, k, d, live)
  {
    MinusAll(view, k);
  }

  lemma RedateSlices(view: map<Bytes, Cell>, hash: Bytes -> nat, n: nat, k: Bytes, d: nat, ok: bool)
    requires ok ==> k in Slice(view, hash, n, Route(hash, n, k))
    ensures var i := Route(hash, n, k);
            && (ok ==> k in view) && (k in Slice(view, hash, n, i) <==> k in view)
            && (k in view ==> Slice(view, hash, n, i)[k] == view[k])
            && (forall j: nat :: j != i ==> Slice(Extended(view, k, d, ok), hash, n, j) == Slice(view, hash, n, j))
            && Slice(Extended(view, k, d, ok), hash, n, i) == Extended(Slice(view, hash, n, i), k, d, ok)
  {
    hide Slice;
    MinusOne(view, hash, n, k);
    if ok {
      SlicePut(view, hash, n, k, Cell(view[k].value, d));
    }
  }

  /** The part of the keyspace that lives in the first i shards. */
  ghost function Upto(view: map<Bytes, Cell>, hash: Bytes -> nat, n: nat, i: nat): (r: map<Bytes, Cell>) {
    map k | k in view && Route(hash, n, k) < i :: view[k]
  }

  lemma UptoNext(view: map<Bytes, Cell>, hash: Bytes -> nat, n: nat, i: nat)
    ensures Upto(view, hash, n, i + 1) == Upto(view, hash, n, i) + Slice(view, hash, n, i)
    ensures Upto(view, hash, n, i).Keys !! Slice(view, hash, n, i).Keys
  {
  }

  lemma UptoEnds(view: map<Bytes, Cell>, hash: Bytes -> nat, n: nat)
    requires n > 0
    ensures Upto(view, hash, n, 0) == map[] && Upto(view, hash, n, n) == view
  {
    assert forall k :: Route(hash, n, k) < n;
  }

  lemma WeightEmpty()
    ensures Weight(map[]) == 0
  {
  }

  lemma OneFewer(b: map<Bytes, Cell>, k: Bytes)
    requires k in b
    ensures |b - {k}| < |b|
  {
    assert (b - {k}).Keys == b.Keys - {k} && |b.Keys| == |b|;
    assert |(b - {k}).Keys| == |b - {k}|;
  }

  lemma UnionMinus(a: map<Bytes, Cell>, b: map<Bytes, Cell>, k: Bytes)
    requires a.Keys !! b.Keys && k in b
    ensures (a + b) - {k} == a + (b - {k}) && (a + b)[k] == b[k] && a.Keys !! (b - {k}).Keys
  {
  }

  lemma {:induction false} WeightSum(a: map<Bytes, Cell>, b: map<Bytes, Cell>)
    requires a.Keys !! b.Keys
    ensures Weight(a + b) == Weight(a) + Weight(b)
    decreases |b|
  {
    hide Weight;
    if b == map[] {
      WeightEmpty();
      assert a + b == a;
    } else {
      var k :| k in b;
      WeightRemove(b, k);
      WeightRemove(a + b, k);
      UnionMinus(a, b, k);
      OneFewer(b, k);
      WeightSum(a, b - {k});
    }
  }

  lemma LiveNone(nowMs: nat)
    ensures Live(map[], nowMs) == map[] && RangeScan.PutAll(map[], []) == map[]
  {
  }

  lemma OutOfNone(view: map<Bytes, Cell>)
    ensures RangeScan.OutOf([], view)
  {
  }

  lemma OutOfPart(out: seq<RangeScan.Emission>, es: seq<RangeScan.Emission>, view: map<Bytes, Cell>,
                  hash: Bytes -> nat, n: nat, i: nat)
    requires RangeScan.OutOf(out, Upto(view, hash, n, i)) && RangeScan.OutOf(es, Slice(view, hash, n, i))
    ensures RangeScan.OutOf(out + es, Upto(view, hash, n, i + 1)) && RangeScan.Apart(out, es)
  {
  }

  lemma PlusNone(m: map<Bytes, Cell>)
    ensures m + map[] == m
  {
  }

  lemma LiveUnion(a: map<Bytes, Cell>, b: map<Bytes, Cell>, nowMs: nat)
    requires a.Keys !! b.Keys
    ensures Live(a + b, nowMs) == Live(a, nowMs) + Live(b, nowMs)
  {
  }

  /** The dead keys of the first i shards. */
  ghost function DeadUpto(view: map<Bytes, Cell>, hash: Bytes -> nat, n: nat, i: nat, nowMs: nat): (r: set<Bytes>) {
    set k | k in Dead(view, nowMs) && Route(hash, n, k) < i
  }

  lemma DeadUptoEnds(view: map<Bytes, Cell>, hash: Bytes -> nat, n: nat, nowMs: nat)
    requires n > 0
    ensures DeadUpto(view, hash, n, 0, nowMs) == {} && DeadUpto(view, hash, n, n, nowMs) == Dead(view, nowMs)
  {
    assert forall k :: Route(hash, n, k) < n;
  }

  /** The dead keys of shard i. */
  ghost function DeadAt(view: map<Bytes, Cell>, hash: Bytes -> nat, n: nat, i: nat, nowMs: nat): (r: set<Bytes>) {
    set k | k in Dead(view, nowMs) && Route(hash, n, k) == i
  }

  lemma DeadAtIs(view: map<Bytes, Cell>, hash: Bytes -> nat, n: nat, i: nat, nowMs: nat)
    ensures Dead(Slice(view - DeadUpto(view, hash, n, i, nowMs), hash, n, i), nowMs) == DeadAt(view, hash, n, i, nowMs)
  {
  }

  lemma DeadUptoNext(view: map<Bytes, Cell>, hash: Bytes -> nat, n: nat, i: nat, nowMs: nat)
    ensures var rest := view - DeadUpto(view, hash, n, i, nowMs);
            var more := Dead(Slice(rest, hash, n, i), nowMs);
            && rest - more == view - DeadUpto(view, hash, n, i + 1, nowMs)
            && |DeadUpto(view, hash, n, i + 1, nowMs)| == |DeadUpto(view, hash, n, i, nowMs)| + |more|
  {
    hide Slice, Dead;
    DeadAtIs(view, hash, n, i, nowMs);
    var gone, more := DeadUpto(view, hash, n, i, nowMs), DeadAt(view, hash, n, i, nowMs);
    assert gone + more == DeadUpto(view, hash, n, i + 1, nowMs);
    MoreGone(view, gone, more);
  }

  lemma SliceDead(view: map<Bytes, Cell>, hash: Bytes -> nat, n: nat, i: nat, nowMs: nat)
    ensures Dead(Slice(view, hash, n, i), nowMs) <= Dead(view, nowMs)
    ensures Dead(Slice(view, hash, n, i), nowMs) <= Slice(view, hash, n, i).Keys
  {
  }

  /** One shard's share of the limit, never 0 because 0 would lift the limit. */
  function ShardBudget(maxMemory: int, n: nat): (b: int)
    requires maxMemory > 0 && n > 0
  {
    if maxMemory / n < 1 then 1 else maxMemory / n
  }

  lemma BudgetIs(maxMemory: int, n: nat)
    requires maxMemory > 0 && n > 0
    ensures ShardBudget(maxMemory, n) == if maxMemory < n then 1 else maxMemory / n
  {
  }

  lemma ShareDown(small: int, large: int, n: nat)
    requires 0 <= small <= large && n > 0
    ensures small / n <= large / n
  {
    var a, b := small / n, large / n;
    assert a * n <= small && large < (b + 1) * n;
    assert a * n < (b + 1) * n;
  }

  lemma Shares(maxMemory: int, n: nat)
    requires maxMemory > 0 && n > 0
    ensures n * (maxMemory / n) <= maxMemory
  {
  }

  lemma WeightLeast(m: map<Bytes, Cell>)
    ensures m == map[] || Weight(m) >= STRUCT_SIZE + MAP_OVERHEAD
  {
  }

  /** A shard holds no more than its share, even where the share was rounded up to 1. */
  lemma ShareHolds(s: Shard, m: map<Bytes, Cell>, maxMemory: int, n: nat)
    requires Holds(s, m) && maxMemory > 0 && n > 0 && s.budget == ShardBudget(maxMemory, n)
    ensures s.memBytes == Weight(m) <= maxMemory / n
  {
    WeightLeast(m);
  }

  /** A valid shard holding exactly m. */
  ghost predicate Holds(s: Shard, m: map<Bytes, Cell>)
    reads s, s.repr
  {
    s.Valid() && s.Contents() == m
  }

  /** Deleting an expired key takes it out and reports that it was not there. */
  method Remove(s: Shard, key: Bytes, nowMs: nat) returns (existed: bool)
    requires s.Valid()
    modifies s, s.repr
    ensures s.Valid() && s.repr <= old(s.repr) && s.Contents() == old(s.Contents()) - {key} && s.Thinned({key})
    ensures existed <==> key in old(s.Contents()) && !old(s.Contents())[key].Expired(nowMs)
  {
    hide s.Indexed, CellsOf, Weight, SwapRemove, Dropped, Kept, Ranked;
    s.Lookup(key);
    if key in s.entries {
      s.CellOf(s.entries[key]);
      if s.entries[key].Expired(nowMs) {
        s.RemoveEntry(s.entries[key]);
        return false;
      }
    }
    existed := s.Delete(key);
  }

  /** The locked read: what it finds, and whether it asks for a reap. */
  method Look(s: Shard, key: Bytes, nowMs: nat, nowMono: nat) returns (c: Cell, ok: bool, needsReap: bool)
    requires s.Valid()
    modifies s, s.repr
    ensures s.Valid() && s.repr == old(s.repr) && s.Contents() == old(s.Contents()) && s.Thinned({})
    ensures ok <==> key in old(s.Contents()) && !old(s.Contents())[key].Expired(nowMs)
    ensures needsReap <==> key in old(s.Contents()) && old(s.Contents())[key].Expired(nowMs)
    ensures c == if ok then old(s.Contents())[key] else Cell([], 0)
  {
    hide s.Valid, CellsOf, Kept;
    KeptAll(s.lru);
    var e;
    e, ok, needsReap := s.Get(key, nowMs, nowMono);
    c := if ok then Cell(e.value, e.expireAt) else Cell([], 0);
  }

  /** An already expired key is reaped, not given a new deadline. */
  method Redate(s: Shard, key: Bytes, expireAt: nat, nowMs: nat) returns (ok: bool)
    requires s.Valid()
    modifies s, s.repr
    ensures s.Valid() && s.repr <= old(s.repr)
    ensures ok <==> key in old(s.Contents()) && !old(s.Contents())[key].Expired(nowMs)
    ensures s.Contents() ==
      if ok then old(s.Contents())[key := Cell(old(s.Contents())[key].value, expireAt)]
      else old(s.Contents()) - {key}
    ensures s.Thinned(if ok then {} else {key}) && (ok || key !in old(s.Contents()) ==> s.slots == old(s.slots))
  {
    hide s.Indexed, CellsOf, Weight, Kept, Ranked;
    s.Lookup(key);
    KeptAll(s.lru);
    s.KeptStranger(key);
    MinusAll(s.Contents(), key);
    if key in s.entries {
      s.CellOf(s.entries[key]);
      if s.entries[key].Expired(nowMs) {
        var _ := s.Reap(key, nowMs);
        return false;
      }
    }
    ok := s.Expire(key, expireAt);
  }

  /** A cell the policy lets eviction take. */
  predicate MayGo(policy: Policy, c: Cell) {
    !policy.NoEviction? && (policy.VolatileLRU? ==> c.expireAt != 0)
  }

  lemma AdmittedMeans(s: Shard, m: map<Bytes, Cell>, key: Bytes, cell: Cell, ok: bool, gone: set<Bytes>)
    requires s.Admitted(m, key, cell, ok, gone)
    ensures gone <= m.Keys - {key} && forall k :: k in gone ==> MayGo(s.policy, m[k])
    ensures s.budget <= 0 || Weight(m[key := cell]) <= s.budget ==> ok && gone == {}
    ensures JustEnough(s, m, key, cell, gone)
  {
    hide Weight;
    MinusNone(m);
  }

  /** A write of cell under key to a shard that keeps m takes as little as will do: all but one of its
      victims leave more than the low-water mark less what the write adds, and it stops short of that
      mark only with a whole batch gone or nothing left to take. */
  ghost predicate JustEnough(s: Shard, m: map<Bytes, Cell>, key: Bytes, cell: Cell, gone: set<Bytes>) {
    var grown := Weight(m[key := cell]) - Weight(m);
    var target := if s.lowWater <= grown then 0 else s.lowWater - grown;
    && |gone| <= s.batchMax
    && (gone != {} ==> exists k :: k in gone && Weight(m - (gone - {k})) > target)
    && (!s.policy.NoEviction? && 0 < s.budget < Weight(m[key := cell]) && |gone| < s.batchMax ==>
          Weight(m - gone) <= target || forall k :: k in m - gone ==> k == key || !MayGo(s.policy, m[k]))
  }

  /** What already leaves room under the low-water mark loses nothing to the write. */
  lemma NoNeedToEvict(s: Shard, m: map<Bytes, Cell>, key: Bytes, cell: Cell, gone: set<Bytes>)
    requires JustEnough(s, m, key, cell, gone)
    requires Weight(m[key := cell]) <= s.lowWater
    ensures gone == {}
  {
    if gone != {} {
      var k :| k in gone && Weight(m - (gone - {k})) + Weight(m[key := cell]) - Weight(m) > s.lowWater;
      WeightLess(m, gone - {k});
    }
  }

  lemma {:induction false} WeightLess(m: map<Bytes, Cell>, gone: set<Bytes>)
    ensures Weight(m - gone) <= Weight(m)
    decreases gone
  {
    hide Weight;
    if gone == {} {
      MinusNone(m);
    } else {
      var k :| k in gone;
      WeightLess(m, gone - {k});
      MinusMinus(m, gone - {k}, k);
      assert gone - {k} + {k} == gone;
      var rest := m - (gone - {k});
      if k in rest {
        WeightRemove(rest, k);
      } else {
        MinusAll(rest, k);
      }
    }
  }

  method Write(s: Shard, key: Bytes, value: Bytes, expireAt: nat, nowMono: nat, rng: nat -> nat -> nat)
    returns (ok: bool, ghost gone: set<Bytes>)
    requires s.Valid() && Cost(|key|, |value|) < U32
    modifies s, s.repr
    ensures s.Valid() && (forall e :: e in s.repr ==> e in old(s.repr) || fresh(e))
    ensures gone <= old(s.Contents()).Keys - {key}
    ensures forall k :: k in gone ==> MayGo(s.policy, old(s.Contents())[k])
    ensures s.budget <= 0 || Weight(old(s.Contents())[key := Cell(value, expireAt)]) <= s.budget ==> ok && gone == {}
    ensures s.Contents() ==
      if ok then (old(s.Contents()) - gone)[key := Cell(value, expireAt)] else old(s.Contents()) - gone
    ensures s.Written(key, Cell(value, expireAt), ok, gone) && (gone == {} ==> old(s.slots) <= s.slots)
    ensures JustEnough(s, old(s.Contents()), key, Cell(value, expireAt), gone)
  {
    hide s.Valid, CellsOf, Weight, Kept, s.LeastRecent, s.Admitted, JustEnough;
    ok, gone := s.Set(key, value, expireAt, nowMono, rng);
    AdmittedMeans(s, old(s.Contents()), key, Cell(value, expireAt), ok, gone);
  }

  /** The timer's key is still scheduled for the timer's deadline, and that is past. */
  predicate Hits(m: map<Bytes, Cell>, timer: (Bytes, nat), nowMs: nat) {
    timer.0 in m && m[timer.0].expireAt == timer.1 && m[timer.0].Expired(nowMs)
  }

  method FireOn(s: Shard, key: Bytes, expireAt: nat, nowMs: nat) returns (removed: bool)
    requires s.Valid()
    modifies s, s.repr
    ensures s.Valid() && s.repr <= old(s.repr)
    ensures removed <==> Hits(old(s.Contents()), (key, expireAt), nowMs)
    ensures s.Contents() == if removed then old(s.Contents()) - {key} else old(s.Contents())
    ensures s.Thinned(if removed then {key} else {})
  {
    hide s.Indexed, CellsOf, Weight, SwapRemove, Dropped, Kept, Ranked;
    KeptAll(s.lru);
    s.Lookup(key);
    if key !in s.entries {
      return false;
    }
    var e := s.entries[key];
    s.CellOf(e);
    if e.expireAt != expireAt || !e.Expired(nowMs) {
      return false;
    }
    s.RemoveEntry(e);
    removed := true;
  }

  /** Every entry is still in its slot. */
  ghost predicate Extends(a: seq<seq<Entry>>, b: seq<seq<Entry>>) {
    |a| == |b| && forall i :: 0 <= i < |a| ==> a[i] <= b[i]
  }

  method MakeShards(n: nat, exactLRU: bool, budget: int, low: int, policy: Policy, sampleK: nat, batchMax: nat)
    returns (made: seq<Shard>)
    ensures |made| == n && forall j :: 0 <= j < n ==> fresh(made[j]) && Holds(made[j], map[]) && made[j].repr == {}
    ensures forall j :: 0 <= j < n ==> made[j].budget == budget && made[j].lowWater == low && made[j].policy == policy
    ensures forall j :: 0 <= j < n ==>
      made[j].exactLRU == exactLRU && made[j].sampleK == sampleK && made[j].batchMax == batchMax
    ensures forall j, k :: 0 <= j < k < n ==> made[j] != made[k]
  {
    hide Shard.Valid, CellsOf;
    made := [];
    for i := 0 to n
      invariant |made| == i && forall j :: 0 <= j < i ==> fresh(made[j]) && Holds(made[j], map[]) && made[j].repr == {}
      invariant forall j :: 0 <= j < i ==>
        made[j].budget == budget && made[j].lowWater == low && made[j].policy == policy
      invariant forall j :: 0 <= j < i ==>
        made[j].exactLRU == exactLRU && made[j].sampleK == sampleK && made[j].batchMax == batchMax
      invariant forall j, k :: 0 <= j < k < i ==> made[j] != made[k]
    {
      var s := new Shard(exactLRU, budget, low, policy, sampleK, batchMax);
      made := made + [s];
    }
  }

  class Store {
    const shards: seq<Shard>
    const hash: Bytes -> nat
    const maxMemory: int
    /** The whole keyspace, expired keys included. */
    ghost var view: map<Bytes, Cell>

    constructor (n: nat, hash: Bytes -> nat, maxMemory: int, lowWater: int, exactLRU: bool, policy: Policy,
                 sampleK: nat, batchMax: nat)
      requires n > 0 && 0 <= lowWater
      ensures Valid() && view == map[] && |shards| == n && this.hash == hash && this.maxMemory == maxMemory
      ensures forall i :: 0 <= i < n ==> shards[i].policy == policy && shards[i].exactLRU == exactLRU
      ensures forall i :: 0 <= i < n ==> shards[i].sampleK == sampleK && shards[i].batchMax == batchMax
      ensures maxMemory <= 0 ==> forall i :: 0 <= i < n ==> shards[i].budget == 0
      ensures maxMemory > 0 ==> forall i :: 0 <= i < n ==>
        shards[i].budget == (if maxMemory < n then 1 else maxMemory / n) && shards[i].lowWater == lowWater / n
      ensures lowWater <= maxMemory ==> forall i :: 0 <= i < n ==> shards[i].lowWater <= shards[i].budget
      ensures fresh(shards) && Entries() == {}
    {
      hide Shard.Valid, CellsOf, ShardBudget;
      var budget := if maxMemory <= 0 then 0 else ShardBudget(maxMemory, n);
      var low := if maxMemory <= 0 then 0 else lowWater / n;
      if maxMemory > 0 {
        BudgetIs(maxMemory, n);
        if lowWater <= maxMemory {
          ShareDown(lowWater, maxMemory, n);
        }
      }
      var made := MakeShards(n, exactLRU, budget, low, policy, sampleK, batchMax);
      shards, view := made, map[];
      this.hash, this.maxMemory := hash, maxMemory;
      new;
      assert forall i: nat :: Slice(view, hash, n, i) == map[];
    }

    ghost function Entries(): (r: set<Entry>)
      reads shards`repr
    {
      set i, e | 0 <= i < |shards| && e in shards[i].repr :: e
    }

    /** No two shards share anything. */
    ghost predicate Apart()
      reads shards`repr
    {
      forall i, j :: 0 <= i < j < |shards| ==> shards[i] != shards[j] && shards[i].repr !! shards[j].repr
    }

    /** The memory limit is divided evenly; 0 means no limit. */
    ghost predicate Budgeted() {
      && (maxMemory <= 0 ==> forall i :: 0 <= i < |shards| ==> shards[i].budget == 0)
      && (maxMemory > 0 ==> forall i :: 0 <= i < |shards| ==> shards[i].budget == ShardBudget(maxMemory, |shards|))
    }

    ghost predicate Valid()
      reads this, shards, Entries()
    {
      && |shards| > 0 && Apart() && Budgeted()
      && forall i :: 0 <= i < |shards| ==> Holds(shards[i], Slice(view, hash, |shards|, i))
    }

    ghost function Slots(): (r: seq<seq<Entry>>)
      reads shards
      ensures |r| == |shards| && forall i :: 0 <= i < |r| ==> r[i] == shards[i].slots
    {
      seq(|shards|, i requires 0 <= i < |shards| reads shards => shards[i].slots)
    }

    /** One shard has changed and nothing else: the store is valid again. */
    twostate lemma Settled(i: nat)
      requires i < |shards| && old(Valid())
      requires forall j :: 0 <= j < |shards| && j != i ==> unchanged(shards[j])
      requires forall j, e :: 0 <= j < |shards| && j != i && e in old(shards[j].repr) ==> unchanged(e)
      requires forall e :: e in shards[i].repr ==> e in old(shards[i].repr) || fresh(e)
      requires Holds(shards[i], Slice(view, hash, |shards|, i))
      requires forall j: nat :: j != i ==> Slice(view, hash, |shards|, j) == old(Slice(view, hash, |shards|, j))
      ensures Valid()
    {
      hide Slice, Holds;
      forall j | 0 <= j < |shards| ensures Holds(shards[j], Slice(view, hash, |shards|, j)) {
        if j != i {
          assert old(Holds(shards[j], Slice(view, hash, |shards|, j)));
        }
      }
    }

    twostate lemma Widened(i: nat)
      requires i < |shards| && old(shards[i].slots) <= shards[i].slots
      requires forall j :: 0 <= j < |shards| && j != i ==> shards[j].slots == old(shards[j].slots)
      ensures Extends(old(Slots()), Slots())
    {
    }

    lemma Owner(i: nat)
      requires Valid() && i < |shards|
      ensures Holds(shards[i], Slice(view, hash, |shards|, i)) && shards[i].repr <= Entries()
      ensures forall j :: 0 <= j < |shards| && j != i ==> shards[j] != shards[i] && shards[j].repr !! shards[i].repr
    {
      forall j | 0 <= j < |shards| && j != i ensures shards[j] != shards[i] && shards[j].repr !! shards[i].repr {
        assert j < i || i < j;
      }
    }

    method Delete(key: Bytes, nowMs: nat) returns (existed: bool)
      requires Valid()
      modifies this, shards, Entries()
      ensures Valid() && Entries() <= old(Entries()) && Flag(existed) == RefReply(old(view), Op.Delete(key), nowMs)
      ensures view == RefAfter(old(view), Op.Delete(key), nowMs)
      ensures existed <==> key in old(view) && (old(view)[key].expireAt == 0 || nowMs < old(view)[key].expireAt)
      ensures view == old(view) - {key}
    {
      hide Apart, Slice, Shard.Valid, CellsOf;
      var i := Route(hash, |shards|, key);
      Owner(i);
      existed := Remove(shards[i], key, nowMs);
      MinusOne(view, hash, |shards|, key);
      view := view - {key};
      Settled(i);
    }

    /** The locked half of every read. */
    method Peek(key: Bytes, nowMs: nat, nowMono: nat) returns (c: Cell, ok: bool, needsReap: bool)
      requires Valid()
      modifies this, shards, Entries()
      ensures Valid() && Entries() <= old(Entries()) && view == old(view)
      ensures ok <==> key in view && !view[key].Expired(nowMs)
      ensures needsReap <==> key in view && view[key].Expired(nowMs)
      ensures c == if ok then view[key] else Cell([], 0)
    {
      hide Apart, Slice, Shard.Valid, CellsOf, Kept;
      var i := Route(hash, |shards|, key);
      Owner(i);
      c, ok, needsReap := Look(shards[i], key, nowMs, nowMono);
      SliceHas(view, hash, |shards|, key);
      Settled(i);
    }

    /** The other half, on its own lock and possibly much later, by the reading the read was made with. */
    method LateReap(key: Bytes, at: nat) returns (ok: bool)
      requires Valid()
      modifies this, shards, Entries()
      ensures Valid() && Entries() <= old(Entries())
      ensures ok <==> key in old(view) && old(view)[key].Expired(at)
      ensures view == if ok then old(view) - {key} else old(view)
    {
      hide Apart, Slice, Shard.Valid, CellsOf, Kept;
      var i := Route(hash, |shards|, key);
      Owner(i);
      ok := shards[i].Reap(key, at);
      MinusOne(view, hash, |shards|, key);
      if ok {
        view := view - {key};
      }
      Settled(i);
    }

    /** What every read does. */
    method Read(key: Bytes, nowMs: nat, nowMono: nat) returns (c: Cell, ok: bool)
      requires Valid()
      modifies this, shards, Entries()
      ensures Valid() && Entries() <= old(Entries()) && (ok <==> key in old(view) && !old(view)[key].Expired(nowMs))
      ensures c == if ok then old(view)[key] else Cell([], 0)
      ensures view == if ok then old(view) else old(view) - {key}
    {
      hide Valid, Entries;
      MinusAll(view, key);
      var reap;
      c, ok, reap := Peek(key, nowMs, nowMono);
      if reap {
        var _ := LateReap(key, nowMs);
      }
    }

    method Get(key: Bytes, nowMs: nat, nowMono: nat) returns (value: Bytes, ok: bool)
      requires Valid()
      modifies this, shards, Entries()
      ensures Valid() && Entries() <= old(Entries()) && Value(value, ok) == RefReply(old(view), Op.Get(key), nowMs)
      ensures view == RefAfter(old(view), Op.Get(key), nowMs)
      ensures ok <==> key in old(view) && (old(view)[key].expireAt == 0 || nowMs < old(view)[key].expireAt)
      ensures value == if ok then old(view)[key].value else []
      ensures view == if ok then old(view) else old(view) - {key}
    {
      hide Valid, Entries;
      var c;
      c, ok := Read(key, nowMs, nowMono);
      value := c.value;
    }

    method Exists(key: Bytes, nowMs: nat, nowMono: nat) returns (ok: bool)
      requires Valid()
      modifies this, shards, Entries()
      ensures Valid() && Entries() <= old(Entries()) && Flag(ok) == RefReply(old(view), Op.Exists(key), nowMs)
      ensures view == RefAfter(old(view), Op.Exists(key), nowMs)
      ensures ok <==> key in old(view) && (old(view)[key].expireAt == 0 || nowMs < old(view)[key].expireAt)
      ensures view == if ok then old(view) else old(view) - {key}
    {
      hide Valid, Entries;
      var c;
      c, ok := Read(key, nowMs, nowMono);
    }

    /** The time a key has left: it is there until just before that has passed, and then it is not. */
    method TTL(key: Bytes, nowMs: nat, nowMono: nat) returns (ms: int, ok: bool)
      requires Valid()
      modifies this, shards, Entries()
      ensures Valid() && Entries() <= old(Entries()) && Remaining(ms, ok) == RefReply(old(view), Op.TTL(key), nowMs)
      ensures view == RefAfter(old(view), Op.TTL(key), nowMs)
      ensures ok <==> key in old(view) && (old(view)[key].expireAt == 0 || nowMs < old(view)[key].expireAt)
      ensures if !ok then ms == 0 else if old(view)[key].expireAt == 0 then ms == -1
              else ms > 0 && !old(view)[key].Expired(nowMs + ms - 1) && old(view)[key].Expired(nowMs + ms)
      ensures view == if ok then old(view) else old(view) - {key}
    {
      hide Valid, Entries;
      var c;
      c, ok := Read(key, nowMs, nowMono);
      ms := 0;
      if ok {
        ms := -1;
        if c.expireAt != 0 {
          ms := c.expireAt - nowMs;
          if ms < 0 {
            ms := 0;
          }
        }
      }
    }

    method Expire(key: Bytes, expireAt: nat, nowMs: nat) returns (ok: bool)
      requires Valid()
      modifies this, shards, Entries()
      ensures Valid() && Entries() <= old(Entries()) && Flag(ok) == RefReply(old(view), Op.Expire(key, expireAt), nowMs)
      ensures view == RefAfter(old(view), Op.Expire(key, expireAt), nowMs)
      ensures ok <==> key in old(view) && (old(view)[key].expireAt == 0 || nowMs < old(view)[key].expireAt)
      ensures view == if ok then old(view)[key := Cell(old(view)[key].value, expireAt)] else old(view) - {key}
      ensures ok || key !in old(view) ==> Extends(old(Slots()), Slots())
    {
      hide Apart, Slice, Shard.Valid, CellsOf, Kept, Extends, Slots, RefAfter, RefReply;
      var i := Route(hash, |shards|, key);
      Owner(i);
      ExpireIs(view, key, expireAt, nowMs);
      ok := Redate(shards[i], key, expireAt, nowMs);
      RedateSlices(view, hash, |shards|, key, expireAt, ok);
      view := Extended(view, key, expireAt, ok);
      Settled(i);
      if shards[i].slots == old(shards[i].slots) {
        Widened(i);
      }
    }

    /** A write; under a memory limit other keys of the same shard may be evicted first. */
    method Set(key: Bytes, value: Bytes, expireAt: nat, nowMono: nat, rng: nat -> nat -> nat)
      returns (ok: bool, ghost gone: set<Bytes>)
      requires Valid() && Cost(|key|, |value|) < U32
      modifies this, shards, Entries()
      ensures Valid() && (forall e :: e in Entries() ==>
        e in old(Entries()) || fresh(e)) && gone <= old(view).Keys - {key}
      ensures view == if ok then (old(view) - gone)[key := Cell(value, expireAt)] else old(view) - gone
      ensures shards[Route(hash, |shards|, key)].Written(key, Cell(value, expireAt), ok, gone)
      ensures forall k :: k in gone ==> Route(hash, |shards|, k) == Route(hash, |shards|, key)
      ensures forall k :: k in gone ==> MayGo(shards[Route(hash, |shards|, key)].policy, old(view)[k])
      ensures JustEnough(shards[Route(hash, |shards|, key)],
        Slice(old(view), hash, |shards|, Route(hash, |shards|, key)), key, Cell(value, expireAt), gone)
      ensures Fits(old(view)[key := Cell(value, expireAt)], Route(hash, |shards|, key)) ==>
        && ok && gone == {} && view == RefAfter(old(view), Op.Set(key, value, expireAt), 0)
        && Extends(old(Slots()), Slots())
    {
      hide Apart, Slice, Shard.Valid, CellsOf, Shard.Written, MayGo, Weight, Extends, Slots, Landed, JustEnough;
      var i := Route(hash, |shards|, key);
      Owner(i);
      ok, gone := Write(shards[i], key, value, expireAt, nowMono, rng);
      PutSlices(view, hash, |shards|, key, Cell(value, expireAt), gone, ok);
      view := Landed(view, gone, key, Cell(value, expireAt), ok);
      Settled(i);
      if gone == {} {
        MinusNone(old(view));
        Widened(i);
      }
    }

    /** Shard i has room for its part of m, or no limit. */
    ghost predicate Fits(m: map<Bytes, Cell>, i: nat)
      requires i < |shards|
    {
      shards[i].budget <= 0 || Weight(Slice(m, hash, |shards|, i)) <= shards[i].budget
    }

    /** Every shard has room for its part of m. */
    ghost predicate Roomy(m: map<Bytes, Cell>) {
      forall i :: 0 <= i < |shards| ==> Fits(m, i)
    }

    // Background expiry

    method PurgeShard(i: nat, nowMs: nat) returns (total: nat)
      requires Valid() && i < |shards|
      modifies this, shards, Entries()
      ensures Valid() && Entries() <= old(Entries())
      ensures view == old(view) - Dead(Slice(old(view), hash, |shards|, i), nowMs)
      ensures total == |Dead(Slice(old(view), hash, |shards|, i), nowMs)|
    {
      hide Apart, Slice, Shard.Valid, CellsOf, Dead;
      Owner(i);
      total := Purge(shards[i], nowMs);
      SliceDead(view, hash, |shards|, i, nowMs);
      ghost var gone := Dead(Slice(view, hash, |shards|, i), nowMs);
      SliceMinus(view, hash, |shards|, i, gone);
      view := view - gone;
      Settled(i);
    }

    /** Removes exactly the keys expired at the sampled time and counts them. */
    method PurgeExpired(nowMs: nat) returns (total: nat)
      requires Valid()
      modifies this, shards, Entries()
      ensures Valid() && Entries() <= old(Entries())
      ensures view == Live(old(view), nowMs) && total == |Dead(old(view), nowMs)|
      ensures forall k :: k in view <==>
        k in old(view) && (old(view)[k].expireAt == 0 || nowMs < old(view)[k].expireAt)
      ensures total == |old(view)| - |view|
    {
      hide Valid, Slice, Dead, Live, DeadUpto, Entries;
      total := 0;
      NotEmpty();
      DeadUptoEnds(view, hash, |shards|, nowMs);
      MinusNone(view);
      for i := 0 to |shards|
        invariant Valid() && Entries() <= old(Entries())
        invariant view == old(view) - DeadUpto(old(view), hash, |shards|, i, nowMs)
        invariant total == |DeadUpto(old(view), hash, |shards|, i, nowMs)|
      {
        DeadUptoNext(old(view), hash, |shards|, i, nowMs);
        var removed := PurgeShard(i, nowMs);
        total := total + removed;
      }
      LiveOrDead(old(view), nowMs);
    }

    /** One batch of a purge, under the shard's lock. */
    method PurgeRound(i: nat, nowMs: nat) returns (removed: nat, ghost gone: set<Bytes>)
      requires Valid() && i < |shards|
      modifies this, shards, Entries()
      ensures Valid() && Entries() <= old(Entries())
      ensures gone <= Dead(old(view), nowMs) && view == old(view) - gone && removed == |gone|
    {
      hide Apart, Slice, Shard.Valid, CellsOf, Dead, Kept;
      Owner(i);
      removed, gone := PurgeBatch(shards[i], nowMs);
      SliceDead(view, hash, |shards|, i, nowMs);
      SliceMinus(view, hash, |shards|, i, gone);
      view := view - gone;
      Settled(i);
    }

    /** One round of a sweep, under the shard's lock. */
    method SweepRound(i: nat, nowMs: nat, sample: nat, draw: nat -> nat)
      returns (sampled: nat, expired: nat, ghost gone: set<Bytes>)
      requires Valid() && i < |shards|
      modifies this, shards, Entries()
      ensures Valid() && Entries() <= old(Entries())
      ensures gone <= Dead(old(view), nowMs) && view == old(view) - gone && |gone| <= expired <= sampled <= sample
    {
      hide Apart, Slice, Shard.Valid, CellsOf, Dead, Kept, Drawn;
      Owner(i);
      sampled, expired, gone := Sweep(shards[i], nowMs, sample, draw);
      SliceDead(view, hash, |shards|, i, nowMs);
      SliceMinus(view, hash, |shards|, i, gone);
      view := view - gone;
      Settled(i);
    }

    lemma NotEmpty()
      requires Valid()
      ensures |shards| > 0
    {
    }

    method SweepOne(i: nat, clock: nat -> nat, stop: nat -> bool, sample: nat, threshold: real,
                    rng: nat -> nat -> nat, start: Tally) returns (t: Tally, ghost gone: set<Bytes>)
      requires Valid() && i < |shards| && threshold > 0.0 && Monotone(clock) && !start.budgeted
      modifies this, shards, Entries()
      ensures Valid() && Entries() <= old(Entries())
      ensures start.round <= t.round && (!t.budgeted ==> start.round < t.round)
      ensures start.expired + |gone| <= t.expired && t.expired - start.expired <= t.sampled - start.sampled
      ensures gone <= Dead(old(view), clock(t.round)) && view == old(view) - gone
    {
      hide Apart, Slice, Shard.Valid, CellsOf, Dead, Kept;
      Owner(i);
      ghost var rounds;
      t, gone, rounds := SweepRounds(shards[i], clock, stop, sample, threshold, rng, start);
      SliceDead(view, hash, |shards|, i, clock(t.round));
      SliceMinus(view, hash, |shards|, i, gone);
      view := view - gone;
      Settled(i);
    }

    /** One sweep cycle over all shards: it ends, every shard has its turn unless the time budget
        runs out, nothing goes that a client could still see, and what went is counted. */
    method RunCycle(clock: nat -> nat, stop: nat -> bool, sample: nat, threshold: real, rng: nat -> nat -> nat)
      returns (t: Tally, ghost gone: set<Bytes>)
      requires Valid() && threshold > 0.0 && Monotone(clock)
      modifies this, shards, Entries()
      ensures !t.budgeted ==> t.round >= |shards|
      ensures |gone| <= t.expired <= t.sampled
      ensures Valid() && Entries() <= old(Entries())
      ensures gone <= Dead(old(view), clock(t.round)) && view == old(view) - gone
    {
      hide Valid, Dead, Entries;
      t, gone := Tally(0, 0, 0, false), {};
      MinusNone(view);
      for i := 0 to |shards|
        invariant Valid() && Entries() <= old(Entries()) && t.round >= i && !t.budgeted
        invariant |gone| <= t.expired <= t.sampled
        invariant gone <= Dead(old(view), clock(t.round)) && view == old(view) - gone
      {
        var next, taken := SweepOne(i, clock, stop, sample, threshold, rng, t);
        DeadInRest(old(view), gone, clock(next.round));
        DeadLater(old(view), clock(t.round), clock(next.round));
        assert taken <= Dead(old(view), clock(next.round)) - gone;
        MoreGone(old(view), gone, taken);
        t, gone := next, gone + taken;
        if t.budgeted {
          return;
        }
      }
    }

    /** A timer fires: it acts only on the very scheduling it was made for, and only if that is past. */
    method FireTimer(key: Bytes, expireAt: nat, nowMs: nat) returns (removed: bool)
      requires Valid()
      modifies this, shards, Entries()
      ensures Valid() && Entries() <= old(Entries())
      ensures removed <==> Hits(old(view), (key, expireAt), nowMs)
      ensures removed <==> key in old(view) && old(view)[key].expireAt == expireAt && 0 < expireAt <= nowMs
      ensures view == if removed then old(view) - {key} else old(view)
    {
      hide Apart, Slice, Shard.Valid, CellsOf;
      var i := Route(hash, |shards|, key);
      Owner(i);
      removed := FireOn(shards[i], key, expireAt, nowMs);
      MinusOne(view, hash, |shards|, key);
      if removed {
        view := view - {key};
      }
      Settled(i);
    }

    /** The wheel's due timers, in the order they came out. */
    method RunOnce(due: seq<(Bytes, nat)>, nowMs: nat) returns (n: nat, ghost gone: set<Bytes>)
      requires Valid()
      modifies this, shards, Entries()
      ensures Valid() && Entries() <= old(Entries())
      ensures gone <= Dead(old(view), nowMs) && view == old(view) - gone && n == |gone|
      ensures forall k :: k in gone ==> exists i :: 0 <= i < |due| && due[i] == (k, old(view)[k].expireAt)
      ensures forall i :: 0 <= i < |due| && Hits(old(view), due[i], nowMs) ==> due[i].0 in gone
    {
      hide Valid, Entries, Dead;
      n, gone := 0, {};
      MinusNone(view);
      for i := 0 to |due|
        invariant Valid() && Entries() <= old(Entries())
        invariant gone <= Dead(old(view), nowMs) && gone <= old(view).Keys && view == old(view) - gone && n == |gone|
        invariant forall k :: k in gone ==> exists j :: 0 <= j < i && due[j] == (k, old(view)[k].expireAt)
        invariant forall j :: 0 <= j < i && Hits(old(view), due[j], nowMs) ==> due[j].0 in gone
      {
        var removed := FireTimer(due[i].0, due[i].1, nowMs);
        if removed {
          DeadMore(old(view), gone, nowMs, due[i].0);
          n, gone := n + 1, gone + {due[i].0};
        }
      }
    }

    // Memory

    /** The byte counters of all shards together are the accounted size of the whole
        keyspace, and never more than the limit. */
    method MemoryBytes() returns (total: int)
      requires Valid()
      ensures total == Weight(view) && (maxMemory > 0 ==> total <= maxMemory)
    {
      hide Weight, Upto, Slice, Shard.Indexed, CellsOf, Apart;
      total := 0;
      WeightEmpty();
      UptoEnds(view, hash, |shards|);
      if maxMemory > 0 {
        Shares(maxMemory, |shards|);
      }
      for i := 0 to |shards|
        invariant total == Weight(Upto(view, hash, |shards|, i))
        invariant maxMemory > 0 ==> total <= i * (maxMemory / |shards|)
      {
        UptoNext(view, hash, |shards|, i);
        WeightSum(Upto(view, hash, |shards|, i), Slice(view, hash, |shards|, i));
        Owner(i);
        if maxMemory > 0 {
          ShareHolds(shards[i], Slice(view, hash, |shards|, i), maxMemory, |shards|);
        }
        total := total + shards[i].memBytes;
      }
    }

    // Iteration

    /** All shards in turn, while nobody writes: what comes out is the live keyspace, and no key twice if
        and only if no shard has a live slot in a later group of 256 than an expired one. */
    method Range(nowMs: nat) returns (out: seq<RangeScan.Emission>)
      requires Valid()
      ensures RangeScan.PutAll(map[], out) == Live(view, nowMs) && RangeScan.OutOf(out, view)
      ensures RangeScan.Unique(out) <==> forall i :: 0 <= i < |shards| ==> RangeScan.OnceEach(shards[i].slots, nowMs)
    {
      hide Shard.Valid, Live, CellsOf, Upto, Slice, RangeScan.PutAll, RangeScan.OutOf, Apart, RangeScan.Unique,
        RangeScan.Apart, RangeScan.OnceEach;
      OutOfNone(map[]);
      RangeScan.NoneTwice();
      out := [];
      UptoEnds(view, hash, |shards|);
      LiveNone(nowMs);
      for i := 0 to |shards|
        invariant RangeScan.PutAll(map[], out) == Live(Upto(view, hash, |shards|, i), nowMs)
        invariant RangeScan.OutOf(out, Upto(view, hash, |shards|, i))
        invariant RangeScan.Unique(out) <==> forall j :: 0 <= j < i ==> RangeScan.OnceEach(shards[j].slots, nowMs)
      {
        Owner(i);
        var es := RangeScan.Collect(shards[i], nowMs);
        OutOfPart(out, es, view, hash, |shards|, i);
        RangeScan.UniqueJoin(out, es);
        ghost var before, here := Upto(view, hash, |shards|, i), Slice(view, hash, |shards|, i);
        UptoNext(view, hash, |shards|, i);
        RangeScan.PutAllJoin(map[], out, es);
        PlusNone(Live(before, nowMs));
        RangeScan.PutAllOver(Live(before, nowMs), map[], es);
        LiveUnion(before, here, nowMs);
        out := out + es;
      }
    }
  }

  /** Without a limit there is room for everything. */
  lemma Unlimited(st: Store, m: map<Bytes, Cell>)
    requires st.Valid()
    ensures |st.shards| > 0 && (forall k :: Route(st.hash, |st.shards|, k) < |st.shards|)
    ensures st.maxMemory <= 0 ==> st.Roomy(m)
  {
  }
}
