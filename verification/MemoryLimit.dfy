/** What a keyspace is under a memory limit, against what it would be without one. */
module MemoryLimit {
  import opened Bytes
  import opened Shards
  import opened Expiry
  import opened References
  import opened Stores

  /** The cells that were evicted, each as it was when it went. */
  type Evicted = set<(Bytes, Cell)>

  /** What else a write depends on: the access clock and the draws of the eviction sampling. */
  datatype Env = Env(mono: nat -> nat, rng: nat -> nat -> nat -> nat)

  ghost function Cells(m: map<Bytes, Cell>, gone: set<Bytes>): (r: Evicted)
    requires gone <= m.Keys
  {
    set k | k in gone :: (k, m[k])
  }

  ghost predicate Names(lost: Evicted, k: Bytes) {
    exists c :: (k, c) in lost
  }

  /** What is left of b when the cells in lost have been evicted on the way: nothing else is missing,
      and nothing is altered. */
  ghost predicate Remains(a: map<Bytes, Cell>, b: map<Bytes, Cell>, lost: Evicted) {
    && (forall k :: k in a ==> k in b && a[k] == b[k])
    && (forall k :: k in b && k !in a ==> Names(lost, k))
  }

  /** Every cell evicted is one the policy of its shard lets go. */
  ghost predicate Allowed(st: Store, lost: Evicted) {
    && |st.shards| > 0 && (st.maxMemory <= 0 ==> lost == {})
    && forall x :: x in lost ==> MayGo(st.shards[Route(st.hash, |st.shards|, x.0)].policy, x.1)
  }

  /** One policy for all shards, as the store is configured. */
  ghost predicate HasPolicy(st: Store, policy: Policy) {
    forall i :: 0 <= i < |st.shards| ==> st.shards[i].policy == policy
  }

  /** Without eviction nothing is lost; the volatile policy loses only what has a deadline. */
  lemma AllowedMeans(st: Store, lost: Evicted, policy: Policy)
    requires Allowed(st, lost) && HasPolicy(st, policy)
    ensures policy.NoEviction? ==> lost == {}
    ensures policy.VolatileLRU? ==> forall x :: x in lost ==> x.1.expireAt != 0
  {
    forall x | x in lost ensures MayGo(policy, x.1) {
      assert Route(st.hash, |st.shards|, x.0) < |st.shards|;
    }
  }

  lemma RemainsAll(a: map<Bytes, Cell>, b: map<Bytes, Cell>)
    ensures Remains(a, b, {}) <==> a == b
  {
    if Remains(a, b, {}) {
      forall k | k in b ensures k in a {
        assert !Names({}, k);
      }
    }
  }

  lemma RemainsLess(a: map<Bytes, Cell>, b: map<Bytes, Cell>, lost: Evicted, gone: set<Bytes>)
    requires Remains(a, b, lost) && gone <= a.Keys
    ensures Remains(a - gone, b, lost + Cells(a, gone))
  {
    var more := lost + Cells(a, gone);
    forall k | k in b && k !in a - gone ensures Names(more, k) {
      if k in gone {
        assert (k, a[k]) in more;
      } else {
        var c :| (k, c) in lost;
        assert (k, c) in more;
      }
    }
  }

  /** A later write meets the keys that are left as it would have met them otherwise. */
  lemma RemainsAfter(a: map<Bytes, Cell>, b: map<Bytes, Cell>, lost: Evicted, op: Op, now: nat)
    requires Remains(a, b, lost)
    ensures Remains(RefAfter(a, op, now), RefAfter(b, op, now), lost)
  {
    hide Names;
  }

  lemma RemainsLive(a: map<Bytes, Cell>, b: map<Bytes, Cell>, lost: Evicted, now: nat)
    requires Remains(a, b, lost)
    ensures Remains(Live(a, now), Live(b, now), lost)
  {
    hide Names;
  }

  lemma RemainsPut(a: map<Bytes, Cell>, b: map<Bytes, Cell>, lost: Evicted, k: Bytes, c: Cell)
    requires Remains(a, b, lost)
    ensures Remains(a[k := c], b[k := c], lost)
  {
    hide Names;
  }

  lemma RemainsTwice(a: map<Bytes, Cell>, b: map<Bytes, Cell>, c: map<Bytes, Cell>, more: Evicted, lost: Evicted)
    requires Remains(a, b, more) && Remains(b, c, lost)
    ensures Remains(a, c, lost + more)
  {
    forall k | k in c && k !in a ensures Names(lost + more, k) {
      if k in b {
        var x :| (k, x) in more;
        assert (k, x) in lost + more;
      } else {
        var x :| (k, x) in lost;
        assert (k, x) in lost + more;
      }
    }
  }

  lemma AllowedMore(st: Store, lost: Evicted, m: map<Bytes, Cell>, gone: set<Bytes>, key: Bytes)
    requires Allowed(st, lost) && gone <= m.Keys && (st.maxMemory <= 0 ==> gone == {})
    requires forall k :: k in gone ==> Route(st.hash, |st.shards|, k) == Route(st.hash, |st.shards|, key)
    requires Route(st.hash, |st.shards|, key) < |st.shards|
    requires forall k :: k in gone ==> MayGo(st.shards[Route(st.hash, |st.shards|, key)].policy, m[k])
    ensures Allowed(st, lost + Cells(m, gone))
  {
    hide MayGo;
  }

  lemma AllowedBoth(st: Store, lost: Evicted, more: Evicted)
    requires Allowed(st, lost) && Allowed(st, more)
    ensures Allowed(st, lost + more)
  {
    hide MayGo;
  }

  lemma NothingLost(st: Store, m: map<Bytes, Cell>)
    requires st.Valid()
    ensures Allowed(st, {}) && Cells(m, {}) == {}
  {
  }

  /** A write under a memory limit, against the keyspace there would be without one. */
  method SetWithin(st: Store, key: Bytes, value: Bytes, expireAt: nat, nowMono: nat, rng: nat -> nat -> nat,
                   ghost ideal: map<Bytes, Cell>, ghost before: Evicted)
    returns (ok: bool, ghost lost: Evicted, ghost gone: set<Bytes>)
    requires st.Valid() && Cost(|key|, |value|) < U32 && Remains(st.view, ideal, before) && Allowed(st, before)
    modifies st, st.shards, st.Entries()
    ensures st.Valid() && (forall e :: e in st.Entries() ==> e in old(st.Entries()) || fresh(e))
    ensures Remains(st.view, if ok then ideal[key := Cell(value, expireAt)] else ideal, lost) && Allowed(st, lost)
    ensures before == {} && st.Roomy(ideal[key := Cell(value, expireAt)]) ==> ok && lost == {}
    ensures st.maxMemory <= 0 ==> ok && lost == before && gone == {}
    ensures st.view == if ok then (old(st.view) - gone)[key := Cell(value, expireAt)] else old(st.view) - gone
    ensures gone <= old(st.view).Keys - {key} && lost == before + Cells(old(st.view), gone)
  {
    hide Store.Valid, Store.Entries, Remains, Allowed, RefAfter, Shard.Written, Store.Slots, Extends, MayGo, Store.Fits,
      JustEnough;
    ghost var view, cell := st.view, Cell(value, expireAt);
    Unlimited(st, view[key := cell]);
    RemainsAll(view, ideal);
    NothingLost(st, view);
    ok, gone := st.Set(key, value, expireAt, nowMono, rng);
    RemainsLess(view, ideal, before, gone);
    AllowedMore(st, before, view, gone, key);
    lost := before + Cells(view, gone);
    if ok {
      RemainsPut(view - gone, ideal, lost, key, cell);
    }
  }
}
