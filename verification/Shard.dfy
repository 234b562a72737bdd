/** One shard of the store: a map, two swap-with-last slot arrays with cached
    back-indices, an intrusive LRU list and a byte counter, all changed in place. */
module Shards {
  import opened Bytes

  const STRUCT_SIZE := 96
  const MAP_OVERHEAD := 64

  /** What the store accounts for one key and value. */
  function Cost(keyLen: nat, valueLen: nat): (r: nat) {
    keyLen + valueLen + STRUCT_SIZE + MAP_OVERHEAD
  }

  /** The client-visible part of an entry. */
  datatype Cell = Cell(value: Bytes, expireAt: nat) {
    predicate Expired(nowMs: nat) {
      expireAt != 0 && expireAt <= nowMs
    }
  }

  datatype Policy = AllKeysLRU | VolatileLRU | NoEviction

  /** The accounted size of a whole keyspace, independent of any index. */
  ghost function Weight(m: map<Bytes, Cell>): (r: nat) {
    if m == map[] then 0 else
      var k :| k in m;
      Cost(|k|, |m[k].value|) + Weight(m - {k})
  }

  lemma {:induction false} WeightRemove(m: map<Bytes, Cell>, k: Bytes)
    requires k in m
    ensures Weight(m) == Cost(|k|, |m[k].value|) + Weight(m - {k})
    decreases |m|
  {
    var j :| j in m && Weight(m) == Cost(|j|, |m[j].value|) + Weight(m - {j});
    if j != k {
      WeightRemove(m - {j}, k);
      WeightRemove(m - {k}, j);
      assert m - {j} - {k} == m - {k} - {j};
    }
  }

  lemma WeightPut(m: map<Bytes, Cell>, k: Bytes, c: Cell)
    ensures Weight(m[k := c]) == Weight(m - {k}) + Cost(|k|, |c.value|)
  {
    WeightRemove(m[k := c], k);
    assert m[k := c] - {k} == m - {k};
  }

  /** An entry counts for its key, its value and 160 bytes more. */
  lemma WeightCounts(m: map<Bytes, Cell>, k: Bytes, c: Cell)
    ensures Weight(map[]) == 0
    ensures Weight(m[k := c]) == Weight(m - {k}) + |k| + |c.value| + 160
  {
    WeightPut(m, k, c);
  }

  lemma WeightNone(m: map<Bytes, Cell>)
    ensures Weight(m) <= 0 ==> m == map[]
  {
  }

  lemma WeightOnly(m: map<Bytes, Cell>, k: Bytes)
    requires m.Keys <= {k}
    ensures Weight(m - {k}) == 0
  {
    assert m - {k} == map[];
  }

  lemma MinusAll(m: map<Bytes, Cell>, k: Bytes)
    ensures k !in m ==> m - {k} == m
  {
  }

  /** Removal from a slot array: the last element fills the hole. */
  function SwapRemove<T>(s: seq<T>, i: nat): (r: seq<T>)
    requires i < |s|
  {
    s[i := s[|s| - 1]][..|s| - 1]
  }

  /** The sequence without the first occurrence of x. */
  ghost function Dropped<T>(s: seq<T>, x: T): (r: seq<T>) {
    if s == [] then [] else if s[0] == x then s[1..] else [s[0]] + Dropped(s[1..], x)
  }

  lemma {:induction false} DroppedAt<T>(s: seq<T>, i: nat)
    requires i < |s| && forall j :: 0 <= j < i ==> s[j] != s[i]
    ensures Dropped(s, s[i]) == Without(s, i)
  {
    if i > 0 {
      DroppedAt(s[1..], i - 1);
    }
  }

  class Entry {
    const key: Bytes
    var value: Bytes
    var expireAt: nat
    var lastAccess: nat
    var size: nat
    var slot: int
    var ttlSlot: int
    var prev: Entry?
    var next: Entry?

    constructor (key: Bytes, value: Bytes, expireAt: nat, nowMono: nat)
      requires Cost(|key|, |value|) < U32
      ensures this.key == key && this.value == value && this.expireAt == expireAt && lastAccess == nowMono
      ensures size == Cost(|key|, |value|) && slot == -1 && ttlSlot == -1 && prev == null && next == null
    {
      this.key, this.value, this.expireAt, lastAccess := key, value, expireAt, nowMono;
      size := Cost(|key|, |value|) % U32;
      slot, ttlSlot, prev, next := -1, -1, null, null;
    }

    predicate Expired(nowMs: nat)
      reads `expireAt
    {
      expireAt != 0 && expireAt <= nowMs
    }
  }

  ghost function CellsOf(m: map<Bytes, Entry>): (r: map<Bytes, Cell>)
    reads m.Values`value, m.Values`expireAt
  {
    map k | k in m :: Cell(m[k].value, m[k].expireAt)
  }

  lemma CellsOfRemove(m: map<Bytes, Entry>, k: Bytes)
    ensures CellsOf(m - {k}) == CellsOf(m) - {k}
  {
  }

  lemma CellsOfPut(m: map<Bytes, Entry>, k: Bytes, e: Entry)
    ensures CellsOf(m[k := e]) == CellsOf(m)[k := Cell(e.value, e.expireAt)]
  {
  }

  lemma MinusNone<V>(m: map<Bytes, V>)
    ensures m - {} == m
  {
  }

  lemma MinusMinus<V>(m: map<Bytes, V>, gone: set<Bytes>, k: Bytes)
    ensures m - gone - {k} == m - (gone + {k})
  {
  }

  lemma WithoutHas(s: seq<Entry>, i: nat)
    requires i < |s|
    ensures forall x :: x in s && x != s[i] ==> x in Without(s, i)
    ensures forall x :: x in Without(s, i) ==> x in s
  {
    forall x | x in s && x != s[i] ensures x in Without(s, i) {
      var j :| 0 <= j < |s| && s[j] == x;
      assert Without(s, i)[if j < i then j else j - 1] == x;
    }
  }

  ghost function KeysIn(s: seq<Bytes>): (r: set<Bytes>) {
    set k | k in s
  }

  lemma NoKeys()
    ensures KeysIn([]) == {}
  {
  }

  lemma OneMoreKey(s: seq<Bytes>, k: Bytes)
    ensures KeysIn(s + [k]) == KeysIn(s) + {k} && (s + [k])[..|s|] == s
    ensures forall i :: 0 <= i < |s| ==> (s + [k])[..i] == s[..i]
  {
  }

  lemma LastKey(s: seq<Bytes>)
    requires s != [] && |KeysIn(s)| == |s|
    ensures var k := s[|s| - 1]; k in KeysIn(s) && KeysIn(s[..|s| - 1]) == KeysIn(s) - {k}
  {
    var k, front := s[|s| - 1], s[..|s| - 1];
    assert s == front + [k];
    KeysInAtMost(front);
    assert KeysIn(s) == KeysIn(front) + {k};
  }

  lemma {:induction false} KeysInAtMost(s: seq<Bytes>)
    ensures |KeysIn(s)| <= |s|
  {
    if s != [] {
      var front := s[..|s| - 1];
      KeysInAtMost(front);
      assert s == front + [s[|s| - 1]];
      assert KeysIn(s) == KeysIn(front) + {s[|s| - 1]};
    }
  }

  /** What is left of a list of entries when some keys are gone. */
  ghost function Kept(s: seq<Entry>, gone: set<Bytes>): (r: seq<Entry>) {
    if s == [] then []
    else if s[0].key in gone then Kept(s[1..], gone)
    else [s[0]] + Kept(s[1..], gone)
  }

  ghost predicate DistinctKeys(s: seq<Entry>) {
    forall i, j :: 0 <= i < j < |s| ==> s[i].key != s[j].key
  }

  lemma {:induction false} KeptAll(s: seq<Entry>)
    ensures Kept(s, {}) == s
  {
    if s != [] {
      KeptAll(s[1..]);
    }
  }

  lemma {:induction false} KeptHas(s: seq<Entry>, gone: set<Bytes>, e: Entry)
    ensures e in Kept(s, gone) <==> e in s && e.key !in gone
  {
    if s != [] {
      KeptHas(s[1..], gone, e);
    }
  }

  lemma {:induction false} KeptNone(s: seq<Entry>, gone: set<Bytes>, k: Bytes)
    requires forall i :: 0 <= i < |s| ==> s[i].key != k
    ensures Kept(s, gone + {k}) == Kept(s, gone)
  {
    if s != [] {
      KeptNone(s[1..], gone, k);
    }
  }

  lemma {:induction false} KeptTwice(s: seq<Entry>, gone: set<Bytes>, more: set<Bytes>)
    ensures Kept(Kept(s, gone), more) == Kept(s, gone + more)
  {
    if s != [] {
      KeptTwice(s[1..], gone, more);
      if s[0].key !in gone {
        var rest := Kept(s[1..], gone);
        assert ([s[0]] + rest)[1..] == rest;
      }
    }
  }

  /** Newest first by the number of the last set of each key, of `sets` sets so far. */
  ghost predicate Ranked(order: seq<Entry>, setAt: map<Bytes, nat>, sets: nat) {
    && (forall i :: 0 <= i < |order| ==> order[i].key in setAt && setAt[order[i].key] <= sets)
    && (forall i, j :: 0 <= i < j < |order| ==> setAt[order[i].key] > setAt[order[j].key])
  }

  lemma {:induction false} KeptRanked(order: seq<Entry>, gone: set<Bytes>, setAt: map<Bytes, nat>, sets: nat)
    requires Ranked(order, setAt, sets)
    ensures Ranked(Kept(order, gone), setAt, sets)
  {
    if order != [] {
      KeptRanked(order[1..], gone, setAt, sets);
      var rest := Kept(order[1..], gone);
      forall i | 0 <= i < |rest| && order[0].key !in gone ensures setAt[order[0].key] > setAt[rest[i].key] {
        KeptHas(order[1..], gone, rest[i]);
        var j :| 0 <= j < |order[1..]| && order[1..][j] == rest[i];
        assert order[j + 1] == rest[i];
      }
    }
  }

  lemma NoneRanked(setAt: map<Bytes, nat>, sets: nat)
    ensures Ranked([], setAt, sets)
  {
  }

  lemma FrontRanked(e: Entry, rest: seq<Entry>, setAt: map<Bytes, nat>, sets: nat)
    requires Ranked(rest, setAt, sets) && forall i :: 0 <= i < |rest| ==> rest[i].key != e.key
    ensures Ranked([e] + rest, setAt[e.key := sets + 1], sets + 1)
  {
  }

  lemma {:induction false} KeptWithout(s: seq<Entry>, gone: set<Bytes>, k: Bytes)
    requires k in gone
    ensures forall i :: 0 <= i < |Kept(s, gone)| ==> Kept(s, gone)[i].key != k
  {
    forall i | 0 <= i < |Kept(s, gone)| ensures Kept(s, gone)[i].key != k {
      KeptHas(s, gone, Kept(s, gone)[i]);
    }
  }

  lemma {:induction false} KeptDrop(s: seq<Entry>, gone: set<Bytes>, e: Entry)
    requires DistinctKeys(s) && e in Kept(s, gone)
    ensures Dropped(Kept(s, gone), e) == Kept(s, gone + {e.key})
  {
    KeptHas(s, gone, e);
    var rest := Kept(s[1..], gone);
    if s[0] == e {
      KeptNone(s[1..], gone, e.key);
      assert [e] + rest == Kept(s, gone) && ([e] + rest)[1..] == rest;
    } else {
      KeptHas(s[1..], gone, e);
      assert s[0].key != e.key;
      KeptDrop(s[1..], gone, e);
      if s[0].key !in gone {
        DroppedNext(s[0], rest, e);
      }
    }
  }

  lemma DroppedNext<T>(x: T, s: seq<T>, e: T)
    requires x != e
    ensures Dropped([x] + s, e) == [x] + Dropped(s, e)
  {
    assert ([x] + s)[1..] == s;
  }

  /** Entries behind e in the full list and not gone are behind e in what is left. */
  lemma {:induction false} KeptBehind(s: seq<Entry>, gone: set<Bytes>, i: nat, at: nat, j: nat) returns (b: nat)
    requires DistinctKeys(s) && i < j < |s| && s[j].key !in gone
    requires at < |Kept(s, gone)| && Kept(s, gone)[at] == s[i]
    ensures at < b < |Kept(s, gone)| && Kept(s, gone)[b] == s[j]
  {
    var rest := Kept(s[1..], gone);
    if i == 0 {
      KeptHas(s, gone, s[0]);
      assert Kept(s, gone) == [s[0]] + rest;
      KeptHas(s[1..], gone, s[0]);
      assert at == 0;
      KeptHas(s[1..], gone, s[j]);
      assert s[1..][j - 1] == s[j];
      var c :| 0 <= c < |rest| && rest[c] == s[j];
      b := c + 1;
    } else if s[0].key in gone {
      b := KeptBehind(s[1..], gone, i - 1, at, j - 1);
    } else {
      assert Kept(s, gone) == [s[0]] + rest;
      assert s[0] != s[i];
      var c := KeptBehind(s[1..], gone, i - 1, at - 1, j - 1);
      b := c + 1;
    }
  }

  class Shard {
    var entries: map<Bytes, Entry>
    var slots: seq<Entry>
    var ttlSlots: seq<Entry>
    var lruHead: Entry?
    var lruTail: Entry?
    const exactLRU: bool
    var memBytes: int
    const budget: int
    const lowWater: int
    const policy: Policy
    const sampleK: nat
    const batchMax: nat
    /** The LRU list from head to tail: most recently set first. */
    ghost var lru: seq<Entry>
    /** The entries in the shard. */
    ghost var repr: set<Entry>
    /** Sets so far, and the number of each key's last one. */
    ghost var sets: nat
    ghost var setAt: map<Bytes, nat>

    /** `slots` enumerates the map without duplicates and every entry knows its slot. */
    ghost predicate Index()
      reads `entries, `slots, `repr, repr`slot
    {
      && Slotted(repr)
      && (forall e :: e in repr ==> e.key in entries && entries[e.key] == e)
      && (forall k :: k in entries ==> entries[k] in repr && entries[k].key == k)
    }

    /** `slots` enumerates the members, each at the index it has cached. */
    ghost predicate Slotted(members: set<Entry>)
      reads `slots, members`slot
    {
      && (forall i :: 0 <= i < |slots| ==> slots[i] in members && slots[i].slot == i)
      && (forall e :: e in members ==> 0 <= e.slot < |slots| && slots[e.slot] == e)
    }

    /** `ttlSlots` has no strangers and no duplicates, and every cached index into it is right. */
    ghost predicate TtlSlots(members: set<Entry>)
      reads `ttlSlots, members`ttlSlot
    {
      && (forall j :: 0 <= j < |ttlSlots| ==> ttlSlots[j] in members && ttlSlots[j].ttlSlot == j)
      && (forall e :: e in members && e.ttlSlot != -1 ==> 0 <= e.ttlSlot < |ttlSlots| && ttlSlots[e.ttlSlot] == e)
    }

    /** Exactly the entries with a deadline have a place in `ttlSlots`. */
    ghost predicate TtlExact(members: set<Entry>)
      reads members`ttlSlot, members`expireAt
    {
      forall e :: e in members ==> (e.expireAt != 0 <==> e.ttlSlot != -1)
    }

    /** The pointers form a doubly linked list of exactly `lru`, in that order. */
    ghost predicate Linked(members: set<Entry>)
      reads `lru, `lruHead, `lruTail, members`prev, members`next
    {
      && (forall i :: 0 <= i < |lru| ==> lru[i] in members)
      && (forall i, j :: 0 <= i < j < |lru| ==> lru[i] != lru[j])
      && (forall i, j :: 0 <= i && j == i + 1 && j < |lru| ==> lru[i].next == lru[j] && lru[j].prev == lru[i])
      && (|lru| > 0 ==> lru[0].prev == null && lru[|lru| - 1].next == null)
      && lruHead == (if |lru| > 0 then lru[0] else null)
      && lruTail == (if |lru| > 0 then lru[|lru| - 1] else null)
    }

    /** The LRU list holds every entry, or nothing when the list is switched off. */
    ghost predicate Listed(members: set<Entry>)
      reads `lru
    {
      && (exactLRU ==> forall e :: e in members ==> e in lru)
      && (!exactLRU ==> lru == [])
    }

    ghost predicate Sized(members: set<Entry>)
      reads members`size, members`value
    {
      forall e :: e in members ==> e.size == Cost(|e.key|, |e.value|) < U32
    }

    /** The keyspace as a map, without any of the indices. */
    ghost function Contents(): (r: map<Bytes, Cell>)
      reads `entries, entries.Values`value, entries.Values`expireAt
    {
      CellsOf(entries)
    }

    ghost predicate Timed(members: set<Entry>)
      reads `ttlSlots, members`ttlSlot, members`expireAt, members`size, members`value
    {
      TtlSlots(members) && TtlExact(members) && Sized(members)
    }

    ghost predicate Ordered(members: set<Entry>)
      reads `lru, `lruHead, `lruTail, members`prev, members`next
    {
      Linked(members) && Listed(members)
    }

    ghost predicate Indexed()
      reads `entries, `slots, `ttlSlots, `lru, `lruHead, `lruTail, `repr, repr
    {
      Index() && Timed(repr) && Ordered(repr)
    }

    ghost predicate Valid()
      reads this, repr
    {
      && Indexed()
      && memBytes == Weight(Contents())
      && (budget > 0 ==> memBytes <= budget)
      && Ranked(lru, setAt, sets)
    }

    constructor (exactLRU: bool, budget: int, lowWater: int, policy: Policy, sampleK: nat, batchMax: nat)
      ensures Valid() && Contents() == map[] && repr == {} && memBytes == 0
      ensures this.exactLRU == exactLRU && this.budget == budget && this.lowWater == lowWater
      ensures this.policy == policy && this.sampleK == sampleK && this.batchMax == batchMax
    {
      entries, slots, ttlSlots, lru, repr, memBytes := map[], [], [], [], {}, 0;
      lruHead, lruTail, sets, setAt := null, null, 0, map[];
      this.exactLRU, this.budget, this.lowWater, this.policy, this.sampleK, this.batchMax :=
        exactLRU, budget, lowWater, policy, sampleK, batchMax;
    }

    // The slot arrays

    method AddSlot(e: Entry)
      requires Index() && e !in repr && e.key !in entries
      modifies `entries, `slots, `repr, e`slot
      ensures Index() && repr == old(repr) + {e}
      ensures slots == old(slots) + [e] && entries == old(entries)[e.key := e]
    {
      entries := entries[e.key := e];
      e.slot := |slots|;
      slots, repr := slots + [e], repr + {e};
    }

    /** The last entry moves into the slot that is freed. */
    method FreeSlot(e: Entry, ghost members: set<Entry>)
      requires e in members && Slotted(members)
      modifies `slots, members`slot
      ensures Slotted(members - {e}) && e.slot == -1 && slots == SwapRemove(old(slots), old(e.slot))
    {
      var i, last := e.slot, |slots| - 1;
      slots := slots[i := slots[last]];
      slots[i].slot := i;
      slots := slots[..last];
      e.slot := -1;
    }

    method RemoveSlot(e: Entry)
      requires Index() && e in repr
      modifies `entries, `slots, `repr, repr`slot
      ensures Index() && repr == old(repr) - {e} && e.slot == -1
      ensures slots == SwapRemove(old(slots), old(e.slot)) && entries == old(entries) - {e.key}
    {
      hide Slotted, SwapRemove;
      entries := entries - {e.key};
      SlotOf(e);
      FreeSlot(e, repr);
      repr := repr - {e};
    }

    lemma SlotOf(e: Entry)
      requires Slotted(repr) && e in repr
      ensures 0 <= e.slot < |slots| && slots[e.slot] == e
    {
    }

    method AddTtlSlot(e: Entry, ghost members: set<Entry>)
      requires e in members && TtlSlots(members)
      modifies `ttlSlots, e`ttlSlot
      ensures TtlSlots(members) && e.ttlSlot != -1
      ensures old(TtlExact(members - {e})) ==> TtlExact(members - {e})
    {
      if e.ttlSlot < 0 {
        e.ttlSlot := |ttlSlots|;
        ttlSlots := ttlSlots + [e];
      }
    }

    method RemoveTtlSlot(e: Entry, ghost members: set<Entry>)
      requires e in members && TtlSlots(members)
      modifies `ttlSlots, members`ttlSlot
      ensures TtlSlots(members) && e.ttlSlot == -1 && e !in ttlSlots
      ensures old(TtlExact(members - {e})) ==> TtlExact(members - {e})
      ensures ttlSlots == if old(e.ttlSlot) == -1 then old(ttlSlots) else SwapRemove(old(ttlSlots), old(e.ttlSlot))
    {
      if e.ttlSlot >= 0 {
        var i, last := e.ttlSlot, |ttlSlots| - 1;
        ttlSlots := ttlSlots[i := ttlSlots[last]];
        ttlSlots[i].ttlSlot := i;
        ttlSlots := ttlSlots[..last];
      }
      e.ttlSlot := -1;
    }

    // The LRU list

    method LruPushFront(e: Entry, ghost members: set<Entry>)
      requires e in members && Linked(members) && e !in lru
      modifies `lru, `lruHead, `lruTail, members`prev, members`next
      ensures Linked(members) && lru == [e] + old(lru)
    {
      e.prev := null;
      e.next := lruHead;
      if lruHead != null {
        lruHead.prev := e;
      }
      lruHead := e;
      if lruTail == null {
        lruTail := e;
      }
      lru := [e] + lru;
    }

    method LruRemove(e: Entry, ghost i: nat, ghost members: set<Entry>)
      requires Linked(members) && i < |lru| && lru[i] == e
      modifies `lru, `lruHead, `lruTail, members`prev, members`next
      ensures Linked(members) && lru == Without(old(lru), i)
    {
      assert i > 0 ==> e.prev == lru[i - 1];
      assert i + 1 < |lru| ==> e.next == lru[i + 1];
      if e.prev != null {
        e.prev.next := e.next;
      } else if lruHead == e {
        lruHead := e.next;
      }
      if e.next != null {
        e.next.prev := e.prev;
      } else if lruTail == e {
        lruTail := e.prev;
      }
      e.prev, e.next := null, null;
      lru := Without(lru, i);
    }

    /** Where e stands in the LRU list, and what is left of the list without it. */
    lemma Standing(e: Entry, members: set<Entry>) returns (i: nat)
      requires exactLRU && Linked(members) && Listed(members) && e in members
      ensures i < |lru| && lru[i] == e && Dropped(lru, e) == Without(lru, i) && e !in Without(lru, i)
      ensures forall x :: x in members && x != e ==> x in Without(lru, i)
    {
      i :| 0 <= i < |lru| && lru[i] == e;
      DroppedAt(lru, i);
      WithoutHas(lru, i);
    }

    method Unlink(e: Entry, ghost members: set<Entry>)
      requires Ordered(members) && e in members
      modifies `lru, `lruHead, `lruTail, members`prev, members`next
      ensures Ordered(members - {e}) && (exactLRU ==> lru == Dropped(old(lru), e))
    {
      hide Without, Dropped;
      if exactLRU {
        ghost var i := Standing(e, members);
        LruRemove(e, i, members);
      }
    }

    method LruMoveToFront(e: Entry, ghost members: set<Entry>)
      requires exactLRU && Ordered(members) && e in members
      modifies `lru, `lruHead, `lruTail, members`prev, members`next
      ensures Ordered(members) && lru == [e] + Dropped(old(lru), e)
    {
      if lruHead == e {
        DroppedAt(lru, 0);
        return;
      }
      ghost var i := Standing(e, members);
      hide Without, Dropped, Linked;
      LruRemove(e, i, members);
      LruPushFront(e, members);
    }

    // Whole entries

    lemma Lookup(key: Bytes)
      requires Indexed()
      ensures key in entries <==> key in Contents()
      ensures key in entries ==> entries[key] in repr && entries[key].key == key
    {
    }

    lemma CellOf(e: Entry)
      requires Indexed() && e in repr
      ensures e.key in Contents() && Contents()[e.key] == Cell(e.value, e.expireAt)
    {
    }

    /** What one entry leaving the TTL array leaves behind. */
    lemma Shrink(members: set<Entry>, e: Entry)
      requires TtlSlots(members) && Sized(members) && e !in ttlSlots
      ensures TtlSlots(members - {e}) && Sized(members - {e})
    {
    }

    lemma SizeOf(e: Entry)
      requires Indexed() && e in repr
      ensures e.size == Cost(|e.key|, |e.value|)
    {
    }

    lemma Places(e: Entry)
      requires Index() && Timed(repr) && e in repr
      ensures TtlExact(repr - {e}) && e.size == Cost(|e.key|, |e.value|)
      ensures Keyed() && e.key in entries && entries[e.key] == e
      ensures 0 <= e.slot < |slots| && slots[e.slot] == e && (e.ttlSlot == -1 <==> e.expireAt == 0)
      ensures e.ttlSlot != -1 ==> 0 <= e.ttlSlot < |ttlSlots|
    {
    }

    method Unslot(e: Entry)
      requires Index() && Timed(repr) && e in repr
      modifies `entries, `slots, `ttlSlots, `repr, repr`slot, repr`ttlSlot
      ensures Index() && Timed(repr) && entries == old(entries) - {e.key} && repr == old(repr) - {e}
      ensures e.slot == -1 && slots == SwapRemove(old(slots), old(e.slot))
      ensures ttlSlots == if e.expireAt == 0 then old(ttlSlots) else SwapRemove(old(ttlSlots), old(e.ttlSlot))
    {
      hide Index, TtlSlots, TtlExact, Sized, SwapRemove;
      ghost var members := repr;
      Places(e);
      RemoveSlot(e);
      RemoveTtlSlot(e, members);
      Shrink(members, e);
    }

    method Detach(e: Entry)
      requires Indexed() && e in repr
      modifies `entries, `slots, `ttlSlots, `lru, `lruHead, `lruTail, `repr
      modifies repr`slot, repr`ttlSlot, repr`prev, repr`next
      ensures Indexed() && entries == old(entries) - {e.key} && repr == old(repr) - {e}
      ensures e.slot == -1 && slots == SwapRemove(old(slots), old(e.slot))
      ensures ttlSlots == if e.expireAt == 0 then old(ttlSlots) else SwapRemove(old(ttlSlots), old(e.ttlSlot))
      ensures exactLRU ==> lru == Dropped(old(lru), e)
    {
      hide Index, Timed, Ordered, SwapRemove, Dropped;
      ghost var members := repr;
      Places(e);
      Unslot(e);
      Unlink(e, members);
    }

    /** What is left of the LRU list when one entry is dropped from it. */
    lemma DroppedIsKept(e: Entry)
      requires Indexed() && e in repr
      ensures exactLRU ==> Dropped(lru, e) == Kept(lru, {e.key})
      ensures !exactLRU ==> lru == [] == Kept(lru, {e.key})
    {
      if exactLRU {
        LruMember(e);
        KeptAll(lru);
        KeptDrop(lru, {}, e);
        assert {} + {e.key} == {e.key};
      }
    }

    lemma NoList()
      requires Indexed()
      ensures !exactLRU ==> lru == []
    {
    }

    method RemoveEntry(e: Entry)
      requires Valid() && e in repr
      modifies `entries, `slots, `ttlSlots, `lru, `lruHead, `lruTail, `repr, `memBytes
      modifies repr`slot, repr`ttlSlot, repr`prev, repr`next
      ensures Valid() && Contents() == old(Contents()) - {e.key}
      ensures repr == old(repr) - {e} && entries == old(entries) - {e.key}
      ensures e.slot == -1 && slots == SwapRemove(old(slots), old(e.slot))
      ensures ttlSlots == if e.expireAt == 0 then old(ttlSlots) else SwapRemove(old(ttlSlots), old(e.ttlSlot))
      ensures lru == Kept(old(lru), {e.key})
    {
      hide Index, Timed, Ordered, CellsOf, Weight, SwapRemove, Dropped, Kept, Ranked;
      CellOf(e);
      WeightRemove(Contents(), e.key);
      CellsOfRemove(entries, e.key);
      KeptRanked(lru, {e.key}, setAt, sets);
      Places(e);
      DroppedIsKept(e);
      Detach(e);
      NoList();
      memBytes := memBytes - e.size;
    }

    // Writing one cell

    /** Everything said of the members one at a time splits at e. */
    lemma Apart(members: set<Entry>, e: Entry)
      requires e in members
      ensures Sized(members) <==> Sized(members - {e}) && Sized({e})
      ensures TtlExact(members) <==> TtlExact(members - {e}) && TtlExact({e})
    {
      assert members == (members - {e}) + {e};
    }

    ghost predicate Keyed()
      reads `entries
    {
      forall k :: k in entries ==> entries[k].key == k
    }

    method WriteCell(e: Entry, value: Bytes, expireAt: nat, nowMono: nat)
      requires Keyed() && e.key in entries && entries[e.key] == e && Cost(|e.key|, |value|) < U32
      modifies e`value, e`expireAt, e`size, e`lastAccess
      ensures e.value == value && e.expireAt == expireAt && e.lastAccess == nowMono && Sized({e})
      ensures Contents() == old(Contents())[e.key := Cell(value, expireAt)]
    {
      e.value, e.expireAt := value, expireAt;
      e.size, e.lastAccess := Cost(|e.key|, |value|) % U32, nowMono;
    }

    method FixTtl(e: Entry, hadTtl: bool, ghost members: set<Entry>)
      requires e in members && TtlSlots(members) && TtlExact(members - {e}) && hadTtl == (e.ttlSlot != -1)
      modifies `ttlSlots, members`ttlSlot
      ensures TtlSlots(members) && TtlExact(members)
    {
      hide TtlSlots;
      if e.expireAt != 0 && !hadTtl {
        AddTtlSlot(e, members);
      } else if e.expireAt == 0 && hadTtl {
        RemoveTtlSlot(e, members);
      }
      Apart(members, e);
    }

    method Overwrite(e: Entry, value: Bytes, expireAt: nat, nowMono: nat)
      requires Indexed() && e in repr && Cost(|e.key|, |value|) < U32
      modifies `ttlSlots, `lru, `lruHead, `lruTail, repr
      ensures Indexed() && slots == old(slots) && entries == old(entries) && repr == old(repr)
      ensures e.value == value && e.expireAt == expireAt && e.lastAccess == nowMono
      ensures Contents() == old(Contents())[e.key := Cell(value, expireAt)]
      ensures exactLRU ==> lru == [e] + Dropped(old(lru), e)
    {
      hide Index, TtlSlots, TtlExact, Ordered, Sized, CellsOf, Dropped;
      Places(e);
      Apart(repr, e);
      var hadTtl := e.expireAt != 0;
      WriteCell(e, value, expireAt, nowMono);
      FixTtl(e, hadTtl, repr);
      Apart(repr, e);
      if exactLRU {
        LruMoveToFront(e, repr);
      }
    }

    lemma Enter(e: Entry, members: set<Entry>)
      requires Timed(members) && e !in members && e.ttlSlot == -1 && e.size == Cost(|e.key|, |e.value|) < U32
      ensures TtlSlots(members + {e}) && TtlExact(members + {e} - {e}) && Sized(members + {e})
    {
      assert members + {e} - {e} == members;
    }

    method Enroll(e: Entry)
      requires Index() && Timed(repr) && e !in repr && e.key !in entries && e.ttlSlot == -1
      requires e.size == Cost(|e.key|, |e.value|) < U32
      modifies `entries, `slots, `ttlSlots, `repr, e`slot, e`ttlSlot, repr`ttlSlot
      ensures Index() && Timed(repr) && repr == old(repr) + {e}
      ensures slots == old(slots) + [e] && entries == old(entries)[e.key := e]
    {
      hide Index, TtlSlots, TtlExact, Sized;
      ghost var members := repr;
      AddSlot(e);
      Enter(e, members);
      FixTtl(e, false, repr);
    }

    method Link(e: Entry, ghost members: set<Entry>)
      requires Ordered(members) && e !in members
      modifies `lru, `lruHead, `lruTail, e`prev, e`next, members`prev, members`next
      ensures Ordered(members + {e}) && (exactLRU ==> lru == [e] + old(lru))
    {
      if exactLRU {
        LruPushFront(e, members + {e});
      }
    }

    method Insert(e: Entry)
      requires Indexed() && e !in repr && e.key !in entries && e.ttlSlot == -1
      requires e.size == Cost(|e.key|, |e.value|) < U32
      modifies `entries, `slots, `ttlSlots, `lru, `lruHead, `lruTail, `repr
      modifies e`slot, e`ttlSlot, e`prev, e`next, repr`ttlSlot, repr`prev, repr`next
      ensures Indexed() && repr == old(repr) + {e}
      ensures slots == old(slots) + [e] && entries == old(entries)[e.key := e]
      ensures exactLRU ==> lru == [e] + old(lru)
    {
      hide Index, Timed, Ordered;
      ghost var members := repr;
      Enroll(e);
      Link(e, members);
    }

    method InsertNew(key: Bytes, value: Bytes, expireAt: nat, nowMono: nat) returns (e: Entry)
      requires Indexed() && key !in entries && Cost(|key|, |value|) < U32
      modifies `entries, `slots, `ttlSlots, `lru, `lruHead, `lruTail, `repr, repr`ttlSlot, repr`prev, repr`next
      ensures Indexed() && fresh(e) && repr == old(repr) + {e} && e.key == key && slots == old(slots) + [e]
      ensures Contents() == old(Contents())[key := Cell(value, expireAt)]
      ensures exactLRU ==> lru == [e] + old(lru)
    {
      hide Indexed, CellsOf;
      e := new Entry(key, value, expireAt, nowMono);
      CellsOfPut(entries, key, e);
      Insert(e);
    }

    // Eviction

    ghost predicate Evictable(e: Entry, protect: Bytes)
      reads e`expireAt
    {
      e.key != protect && (policy.VolatileLRU? ==> e.expireAt != 0)
    }

    /** Of the entries drawn to choose a victim from, other than the one being written, none has gone
        unused for longer than v. */
    ghost predicate LongestUnused(v: Entry, protect: Bytes, draw: nat -> nat)
      reads this, v, slots, ttlSlots
    {
      var pool := if policy.VolatileLRU? then ttlSlots else slots;
      && v in pool
      && forall i: nat :: i < sampleK && pool[draw(i) % |pool|].key != protect ==>
           v.lastAccess <= pool[draw(i) % |pool|].lastAccess
    }

    /** The true tail of the list, or the least recently used of some random samples. */
    method PickVictim(protect: Bytes, draw: nat -> nat) returns (v: Entry?)
      requires Indexed()
      ensures v == null <==> forall e :: e in repr ==> !Evictable(e, protect)
      ensures v != null ==> v in repr && Evictable(v, protect)
      ensures v != null && exactLRU ==>
        exists at :: 0 <= at < |lru| && lru[at] == v && forall j :: at < j < |lru| ==> !Evictable(lru[j], protect)
      ensures v != null && !exactLRU ==> LongestUnused(v, protect, draw)
    {
      hide Index, Timed, Linked;
      if exactLRU {
        v := PickTail(protect);
      } else {
        PoolHas(protect);
        v := PickSample(if policy.VolatileLRU? then ttlSlots else slots, protect, draw);
      }
    }

    lemma PoolHas(protect: Bytes)
      requires Indexed()
      ensures var pool := if policy.VolatileLRU? then ttlSlots else slots;
              && (forall i :: 0 <= i < |pool| ==> pool[i] in repr)
              && (forall i :: 0 <= i < |pool| ==> (Evictable(pool[i], protect) <==> pool[i].key != protect))
              && (forall e :: e in repr && Evictable(e, protect) ==> e in pool)
    {
    }

    method PickTail(protect: Bytes) returns (v: Entry?)
      requires exactLRU && Ordered(repr)
      ensures v == null <==> forall e :: e in repr ==> !Evictable(e, protect)
      ensures v != null ==> v in repr && Evictable(v, protect)
      ensures v != null ==>
        exists at :: 0 <= at < |lru| && lru[at] == v && forall j :: at < j < |lru| ==> !Evictable(lru[j], protect)
    {
      v := lruTail;
      ghost var i := |lru| - 1;
      while v != null
        invariant -1 <= i < |lru| && v == (if i < 0 then null else lru[i])
        invariant forall j :: i < j < |lru| ==> !Evictable(lru[j], protect)
        decreases i
      {
        if v.key != protect && !(policy.VolatileLRU? && v.expireAt == 0) {
          return;
        }
        assert i > 0 ==> lru[i].prev == lru[i - 1];
        v := v.prev;
        i := i - 1;
      }
    }

    method PickSample(pool: seq<Entry>, protect: Bytes, draw: nat -> nat) returns (v: Entry?)
      ensures v == null <==> forall i :: 0 <= i < |pool| ==> pool[i].key == protect
      ensures v != null ==> v in pool && v.key != protect
      ensures v != null ==> forall i: nat :: i < sampleK && pool[draw(i) % |pool|].key != protect ==>
        v.lastAccess <= pool[draw(i) % |pool|].lastAccess
    {
      v := null;
      if |pool| == 0 {
        return;
      }
      for i := 0 to sampleK
        invariant v != null ==> v in pool && v.key != protect
        invariant forall j: nat :: j < i && pool[draw(j) % |pool|].key != protect ==>
          v != null && v.lastAccess <= pool[draw(j) % |pool|].lastAccess
      {
        var cand := pool[draw(i) % |pool|];
        if cand.key != protect && (v == null || cand.lastAccess < v.lastAccess) {
          v := cand;
        }
      }
      if v == null {
        for i := 0 to |pool|
          invariant forall j :: 0 <= j < i ==> pool[j].key == protect
        {
          if pool[i].key != protect {
            return pool[i];
          }
        }
      }
    }

    /** What eviction may take: stored keys, never the one being written, and only
        keys with a deadline under the volatile policy. */
    ghost predicate Takes(m: map<Bytes, Cell>, gone: set<Bytes>, protect: Bytes) {
      gone <= m.Keys && protect !in gone && (policy.VolatileLRU? ==> forall k :: k in gone ==> m[k].expireAt != 0)
    }

    /** Nothing is left that eviction may take. */
    ghost predicate Spent(m: map<Bytes, Cell>, protect: Bytes) {
      forall k :: k in m && k != protect ==> policy.VolatileLRU? && m[k].expireAt == 0
    }

    /** Whatever may be evicted and was set less recently than an evicted entry is evicted too. */
    ghost predicate LeastRecent(order: seq<Entry>, gone: set<Bytes>, protect: Bytes)
      reads order`expireAt
    {
      forall i, j :: 0 <= i < j < |order| && order[i].key in gone && Evictable(order[j], protect) ==>
        order[j].key in gone
    }

    lemma NextLeastRecent(order: seq<Entry>, gone: set<Bytes>, protect: Bytes, v: Entry, at: nat)
      requires DistinctKeys(order) && LeastRecent(order, gone, protect)
      requires at < |Kept(order, gone)| && Kept(order, gone)[at] == v
      requires forall j :: at < j < |Kept(order, gone)| ==> !Evictable(Kept(order, gone)[j], protect)
      ensures LeastRecent(order, gone + {v.key}, protect)
      ensures Kept(Kept(order, gone), {v.key}) == Kept(order, gone + {v.key})
    {
      KeptTwice(order, gone, {v.key});
      KeptHas(order, gone, v);
      forall i, j | 0 <= i < j < |order| && order[i].key in gone + {v.key} && Evictable(order[j], protect)
        ensures order[j].key in gone + {v.key}
      {
        if order[i].key !in gone && order[j].key !in gone {
          var h :| 0 <= h < |order| && order[h] == v;
          assert h == i;
          var b := KeptBehind(order, gone, i, at, j);
        }
      }
    }

    /** What is evicted from the list was last set before anything that could have been evicted and was not. */
    lemma OldestFirst(gone: set<Bytes>, protect: Bytes, a: Bytes, b: Bytes)
      requires Valid() && exactLRU && LeastRecent(lru, gone, protect)
      requires a in Contents() && a in gone && b in Contents() && b !in gone && b != protect
      requires policy.VolatileLRU? ==> Contents()[b].expireAt != 0
      ensures a in setAt && b in setAt && setAt[a] < setAt[b]
    {
      var i :| 0 <= i < |lru| && lru[i] == entries[a];
      var j :| 0 <= j < |lru| && lru[j] == entries[b];
    }

    lemma NothingLeft(protect: Bytes)
      requires Indexed() && forall e :: e in repr ==> !Evictable(e, protect)
      ensures Spent(Contents(), protect)
    {
    }

    lemma LruKeys()
      requires Indexed()
      ensures DistinctKeys(lru)
    {
      forall i, j | 0 <= i < j < |lru| ensures lru[i].key != lru[j].key {
        assert entries[lru[i].key] == lru[i] && entries[lru[j].key] == lru[j];
      }
    }

    lemma TakesOne(m: map<Bytes, Cell>, gone: set<Bytes>, protect: Bytes, v: Entry)
      requires Takes(m, gone, protect) && Evictable(v, protect)
      requires v.key in m - gone && (m - gone)[v.key].expireAt == v.expireAt
      ensures Takes(m, gone + {v.key}, protect) && m - gone - {v.key} == m - (gone + {v.key})
      ensures |gone + {v.key}| == |gone| + 1
    {
    }

    /** What eviction has done so far, from a shard with contents m, entries es and list order. */
    ghost predicate Evicting(m: map<Bytes, Cell>, es: map<Bytes, Entry>, order: seq<Entry>, gone: set<Bytes>,
                             protect: Bytes)
      reads this, repr, entries.Values, order`expireAt
    {
      && entries == es - gone && Contents() == m - gone && Takes(m, gone, protect)
      && lru == Kept(order, gone) && DistinctKeys(order) && (exactLRU ==> LeastRecent(order, gone, protect))
    }

    lemma OwnEntry(v: Entry)
      requires Indexed() && v in repr
      ensures v.key in entries && entries[v.key] == v
    {
    }

    /** One more victim, if there is any. */
    method EvictOne(protect: Bytes, draw: nat -> nat, ghost m: map<Bytes, Cell>, ghost es: map<Bytes, Entry>,
                    ghost order: seq<Entry>, ghost gone: set<Bytes>)
      returns (found: bool, ghost k: Bytes)
      requires Valid() && Evicting(m, es, order, gone, protect)
      modifies `entries, `slots, `ttlSlots, `lru, `lruHead, `lruTail, `repr, `memBytes
      modifies repr`slot, repr`ttlSlot, repr`prev, repr`next
      ensures Valid() && repr <= old(repr) && Evicting(m, es, order, if found then gone + {k} else gone, protect)
      ensures if found then k !in gone else slots == old(slots) && Spent(Contents(), protect)
      ensures found && !exactLRU ==> k in old(entries) && old(LongestUnused(entries[k], protect, draw))
    {
      hide Indexed, CellsOf, Weight, SwapRemove, Dropped, Kept, Ranked, LeastRecent, DistinctKeys, Takes,
        Evictable, Spent, LongestUnused;
      var v := PickVictim(protect, draw);
      found, k := v != null, protect;
      if v == null {
        NothingLeft(protect);
        return;
      }
      k := v.key;
      CellOf(v);
      OwnEntry(v);
      TakesOne(m, gone, protect, v);
      MinusMinus(es, gone, v.key);
      KeptTwice(order, gone, {v.key});
      if exactLRU {
        ghost var at :| 0 <= at < |lru| && lru[at] == v && forall j :: at < j < |lru| ==> !Evictable(lru[j], protect);
        NextLeastRecent(order, gone, protect, v, at);
      }
      RemoveEntry(v);
    }

    lemma Counted()
      requires Valid()
      ensures memBytes == Weight(Contents())
    {
    }

    /** Evicts until the bytes are down to the target, or enough is gone, or nothing is left to take.
        The victims come in order: before each of them the bytes left were still above the target. */
    method Evict(target: int, protect: Bytes, rng: nat -> nat -> nat)
      returns (n: nat, ghost gone: set<Bytes>, ghost victims: seq<Bytes>)
      requires Valid()
      modifies `entries, `slots, `ttlSlots, `lru, `lruHead, `lruTail, `repr, `memBytes
      modifies repr`slot, repr`ttlSlot, repr`prev, repr`next
      ensures Valid() && repr <= old(repr) && entries == old(entries) - gone && Contents() == old(Contents()) - gone
      ensures Takes(old(Contents()), gone, protect) && |gone| == n <= batchMax
      ensures gone == KeysIn(victims) && |victims| == n
      ensures forall i :: 0 <= i < n ==> Weight(old(Contents()) - KeysIn(victims[..i])) > target
      ensures policy.NoEviction? ==> n == 0
      ensures policy.NoEviction? || memBytes <= target || n == batchMax || Spent(Contents(), protect)
      ensures lru == Kept(old(lru), gone) && (gone == {} ==> slots == old(slots))
      ensures exactLRU ==> old(LeastRecent(lru, gone, protect))
    {
      hide Valid, CellsOf, Kept, LeastRecent, DistinctKeys, Takes, Spent, Evicting, KeysIn, Weight;
      ghost var m, es, order := Contents(), entries, lru;
      n, gone, victims := 0, {}, [];
      NoKeys();
      NoneTaken(protect);
      EvictingMeans(m, es, order, gone, protect);
      if policy.NoEviction? {
        return;
      }
      while memBytes > target && n < batchMax
        invariant Valid() && repr <= old(repr) && Evicting(m, es, order, gone, protect)
        invariant |gone| == n <= batchMax && (gone == {} ==> slots == old(slots))
        invariant gone == KeysIn(victims) && |victims| == n
        invariant forall i :: 0 <= i < n ==> Weight(m - KeysIn(victims[..i])) > target
        decreases batchMax - n
      {
        Counted();
        EvictingMeans(m, es, order, gone, protect);
        var found, k := EvictOne(protect, rng(n), m, es, order, gone);
        if !found {
          break;
        }
        OneMoreKey(victims, k);
        n, gone, victims := n + 1, gone + {k}, victims + [k];
      }
      EvictingMeans(m, es, order, gone, protect);
    }

    lemma EvictingMeans(m: map<Bytes, Cell>, es: map<Bytes, Entry>, order: seq<Entry>, gone: set<Bytes>, protect: Bytes)
      ensures Evicting(m, es, order, gone, protect) <==>
              && entries == es - gone && Contents() == m - gone && Takes(m, gone, protect)
              && lru == Kept(order, gone) && DistinctKeys(order) && (exactLRU ==> LeastRecent(order, gone, protect))
    {
      hide CellsOf, Kept, LeastRecent, DistinctKeys, Takes;
    }

    lemma NoneTaken(protect: Bytes)
      requires Valid()
      ensures Takes(Contents(), {}, protect) && Contents() - {} == Contents() && entries - {} == entries
      ensures Kept(lru, {}) == lru && LeastRecent(lru, {}, protect) && DistinctKeys(lru)
    {
      hide Indexed, Kept, CellsOf, DistinctKeys;
      KeptAll(lru);
      LruKeys();
      MinusNone(Contents());
      MinusNone(entries);
    }

    /** Makes room for a write that adds delta bytes, evicting if the policy allows it. */
    method Admit(delta: int, protect: Bytes, rng: nat -> nat -> nat) returns (ok: bool, ghost gone: set<Bytes>)
      requires Valid()
      modifies `entries, `slots, `ttlSlots, `lru, `lruHead, `lruTail, `repr, `memBytes
      modifies repr`slot, repr`ttlSlot, repr`prev, repr`next
      ensures Valid() && repr <= old(repr) && entries == old(entries) - gone && Contents() == old(Contents()) - gone
      ensures Takes(old(Contents()), gone, protect) && |gone| <= batchMax
      ensures ok <==> budget <= 0 || memBytes + delta <= budget
      ensures policy.NoEviction? || budget <= 0 || delta <= 0 || old(memBytes) + delta <= budget ==> gone == {}
      ensures !ok && policy.AllKeysLRU? && lowWater <= budget ==> |gone| == batchMax || Contents().Keys <= {protect}
      ensures var target := if lowWater - delta < 0 then 0 else lowWater - delta;
              && (gone != {} ==> exists k :: k in gone && Weight(old(Contents()) - (gone - {k})) > target)
              && (!policy.NoEviction? && delta > 0 && 0 < budget < old(memBytes) + delta ==>
                    memBytes <= target || |gone| == batchMax || Spent(Contents(), protect))
      ensures lru == Kept(old(lru), gone) && (gone == {} ==> slots == old(slots))
      ensures exactLRU ==> old(LeastRecent(lru, gone, protect))
    {
      hide Indexed, CellsOf, Weight, Kept, Ranked, LeastRecent, DistinctKeys, Takes, Evictable, KeysIn;
      gone := {};
      NoneTaken(protect);
      if budget <= 0 || delta <= 0 {
        return true, gone;
      }
      if memBytes + delta <= budget {
        return true, gone;
      }
      if policy.NoEviction? {
        return false, gone;
      }
      var target := if lowWater - delta < 0 then 0 else lowWater - delta;
      var n;
      ghost var victims;
      n, gone, victims := Evict(target, protect, rng);
      if victims != [] {
        LastKey(victims);
      }
      ok := memBytes + delta <= budget;
      WeightNone(Contents());
    }

    /** The bytes eviction leaves for a write of cell under key: the low-water mark less what it adds. */
    ghost function Target(m: map<Bytes, Cell>, key: Bytes, cell: Cell): (r: nat) {
      var t := lowWater - (Weight(m[key := cell]) - Weight(m));
      if t < 0 then 0 else t
    }

    /** Which keys a write of key may evict, and when it goes in: what is evicted the policy allows,
        nothing is evicted if the write fits as it is, otherwise eviction goes on just until the target
        is met, and the write goes in if and only if it fits afterwards. */
    ghost predicate Admitted(m: map<Bytes, Cell>, key: Bytes, cell: Cell, ok: bool, gone: set<Bytes>) {
      && Takes(m, gone, key) && |gone| <= batchMax
      && (ok <==> budget <= 0 || Weight((m - gone)[key := cell]) <= budget)
      && (policy.NoEviction? || budget <= 0 || Weight(m[key := cell]) <= budget ==> gone == {})
      && (gone != {} ==> exists k :: k in gone && Weight(m - (gone - {k})) > Target(m, key, cell))
      && (!policy.NoEviction? && 0 < budget < Weight(m[key := cell]) ==>
            Weight(m - gone) <= Target(m, key, cell) || |gone| == batchMax || Spent(m - gone, key))
      && (!ok && policy.AllKeysLRU? && lowWater <= budget ==> |gone| == batchMax || Cost(|key|, |cell.value|) > budget)
    }

    lemma WeightShift(m: map<Bytes, Cell>, gone: set<Bytes>, key: Bytes, cell: Cell)
      requires key !in gone
      ensures Weight((m - gone)[key := cell]) - Weight(m - gone) == Weight(m[key := cell]) - Weight(m)
    {
      hide Weight;
      MinusAll(m, key);
      MinusAll(m - gone, key);
      WeightPut(m, key, cell);
      WeightPut(m - gone, key, cell);
      if key in m {
        WeightRemove(m, key);
        WeightRemove(m - gone, key);
      }
    }

    lemma WeightAlone(m: map<Bytes, Cell>, key: Bytes, cell: Cell)
      requires m.Keys <= {key}
      ensures Weight(m[key := cell]) == Cost(|key|, |cell.value|)
    {
      WeightOnly(m, key);
    }

    /** Makes room for cell under key, which would add delta bytes. */
    method Fit(key: Bytes, ghost cell: Cell, delta: int, rng: nat -> nat -> nat)
      returns (ok: bool, ghost gone: set<Bytes>)
      requires Valid() && delta == Weight(Contents()[key := cell]) - Weight(Contents())
      modifies `entries, `slots, `ttlSlots, `lru, `lruHead, `lruTail, `repr, `memBytes
      modifies repr`slot, repr`ttlSlot, repr`prev, repr`next
      ensures Valid() && repr <= old(repr) && entries == old(entries) - gone && Contents() == old(Contents()) - gone
      ensures Admitted(old(Contents()), key, cell, ok, gone) && memBytes + delta == Weight(Contents()[key := cell])
      ensures key !in gone && (ok ==> budget <= 0 || memBytes + delta <= budget)
      ensures lru == Kept(old(lru), gone) && (gone == {} ==> slots == old(slots))
      ensures exactLRU ==> old(LeastRecent(lru, gone, key))
    {
      hide Indexed, CellsOf, Weight, Kept, Ranked, LeastRecent, DistinctKeys, Evictable;
      ok, gone := Admit(delta, key, rng);
      WeightShift(old(Contents()), gone, key, cell);
      if Contents().Keys <= {key} {
        WeightAlone(Contents(), key, cell);
      }
    }

    /** What a write of key does to the whole shard: the keys in `gone` are evicted, then the
        write goes in if and only if the result fits the budget. */
    twostate predicate Written(key: Bytes, cell: Cell, ok: bool, gone: set<Bytes>)
      reads this, repr, entries.Values
    {
      && Admitted(old(Contents()), key, cell, ok, gone)
      && Contents() == (if ok then (old(Contents()) - gone)[key := cell] else old(Contents()) - gone)
      && (exactLRU ==> old(LeastRecent(lru, gone, key)))
      && (exactLRU && ok ==> |lru| > 0 && lru[0].key == key && lru[1..] == Kept(old(lru), gone + {key}))
      && (!ok ==> lru == Kept(old(lru), gone))
      && (gone == {} ==> old(slots) <= slots)
      && sets == (if ok then old(sets) + 1 else old(sets))
      && setAt == (if ok then old(setAt)[key := sets] else old(setAt))
    }

    /** Inserts or overwrites; refuses what the memory policy does not let in. */
    method Set(key: Bytes, value: Bytes, expireAt: nat, nowMono: nat, rng: nat -> nat -> nat)
      returns (ok: bool, ghost gone: set<Bytes>)
      requires Valid() && Cost(|key|, |value|) < U32
      modifies this, repr
      ensures Valid() && (forall e :: e in repr ==> e in old(repr) || fresh(e))
      ensures Written(key, Cell(value, expireAt), ok, gone)
    {
      hide Valid, Written;
      if key in entries {
        ok, gone := Replace(key, value, expireAt, nowMono, rng);
      } else {
        ok, gone := Add(key, value, expireAt, nowMono, rng);
      }
    }

    lemma NewInFront(order: seq<Entry>, gone: set<Bytes>, e: Entry)
      requires forall i :: 0 <= i < |order| ==> order[i].key != e.key
      ensures ([e] + Kept(order, gone))[1..] == Kept(order, gone + {e.key})
    {
      KeptNone(order, gone, e.key);
    }

    lemma OldInFront(order: seq<Entry>, gone: set<Bytes>, e: Entry)
      requires DistinctKeys(order) && e in order && e.key !in gone
      ensures ([e] + Dropped(Kept(order, gone), e))[1..] == Kept(order, gone + {e.key})
    {
      KeptHas(order, gone, e);
      KeptDrop(order, gone, e);
    }

    /** The set of key is the latest: the list with it in front is in order again. */
    ghost method Stamp(key: Bytes, before: seq<Entry>, gone: set<Bytes>)
      requires Indexed() && Ranked(before, setAt, sets)
      requires exactLRU ==> |lru| > 0 && lru[0].key == key && lru[1..] == Kept(before, gone + {key})
      modifies `sets, `setAt
      ensures sets == old(sets) + 1 && setAt == old(setAt)[key := sets] && Ranked(lru, setAt, sets)
    {
      hide Indexed, Kept, Ranked;
      NoList();
      if exactLRU {
        KeptRanked(before, gone + {key}, setAt, sets);
        KeptWithout(before, gone + {key}, key);
        FrontRanked(lru[0], lru[1..], setAt, sets);
        assert lru == [lru[0]] + lru[1..];
      } else {
        NoneRanked(setAt[key := sets + 1], sets + 1);
      }
      sets, setAt := sets + 1, setAt[key := sets + 1];
    }

    lemma LruStranger(key: Bytes)
      requires Indexed() && key !in entries
      ensures forall i :: 0 <= i < |lru| ==> lru[i].key != key
    {
    }

    lemma LruMember(e: Entry)
      requires Indexed() && e in repr
      ensures DistinctKeys(lru) && (exactLRU ==> e in lru)
    {
      LruKeys();
    }

    /** Inserts a new entry as the latest set. */
    method AddInFront(key: Bytes, value: Bytes, expireAt: nat, nowMono: nat, ghost before: seq<Entry>,
                      ghost gone: set<Bytes>)
      requires Indexed() && key !in entries && Cost(|key|, |value|) < U32 && lru == Kept(before, gone)
      requires Ranked(before, setAt, sets) && forall i :: 0 <= i < |before| ==> before[i].key != key
      modifies `entries, `slots, `ttlSlots, `lru, `lruHead, `lruTail, `repr, repr`ttlSlot, repr`prev, repr`next
      modifies `sets, `setAt
      ensures Indexed() && (forall e :: e in repr ==> e in old(repr) || fresh(e)) && old(slots) <= slots
      ensures Contents() == old(Contents())[key := Cell(value, expireAt)]
      ensures exactLRU ==> |lru| > 0 && lru[0].key == key && lru[1..] == Kept(before, gone + {key})
      ensures sets == old(sets) + 1 && setAt == old(setAt)[key := sets] && Ranked(lru, setAt, sets)
    {
      hide Indexed, CellsOf, Kept, Ranked;
      var e := InsertNew(key, value, expireAt, nowMono);
      NewInFront(before, gone, e);
      Stamp(key, before, gone);
    }

    /** Overwrites an entry as the latest set. */
    method PutInFront(e: Entry, value: Bytes, expireAt: nat, nowMono: nat, ghost before: seq<Entry>,
                      ghost gone: set<Bytes>)
      requires Indexed() && e in repr && Cost(|e.key|, |value|) < U32 && lru == Kept(before, gone)
      requires Ranked(before, setAt, sets) && DistinctKeys(before) && e.key !in gone && (exactLRU ==> e in before)
      modifies `ttlSlots, `lru, `lruHead, `lruTail, `sets, `setAt, repr
      ensures Indexed() && slots == old(slots) && repr == old(repr)
      ensures Contents() == old(Contents())[e.key := Cell(value, expireAt)]
      ensures exactLRU ==> |lru| > 0 && lru[0].key == e.key && lru[1..] == Kept(before, gone + {e.key})
      ensures sets == old(sets) + 1 && setAt == old(setAt)[e.key := sets] && Ranked(lru, setAt, sets)
    {
      hide Indexed, CellsOf, Kept, Ranked, Dropped, DistinctKeys;
      if exactLRU {
        OldInFront(before, gone, e);
      }
      Overwrite(e, value, expireAt, nowMono);
      Stamp(e.key, before, gone);
    }

    method Add(key: Bytes, value: Bytes, expireAt: nat, nowMono: nat, rng: nat -> nat -> nat)
      returns (ok: bool, ghost gone: set<Bytes>)
      requires Valid() && Cost(|key|, |value|) < U32 && key !in entries
      modifies this, repr
      ensures Valid() && (forall e :: e in repr ==> e in old(repr) || fresh(e))
      ensures Written(key, Cell(value, expireAt), ok, gone)
    {
      hide Indexed, CellsOf, Weight, Kept, Ranked, Dropped, LeastRecent, Admitted;
      var cost := Cost(|key|, |value|);
      LruStranger(key);
      Lookup(key);
      MinusAll(Contents(), key);
      WeightPut(Contents(), key, Cell(value, expireAt));
      ok, gone := Fit(key, Cell(value, expireAt), cost, rng);
      Lookup(key);
      if ok {
        AddInFront(key, value, expireAt, nowMono, old(lru), gone);
        memBytes := memBytes + cost;
      }
    }

    method Replace(key: Bytes, value: Bytes, expireAt: nat, nowMono: nat, rng: nat -> nat -> nat)
      returns (ok: bool, ghost gone: set<Bytes>)
      requires Valid() && Cost(|key|, |value|) < U32 && key in entries
      modifies this, repr
      ensures Valid() && (forall e :: e in repr ==> e in old(repr) || fresh(e))
      ensures Written(key, Cell(value, expireAt), ok, gone)
    {
      hide Indexed, CellsOf, Weight, Kept, Ranked, Dropped, LeastRecent, Admitted, DistinctKeys, Cost;
      Lookup(key);
      var e := entries[key];
      CellOf(e);
      SizeOf(e);
      LruMember(e);
      var delta := Cost(|key|, |value|) - e.size;
      WeightRemove(Contents(), key);
      WeightPut(Contents(), key, Cell(value, expireAt));
      ok, gone := Fit(key, Cell(value, expireAt), delta, rng);
      assert entries[key] == e;
      Lookup(key);
      CellOf(e);
      if ok {
        PutInFront(e, value, expireAt, nowMono, old(lru), gone);
        memBytes := memBytes + delta;
      }
    }

    // Reads, deletes, deadlines

    /** The keys in `gone` left the LRU list and nothing else happened to its order. */
    twostate predicate Thinned(gone: set<Bytes>)
      reads `lru, `sets, `setAt
    {
      lru == Kept(old(lru), gone) && sets == old(sets) && setAt == old(setAt)
    }

    /** A read: an expired entry is a miss, and is left for a separate write-locked reap. */
    method Get(key: Bytes, nowMs: nat, nowMono: nat) returns (e: Entry?, ok: bool, needsReap: bool)
      requires Valid()
      modifies repr`lastAccess
      ensures Valid() && Contents() == old(Contents())
      ensures ok <==> key in Contents() && !Contents()[key].Expired(nowMs)
      ensures needsReap <==> key in Contents() && Contents()[key].Expired(nowMs)
      ensures ok ==> e != null && e in repr && Contents()[key] == Cell(e.value, e.expireAt) && e.lastAccess == nowMono
    {
      hide Index, Timed, Ordered, CellsOf, Weight;
      Lookup(key);
      if key !in entries {
        return null, false, false;
      }
      e := entries[key];
      CellOf(e);
      if e.Expired(nowMs) {
        return null, false, true;
      }
      e.lastAccess := nowMono;
      return e, true, false;
    }

    method Delete(key: Bytes) returns (ok: bool)
      requires Valid()
      modifies this, repr
      ensures Valid() && repr <= old(repr)
      ensures ok == (key in old(Contents())) && Contents() == old(Contents()) - {key}
      ensures Thinned({key})
    {
      hide Indexed, CellsOf, Weight, SwapRemove, Dropped, Kept, Ranked;
      Lookup(key);
      KeptStranger(key);
      MinusAll(Contents(), key);
      ok := key in entries;
      if ok {
        RemoveEntry(entries[key]);
      }
    }

    lemma KeptStranger(key: Bytes)
      requires Indexed()
      ensures key !in entries ==> Kept(lru, {key}) == lru
    {
      if key !in entries {
        LruStranger(key);
        KeptNone(lru, {}, key);
        KeptAll(lru);
        assert {} + {key} == {key};
      }
    }

    method WriteDeadline(e: Entry, expireAt: nat)
      requires Keyed() && e.key in entries && entries[e.key] == e
      modifies e`expireAt
      ensures e.expireAt == expireAt && Contents() == old(Contents())[e.key := Cell(e.value, expireAt)]
    {
      e.expireAt := expireAt;
    }

    method ChangeDeadline(e: Entry, expireAt: nat)
      requires Indexed() && e in repr
      modifies `ttlSlots, e`expireAt, repr`ttlSlot
      ensures Indexed() && Contents() == old(Contents())[e.key := Cell(e.value, expireAt)]
    {
      hide Index, TtlSlots, TtlExact, Ordered, Sized, CellsOf;
      Places(e);
      var hadTtl := e.expireAt != 0;
      WriteDeadline(e, expireAt);
      FixTtl(e, hadTtl, repr);
    }

    /** Sets a new absolute deadline on an existing key, expired or not. */
    method Expire(key: Bytes, expireAt: nat) returns (ok: bool)
      requires Valid()
      modifies this, repr
      ensures Valid() && repr == old(repr) && ok == (key in old(Contents()))
      ensures Contents() ==
        if ok then old(Contents())[key := Cell(old(Contents())[key].value, expireAt)] else old(Contents())
      ensures lru == old(lru) && slots == old(slots) && sets == old(sets) && setAt == old(setAt)
    {
      hide Indexed, CellsOf, Weight, Ranked;
      Lookup(key);
      ok := key in entries;
      if ok {
        var e := entries[key];
        CellOf(e);
        WeightRemove(Contents(), key);
        WeightPut(Contents(), key, Cell(e.value, expireAt));
        ChangeDeadline(e, expireAt);
      }
    }

    /** Removes one key if, and only if, it is still there and expired. */
    method Reap(key: Bytes, nowMs: nat) returns (ok: bool)
      requires Valid()
      modifies this, repr
      ensures Valid() && repr <= old(repr) && ok == (key in old(Contents()) && old(Contents())[key].Expired(nowMs))
      ensures Contents() == if ok then old(Contents()) - {key} else old(Contents())
      ensures Thinned(if ok then {key} else {})
    {
      hide Indexed, CellsOf, Weight, SwapRemove, Dropped, Kept, Ranked;
      Lookup(key);
      KeptAll(lru);
      if key !in entries {
        return false;
      }
      var e := entries[key];
      CellOf(e);
      ok := e.Expired(nowMs);
      if ok {
        RemoveEntry(e);
      }
    }

    method Flush()
      modifies this
      ensures Valid() && Contents() == map[] && lru == []
    {
      entries, slots, ttlSlots, lru, repr, memBytes := map[], [], [], [], {}, 0;
      lruHead, lruTail := null, null;
    }
  }
}
