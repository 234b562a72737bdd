/** The wheel driving the store: timers that come due reclaim the keys they were made for. */
module WheelExpirer {
  import opened Bytes
  import opened Shards
  import opened Expiry
  import opened Stores
  import opened Wheel

  /** A scheduled timer whose tick has come and whose key still has the timer's deadline, now past. */
  ghost predicate Strikes(due: map<Timer, nat>, view: map<Bytes, Cell>, t: Timer, tick: nat, nowMs: nat) {
    t in due && due[t] <= tick && Hits(view, (t.key, t.expireAt), nowMs)
  }

  function Named(ts: seq<Timer>): (r: seq<(Bytes, nat)>)
    ensures |r| == |ts| && forall i :: 0 <= i < |ts| ==> r[i] == (ts[i].key, ts[i].expireAt)
  {
    seq(|ts|, i requires 0 <= i < |ts| => (ts[i].key, ts[i].expireAt))
  }

  /** Advances the wheel and reclaims what is due. Removed are exactly the keys some timer strikes;
      a timer that came out is not scheduled any more, whether it struck or not. */
  method RunOnce(w: Wheel, st: Store, nowMs: nat) returns (n: nat, ghost gone: set<Bytes>)
    requires w.Valid() && st.Valid()
    modifies w, w.levels, st, st.shards, st.Entries()
    ensures w.Valid() && st.Valid() && st.Entries() <= old(st.Entries())
    ensures w.nowTick == if w.clock.TickFor(nowMs) > old(w.nowTick) then w.clock.TickFor(nowMs) else old(w.nowTick)
    ensures w.due == Later(old(w.due), w.nowTick) + Joining(w.clock, old(w.overflow), w.nowTick)
    ensures w.overflow == Far(w.clock, old(w.overflow), w.nowTick)
    ensures st.view == old(st.view) - gone && n == |gone|
    ensures forall t: Timer :: Strikes(old(w.due), old(st.view), t, w.nowTick, nowMs) ==> t.key in gone
    ensures forall k :: k in gone ==>
      exists t: Timer :: t.key == k && Strikes(old(w.due), old(st.view), t, w.nowTick, nowMs)
  {
    hide Store.Valid, Joining, Far, Later, Wheel.Valid, Exactly, Hits;
    assert forall s :: s in st.shards ==> s as object != w && s as object != w.levels;
    assert forall e :: e in st.Entries() ==> e as object != w && e as object != w.levels;
    ghost var due0, view0 := w.due, st.view;
    var fired := w.Advance(nowMs);
    n, gone := st.RunOnce(Named(fired), nowMs);
    StruckAre(due0, view0, fired, gone, w.nowTick, nowMs);
  }

  lemma StruckAre(due: map<Timer, nat>, view: map<Bytes, Cell>, fired: seq<Timer>, gone: set<Bytes>, tick: nat,
                  nowMs: nat)
    requires Exactly(due, fired, tick) && gone <= Dead(view, nowMs)
    requires forall k :: k in gone ==> exists i :: 0 <= i < |fired| && Named(fired)[i] == (k, view[k].expireAt)
    requires forall i :: 0 <= i < |fired| && Hits(view, Named(fired)[i], nowMs) ==> Named(fired)[i].0 in gone
    ensures forall t: Timer :: Strikes(due, view, t, tick, nowMs) ==> t.key in gone
    ensures forall k :: k in gone ==> exists t: Timer :: t.key == k && Strikes(due, view, t, tick, nowMs)
  {
    forall t: Timer | Strikes(due, view, t, tick, nowMs) ensures t.key in gone {
      var i :| 0 <= i < |fired| && fired[i] == t;
      assert Named(fired)[i] == (t.key, t.expireAt);
    }
    forall k | k in gone ensures exists t: Timer :: t.key == k && Strikes(due, view, t, tick, nowMs) {
      var i :| 0 <= i < |fired| && Named(fired)[i] == (k, view[k].expireAt);
      assert fired[i].key == k && Strikes(due, view, fired[i], tick, nowMs);
    }
  }

  // A key and its timers

  /** A timer for the key's present deadline. */
  predicate For(t: Timer, k: Bytes, c: Cell) {
    t.key == k && t.expireAt == c.expireAt
  }

  /** The scheduled timers for the key's present deadline. */
  ghost function TimersOf(due: map<Timer, nat>, k: Bytes, c: Cell): (r: map<Timer, nat>) {
    map t | t in due && For(t, k, c) :: due[t]
  }

  ghost predicate NoneWaits(overflow: seq<Timer>, k: Bytes, c: Cell) {
    forall t | t in overflow :: !For(t, k, c)
  }

  /** The first reading by which the wheel has got to tick fire. */
  ghost predicate First(clock: Clock, times: seq<nat>, i: int, fire: nat) {
    0 <= i < |times| && clock.TickFor(times[i]) >= fire && forall j :: 0 <= j < i ==> clock.TickFor(times[j]) < fire
  }

  /** By the first i readings one of the timers has come out at or past the deadline. */
  ghost predicate Struck(mine: map<Timer, nat>, clock: Clock, times: seq<nat>, i: nat, deadline: nat) {
    exists t, j :: t in mine && j < i && First(clock, times, j, mine[t]) && times[j] >= deadline
  }

  ghost predicate NotYet(clock: Clock, times: seq<nat>, i: nat, fire: nat)
    requires i <= |times|
  {
    forall j :: 0 <= j < i ==> clock.TickFor(times[j]) < fire
  }

  ghost function Pending(mine: map<Timer, nat>, clock: Clock, times: seq<nat>, i: nat): (r: map<Timer, nat>)
    requires i <= |times|
  {
    map t | t in mine && NotYet(clock, times, i, mine[t]) :: mine[t]
  }

  /** After i readings: the timers still scheduled are those whose tick has not come, and the key is
      gone exactly if one of the others came out late enough. */
  ghost predicate Watched(due: map<Timer, nat>, overflow: seq<Timer>, view: map<Bytes, Cell>, mine: map<Timer, nat>,
                          k: Bytes, c: Cell, clock: Clock, times: seq<nat>, i: nat)
    requires i <= |times|
  {
    && NoneWaits(overflow, k, c)
    && TimersOf(due, k, c) == Pending(mine, clock, times, i)
    && (k in view ==> view[k] == c)
    && (k !in view <==> Struck(mine, clock, times, i, c.expireAt))
  }

  lemma TimersNext(due: map<Timer, nat>, overflow: seq<Timer>, k: Bytes, c: Cell, clock: Clock, tick: nat)
    requires NoneWaits(overflow, k, c)
    ensures NoneWaits(Far(clock, overflow, tick), k, c)
    ensures TimersOf(Later(due, tick) + Joining(clock, overflow, tick), k, c) == Later(TimersOf(due, k, c), tick)
  {
  }

  lemma LaterNotYet(mine: map<Timer, nat>, clock: Clock, times: seq<nat>, i: nat, before: nat, tick: nat)
    requires i < |times| && tick == if clock.TickFor(times[i]) > before then clock.TickFor(times[i]) else before
    requires forall t | t in mine && NotYet(clock, times, i, mine[t]) :: mine[t] > before
    ensures Later(Pending(mine, clock, times, i), tick) ==
            Pending(mine, clock, times, i + 1)
  {
  }

  /** What reading i changes: the key goes if a timer that is still scheduled comes out now, late enough. */
  lemma StruckNext(mine: map<Timer, nat>, clock: Clock, times: seq<nat>, i: nat, deadline: nat)
    requires i < |times|
    ensures Struck(mine, clock, times, i + 1, deadline) <==>
            || Struck(mine, clock, times, i, deadline)
            || exists t :: t in mine && First(clock, times, i, mine[t]) && times[i] >= deadline
  {
    if t, j :| t in mine && j < i + 1 && First(clock, times, j, mine[t]) && times[j] >= deadline {
      assert j < i || j == i;
    }
    if t :| t in mine && First(clock, times, i, mine[t]) && times[i] >= deadline {
      assert i < i + 1;
    }
  }

  lemma GoneNow(due: map<Timer, nat>, view: map<Bytes, Cell>, gone: set<Bytes>, mine: map<Timer, nat>, k: Bytes,
                c: Cell, clock: Clock, times: seq<nat>, i: nat, before: nat, tick: nat)
    requires i < |times| && c.expireAt != 0 && k in view && view[k] == c
    requires TimersOf(due, k, c) == Pending(mine, clock, times, i)
    requires tick == if clock.TickFor(times[i]) > before then clock.TickFor(times[i]) else before
    requires forall t | t in due :: due[t] > before
    requires forall t: Timer :: Strikes(due, view, t, tick, times[i]) ==> t.key in gone
    requires forall k :: k in gone ==> exists t: Timer :: t.key == k && Strikes(due, view, t, tick, times[i])
    ensures k in gone <==> exists t :: t in mine && First(clock, times, i, mine[t]) && times[i] >= c.expireAt
  {
    if k in gone {
      var t: Timer :| t.key == k && Strikes(due, view, t, tick, times[i]);
      assert t in TimersOf(due, k, c);
      assert First(clock, times, i, mine[t]);
    }
    if t :| t in mine && First(clock, times, i, mine[t]) && times[i] >= c.expireAt {
      assert NotYet(clock, times, i, mine[t]);
      assert t in TimersOf(due, k, c);
      assert Strikes(due, view, t, tick, times[i]);
    }
  }

  lemma WatchedNext(due: map<Timer, nat>, overflow: seq<Timer>, view: map<Bytes, Cell>, gone: set<Bytes>,
                    mine: map<Timer, nat>, k: Bytes, c: Cell, clock: Clock, times: seq<nat>, i: nat, before: nat,
                    tick: nat)
    requires i < |times| && c.expireAt != 0 && Watched(due, overflow, view, mine, k, c, clock, times, i)
    requires tick == if clock.TickFor(times[i]) > before then clock.TickFor(times[i]) else before
    requires forall t | t in due :: due[t] > before
    requires forall t: Timer :: Strikes(due, view, t, tick, times[i]) ==> t.key in gone
    requires forall k :: k in gone ==> exists t: Timer :: t.key == k && Strikes(due, view, t, tick, times[i])
    ensures Watched(Later(due, tick) + Joining(clock, overflow, tick), Far(clock, overflow, tick), view - gone,
                    mine, k, c, clock, times, i + 1)
  {
    hide NoneWaits, TimersOf, Pending, NotYet, First, Struck, Strikes, Later, Joining, Far;
    TimersNext(due, overflow, k, c, clock, tick);
    StillAhead(due, mine, k, c, clock, times, i, before);
    LaterNotYet(mine, clock, times, i, before, tick);
    StruckNext(mine, clock, times, i, c.expireAt);
    if k in view {
      GoneNow(due, view, gone, mine, k, c, clock, times, i, before, tick);
    }
  }

  lemma StillAhead(due: map<Timer, nat>, mine: map<Timer, nat>, k: Bytes, c: Cell, clock: Clock, times: seq<nat>,
                   i: nat, before: nat)
    requires i < |times| && (forall t | t in due :: due[t] > before)
    requires TimersOf(due, k, c) == Pending(mine, clock, times, i)
    ensures forall t | t in mine && NotYet(clock, times, i, mine[t]) :: mine[t] > before
  {
    forall t | t in mine && NotYet(clock, times, i, mine[t]) ensures mine[t] > before {
      assert t in TimersOf(due, k, c);
    }
  }

  lemma WatchedFirst(due: map<Timer, nat>, overflow: seq<Timer>, view: map<Bytes, Cell>, k: Bytes, c: Cell,
                     clock: Clock, times: seq<nat>)
    requires NoneWaits(overflow, k, c) && k in view && view[k] == c
    ensures Watched(due, overflow, view, TimersOf(due, k, c), k, c, clock, times, 0)
  {
  }

  lemma ToCome(w: Wheel)
    requires w.Valid()
    ensures forall t :: t in w.due ==> w.due[t] > w.nowTick
  {
    hide StoredIn, Wheel.Buckets, Distinct, Conserved, OnTime;
    forall t | t in w.due ensures w.due[t] > w.nowTick {
      var at := w.place[t];
      assert TimerOnTime(w.clock, t, at, w.due[t], w.nowTick, LEVELS - 1, false);
      StillToCome(at.0, at.1, w.clock.TickFor(t.expireAt), w.due[t], w.nowTick);
    }
  }

  /** A scheduled timer is within reach, so none for the same deadline waits for the wheel to turn. */
  lemma NoneWaiting(w: Wheel, t: Timer, c: Cell)
    requires w.Valid() && t in w.due && t.expireAt == c.expireAt
    ensures NoneWaits(w.overflow, t.key, c)
  {
    hide Wheel.Partial, Conserved;
  }

  /** The expirer's ticker, with the store otherwise left alone: a key with a scheduled timer for its
      deadline is removed by the wheel if and only if, for one of its timers, the first reading that
      brings the timer out is at or past the deadline. Timers that come out early leave the key for
      good. */
  method RunMany(w: Wheel, st: Store, times: seq<nat>, ghost t: Timer)
    requires w.Valid() && st.Valid() && t in w.due
    requires t.key in st.view && st.view[t.key].expireAt == t.expireAt != 0
    modifies w, w.levels, st, st.shards, st.Entries()
    ensures w.Valid() && st.Valid()
    ensures t.key !in st.view <==>
            Struck(TimersOf(old(w.due), t.key, old(st.view[t.key])), w.clock, times, |times|, t.expireAt)
  {
    hide Store.Valid, Joining, Far, Later, Wheel.Valid, Strikes, Watched, NoneWaits, TimersOf, Struck;
    ghost var c, mine, all := st.view[t.key], TimersOf(w.due, t.key, st.view[t.key]), st.Entries();
    NoneWaiting(w, t, c);
    WatchedFirst(w.due, w.overflow, st.view, t.key, c, w.clock, times);
    for i := 0 to |times|
      invariant w.Valid() && st.Valid() && st.Entries() <= all
      invariant Watched(w.due, w.overflow, st.view, mine, t.key, c, w.clock, times, i)
    {
      ghost var due0, overflow0, view0, tick0 := w.due, w.overflow, st.view, w.nowTick;
      ToCome(w);
      ghost var gone;
      var n;
      n, gone := RunOnce(w, st, times[i]);
      WatchedNext(due0, overflow0, view0, gone, mine, t.key, c, w.clock, times, i, tick0, w.nowTick);
    }
    WatchedLast(w.due, w.overflow, st.view, mine, t.key, c, w.clock, times);
  }

  lemma WatchedLast(due: map<Timer, nat>, overflow: seq<Timer>, view: map<Bytes, Cell>, mine: map<Timer, nat>,
                    k: Bytes, c: Cell, clock: Clock, times: seq<nat>)
    requires Watched(due, overflow, view, mine, k, c, clock, times, |times|)
    ensures k !in view <==> Struck(mine, clock, times, |times|, c.expireAt)
  {
  }

  /** With ticks of 10 ms a timer for 15 ms comes out at 10: whatever readings follow, the first that
      brings it out is not at or past the deadline, so the wheel never removes the key. */
  lemma EarlyTimer(later: seq<nat>)
    ensures var c := Clock(10, 0);
            && FireTick(0, c.TickFor(15)) == 1 && First(c, [10] + later, 0, 1)
            && !exists i :: First(c, [10] + later, i, 1) && ([10] + later)[i] >= 15
  {
    var c, times := Clock(10, 0), [10] + later;
    assert times[0] == 10 && c.TickFor(times[0]) == 1;
  }
}
