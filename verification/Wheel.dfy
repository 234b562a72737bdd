/** The hierarchical timing wheel (internal/store/wheel.go). The five levels of 256
    buckets refine a plain map from pending timers to the tick each will fire at. */
module Wheel {
  import opened Bytes

  const SLOTS: nat := 256
  const LEVELS: nat := 5

  /** Ticks one bucket of a level spans; the fifth is the wheel's whole reach. */
  function Unit(level: nat): (u: nat)
    requires level <= LEVELS
    ensures u > 0
  {
    if level == 0 then 1
    else if level == 1 then 0x100
    else if level == 2 then 0x1_0000
    else if level == 3 then 0x100_0000
    else if level == 4 then 0x1_0000_0000
    else 0x100_0000_0000
  }

  const REACH: nat := 0x100_0000_0000

  class Timer {
    const key: Bytes
    const expireAt: nat

    constructor (key: Bytes, expireAt: nat)
      ensures this.key == key && this.expireAt == expireAt
    {
      this.key := key;
      this.expireAt := expireAt;
    }
  }

  /** When a timer added at tick now for tick target is returned: at its target; one
      tick later if it has to come down from a higher level exactly at its target;
      at the next tick if it is already due. */
  function FireTick(now: nat, target: nat): (r: nat) {
    if target <= now then now + 1
    else if target - now >= SLOTS && target % SLOTS == 0 then target + 1
    else target
  }

  /** The wheel floors deadlines to ticks: a timer may come out before its deadline,
      but by less than one tick, and not at all if the deadline is on a tick. */
  lemma NeverATickEarly(c: Clock, expireAt: nat, nowMs: nat, addTick: nat)
    requires c.tickMs > 0 && c.TickFor(nowMs) >= FireTick(addTick, c.TickFor(expireAt))
    ensures nowMs + c.tickMs > expireAt
    ensures expireAt >= c.epochMs && (expireAt - c.epochMs) % c.tickMs == 0 ==> nowMs >= expireAt
  {
    if expireAt > c.epochMs {
      var d, n := expireAt - c.epochMs, nowMs - c.epochMs;
      assert n / c.tickMs >= d / c.tickMs;
      assert d == d / c.tickMs * c.tickMs + d % c.tickMs && n == n / c.tickMs * c.tickMs + n % c.tickMs;
      MulCancel(d / c.tickMs, n / c.tickMs, c.tickMs);
    }
  }

  /** The tick a timer comes out at: never before its target nor at once, and at most one tick after both,
      but at its target if that is near or not on a turn of the lowest level. */
  lemma FiresInTime(now: nat, target: nat)
    ensures var fire := FireTick(now, target);
            && fire > now && fire >= target && (fire <= now + 1 || fire <= target + 1)
            && (target <= now ==> fire == now + 1)
            && (now < target < now + 256 || (now < target && target % 256 != 0) ==> fire == target)
  {
  }

  /** A timer added ahead of its tick is due once the clock is a tick past the deadline. */
  lemma NeverATickLate(c: Clock, expireAt: nat, nowMs: nat, addTick: nat)
    requires c.tickMs > 0 && addTick < c.TickFor(expireAt) && nowMs >= expireAt + c.tickMs
    ensures c.TickFor(nowMs) >= FireTick(addTick, c.TickFor(expireAt))
  {
    FiresInTime(addTick, c.TickFor(expireAt));
    var d := expireAt - c.epochMs;
    assert d == d / c.tickMs * c.tickMs + d % c.tickMs;
    var fire := c.TickFor(expireAt) + 1;
    assert fire * c.tickMs == d / c.tickMs * c.tickMs + c.tickMs;
    TickReached(c, nowMs, fire);
  }

  lemma FireTickPositive(now: nat, target: nat)
    ensures FireTick(now, target) >= 1
  {
  }

  lemma TickReached(c: Clock, nowMs: nat, tick: nat)
    requires c.tickMs > 0 && tick >= 1
    ensures c.TickFor(nowMs) >= tick <==> nowMs >= c.epochMs + tick * c.tickMs
  {
    if nowMs > c.epochMs {
      var n := nowMs - c.epochMs;
      assert n == n / c.tickMs * c.tickMs + n % c.tickMs;
      if n / c.tickMs >= tick {
        MulCancel(tick, n / c.tickMs, c.tickMs);
      } else {
        MulCancel(n / c.tickMs + 1, tick, c.tickMs);
      }
    } else {
      MulCancel(1, tick, c.tickMs);
    }
  }

  /** A timer can come out before its deadline exactly when its fire tick begins before it. */
  lemma EarlyIff(c: Clock, expireAt: nat, addTick: nat)
    requires c.tickMs > 0
    ensures var fire := FireTick(addTick, c.TickFor(expireAt));
            (exists nowMs: nat :: nowMs < expireAt && c.TickFor(nowMs) >= fire) <==>
            c.epochMs + fire * c.tickMs < expireAt
  {
    hide FireTick;
    var fire := FireTick(addTick, c.TickFor(expireAt));
    FireTickPositive(addTick, c.TickFor(expireAt));
    forall nowMs: nat ensures c.TickFor(nowMs) >= fire <==> nowMs >= c.epochMs + fire * c.tickMs {
      TickReached(c, nowMs, fire);
    }
    var first := c.epochMs + fire * c.tickMs;
    assert c.TickFor(first) >= fire;
  }

  /** The fire tick of a timer parked above level 0. */
  function Parked(target: nat): (r: nat) {
    if target % SLOTS == 0 then target + 1 else target
  }

  /** A timer parked on a level waits in the bucket of its target, whose turn is
      still to come and comes up for it first. */
  predicate Ahead(level: nat, slot: nat, target: nat, now: int)
    requires 1 <= level < LEVELS
  {
    var u := Unit(level);
    && slot == target / u % SLOTS
    && now < target / u * u
    && now + SLOTS * u >= target / u * u
  }

  // Wheel arithmetic

  lemma {:induction false} MulAtLeast(d: nat, u: nat)
    requires d >= 1
    ensures d * u >= u
  {
    if d > 1 {
      MulAtLeast(d - 1, u);
      assert d * u == (d - 1) * u + u;
    }
  }

  lemma MulCancel(a: int, b: int, u: nat)
    requires u > 0
    ensures a * u <= b * u <==> a <= b
    ensures a * u == b * u <==> a == b
  {
    if a < b {
      MulAtLeast(b - a, u);
      assert b * u == a * u + (b - a) * u;
    } else if b < a {
      MulAtLeast(a - b, u);
      assert a * u == b * u + (a - b) * u;
    }
  }

  /** Two bucket numbers less than a revolution apart share a slot only if equal. */
  lemma SameSlot(k: nat, q: nat)
    requires k <= q < k + SLOTS && q % SLOTS == k % SLOTS
    ensures q == k
  {
  }

  /** The turn of a bucket at tick now takes exactly the timers whose unit starts
      now. */
  lemma TurnIsExact(level: nat, slot: nat, target: nat, now: nat)
    requires 1 <= level < LEVELS && now > 0 && Ahead(level, slot, target, now - 1)
    ensures now % Unit(level) == 0 && slot == now / Unit(level) % SLOTS <==> now == target / Unit(level) * Unit(level)
    ensures now != target / Unit(level) * Unit(level) ==> Ahead(level, slot, target, now)
  {
    var u := Unit(level);
    TurnOf(u, target / u, now);
  }

  lemma TurnOf(u: nat, q: nat, now: nat)
    requires u > 0 && now <= q * u < now + SLOTS * u
    ensures now % u == 0 && q % SLOTS == now / u % SLOTS <==> now == q * u
  {
    if now % u == 0 {
      var k := now / u;
      assert now == k * u;
      MulCancel(k, q, u);
      assert (k + SLOTS) * u == k * u + SLOTS * u;
      MulCancel(k + SLOTS, q, u);
      if q % SLOTS == k % SLOTS {
        SameSlot(k, q);
      }
    }
    if now == q * u {
      Quotient(q, u);
    }
  }

  lemma Quotient(q: nat, u: nat)
    requires u > 0
    ensures q * u / u == q && q * u % u == 0
  {
    MulCancel(q * u / u, q, u);
    assert q * u == (q * u / u) * u + q * u % u;
    var d := q - q * u / u;
    assert d * u == q * u % u;
    if d != 0 {
      MulCancel(1, d, u);
      MulCancel(d, 0, u);
    }
  }

  /** A timer taken down at its unit's start keeps its fire tick. */
  lemma CascadeKeepsFireTick(level: nat, target: nat, now: nat)
    requires 1 <= level < LEVELS && now == target / Unit(level) * Unit(level)
    ensures FireTick(now, target) == Parked(target)
    ensures target <= now || target - now < Unit(level)
  {
    hide Unit;
    var u := Unit(level);
    assert target == target / u * u + target % u;
    Nested(1, level, target / u, now);
    OnBoundary(now, target);
  }

  lemma OnBoundary(now: nat, target: nat)
    requires now % Unit(1) == 0 && now <= target
    ensures FireTick(now, target) == Parked(target)
  {
  }

  /** If a level's boundary is not reached, no higher one is. */
  lemma BoundariesNest(level: nat, higher: nat, target: nat, now: nat)
    requires 1 <= level <= higher < LEVELS && now % Unit(level) != 0
    ensures now != target / Unit(higher) * Unit(higher)
  {
    if now == target / Unit(higher) * Unit(higher) {
      Nested(level, higher, target / Unit(higher), now);
    }
  }

  lemma {:induction false} Nested(level: nat, higher: nat, p: nat, now: nat)
    requires 1 <= level <= higher < LEVELS && now == p * Unit(higher)
    ensures now % Unit(level) == 0
    decreases higher
  {
    if higher == level {
      Quotient(p, Unit(level));
    } else {
      assert Unit(higher) == SLOTS * Unit(higher - 1);
      assert now == (p * SLOTS) * Unit(higher - 1);
      Nested(level, higher - 1, p * SLOTS, now);
    }
  }

  /** Where addLocked puts a timer more than one revolution out. */
  lemma ParkedAhead(level: nat, target: nat, now: nat)
    requires 1 <= level < LEVELS && Unit(level) <= target - now < Unit(level + 1)
    ensures Ahead(level, target / Unit(level) % SLOTS, target, now)
    ensures FireTick(now, target) == Parked(target)
  {
  }

  // Buckets as a value

  type Board = seq<seq<seq<Timer>>>

  ghost predicate Distinct(ts: seq<Timer>) {
    forall i, j | 0 <= i < j < |ts| :: ts[i] != ts[j]
  }

  ghost predicate Shaped(board: Board) {
    |board| == LEVELS && forall l | 0 <= l < LEVELS :: |board[l]| == SLOTS
  }

  ghost function SetBucket(board: Board, level: nat, slot: nat, bucket: seq<Timer>): (b: Board)
    requires Shaped(board) && level < LEVELS && slot < SLOTS
    ensures Shaped(b)
  {
    board[level := board[level][slot := bucket]]
  }

  /** Every bucket holds exactly the timers placed there, once. */
  ghost predicate StoredIn(board: Board, place: map<Timer, (nat, nat)>) {
    && Shaped(board)
    && (forall l, b | 0 <= l < LEVELS && 0 <= b < SLOTS :: BucketOk(board[l][b], l, b, place))
    && (forall t | t in place :: HeldWhere(board, t, place[t]))
  }

  ghost predicate BucketOk(bucket: seq<Timer>, level: nat, slot: nat, place: map<Timer, (nat, nat)>) {
    Distinct(bucket) && forall t | t in bucket :: t in place && place[t] == (level, slot)
  }

  ghost predicate HeldWhere(board: Board, t: Timer, at: (nat, nat))
    requires Shaped(board)
  {
    at.0 < LEVELS && at.1 < SLOTS && t in board[at.0][at.1]
  }

  lemma PutStored(board: Board, place: map<Timer, (nat, nat)>, t: Timer, level: nat, slot: nat)
    requires StoredIn(board, place) && t !in place && level < LEVELS && slot < SLOTS
    ensures StoredIn(SetBucket(board, level, slot, board[level][slot] + [t]), place[t := (level, slot)])
  {
    var place' := place[t := (level, slot)];
    var board' := SetBucket(board, level, slot, board[level][slot] + [t]);
    forall l, b | 0 <= l < LEVELS && 0 <= b < SLOTS ensures BucketOk(board'[l][b], l, b, place') {
      assert BucketOk(board[l][b], l, b, place);
    }
    forall x | x in place' ensures HeldWhere(board', x, place'[x]) {
      if x != t {
        assert HeldWhere(board, x, place[x]);
      }
    }
  }

  lemma ClearStored(board: Board, place: map<Timer, (nat, nat)>, level: nat, slot: nat)
    requires StoredIn(board, place) && level < LEVELS && slot < SLOTS
    ensures var hand := set t | t in board[level][slot];
            StoredIn(SetBucket(board, level, slot, []), place - hand)
    ensures forall t | t in place :: t in board[level][slot] <==> place[t] == (level, slot)
    ensures forall t | t in board[level][slot] :: t in place
    ensures Distinct(board[level][slot])
  {
    var hand := set t | t in board[level][slot];
    var board' := SetBucket(board, level, slot, []);
    assert BucketOk(board[level][slot], level, slot, place);
    forall l, b | 0 <= l < LEVELS && 0 <= b < SLOTS ensures BucketOk(board'[l][b], l, b, place - hand) {
      assert BucketOk(board[l][b], l, b, place);
    }
    forall x | x in place ensures HeldWhere(board, x, place[x]) {
    }
    forall x | x in place - hand ensures HeldWhere(board', x, place[x]) {
      assert HeldWhere(board, x, place[x]);
    }
  }

  // Fire ticks

  /** What a timer's bucket and fire tick must satisfy at tick now. While Advance is
      in the middle of a tick, levels above `done` have not had their turn yet, and
      level 0 may still hold what fires at this very tick. */
  ghost predicate OnTime(level: nat, slot: nat, target: nat, fire: nat, now: nat, done: nat, mid: bool)
    requires level < LEVELS
  {
    if level == 0 then
      (if mid then now <= fire else now < fire) && fire < now + SLOTS && fire % SLOTS == slot
    else
      fire == Parked(target) && Ahead(level, slot, target, if level <= done then now else now - 1)
  }

  lemma StillToCome(level: nat, slot: nat, target: nat, fire: nat, now: nat)
    requires level < LEVELS && OnTime(level, slot, target, fire, now, LEVELS - 1, false)
    ensures now < fire
  {
    if level > 0 {
      hide Unit;
      var u := Unit(level);
      assert target == target / u * u + target % u;
    }
  }

  datatype Clock = Clock(tickMs: nat, epochMs: nat) {
    function TickFor(ms: nat): (r: nat) {
      if ms <= epochMs || tickMs == 0 then 0 else (ms - epochMs) / tickMs
    }
  }

  ghost predicate TimerOnTime(c: Clock, t: Timer, at: (nat, nat), fire: nat, now: nat, done: nat, mid: bool) {
    at.0 < LEVELS && OnTime(at.0, at.1, c.TickFor(t.expireAt), fire, now, done, mid)
  }

  ghost predicate TimedIn(c: Clock, place: map<Timer, (nat, nat)>, due: map<Timer, nat>,
                          now: nat, done: nat, mid: bool)
  {
    forall t | t in place :: t in due && TimerOnTime(c, t, place[t], due[t], now, done, mid)
  }

  /** A new tick begins: no level has had its turn. */
  lemma TickBegins(c: Clock, place: map<Timer, (nat, nat)>, due: map<Timer, nat>, now: nat)
    requires TimedIn(c, place, due, now, LEVELS - 1, false)
    ensures TimedIn(c, place, due, now + 1, 0, true)
  {
    hide Ahead;
    forall t | t in place ensures TimerOnTime(c, t, place[t], due[t], now + 1, 0, true) {
      assert TimerOnTime(c, t, place[t], due[t], now, LEVELS - 1, false);
    }
  }

  /** A level's turn: what stays is still ahead, what is taken is due for this unit
      and keeps its fire tick when put back. */
  lemma LevelTurns(c: Clock, place: map<Timer, (nat, nat)>, due: map<Timer, nat>, now: nat, level: nat)
    requires 1 <= level < LEVELS && now > 0 && TimedIn(c, place, due, now, level - 1, true)
    requires now % Unit(level) == 0
    ensures var slot := now / Unit(level) % SLOTS;
            && (forall t | t in place && place[t] != (level, slot) ::
                  TimerOnTime(c, t, place[t], due[t], now, level, true))
            && (forall t | t in place && place[t] == (level, slot) ::
                  && due[t] == FireTick(now, c.TickFor(t.expireAt))
                  && c.TickFor(t.expireAt) < now + Unit(level))
  {
    hide Ahead, Unit;
    var slot := now / Unit(level) % SLOTS;
    forall t | t in place
      ensures place[t] != (level, slot) ==> TimerOnTime(c, t, place[t], due[t], now, level, true)
      ensures place[t] == (level, slot) ==>
                due[t] == FireTick(now, c.TickFor(t.expireAt)) && c.TickFor(t.expireAt) < now + Unit(level)
    {
      assert TimerOnTime(c, t, place[t], due[t], now, level - 1, true);
      if place[t].0 == level {
        TurnIsExact(level, place[t].1, c.TickFor(t.expireAt), now);
        if place[t].1 == slot {
          CascadeKeepsFireTick(level, c.TickFor(t.expireAt), now);
        }
      }
    }
  }

  /** No boundary at this level, so none above: all levels have had their turn. */
  lemma LevelsRest(c: Clock, place: map<Timer, (nat, nat)>, due: map<Timer, nat>, now: nat, level: nat)
    requires 1 <= level < LEVELS && now > 0 && TimedIn(c, place, due, now, level - 1, true)
    requires now % Unit(level) != 0
    ensures TimedIn(c, place, due, now, LEVELS - 1, true)
  {
    hide Ahead, Unit;
    forall t | t in place ensures TimerOnTime(c, t, place[t], due[t], now, LEVELS - 1, true) {
      assert TimerOnTime(c, t, place[t], due[t], now, level - 1, true);
      if place[t].0 >= level {
        BoundariesNest(level, place[t].0, c.TickFor(t.expireAt), now);
        TurnIsExact(place[t].0, place[t].1, c.TickFor(t.expireAt), now);
      }
    }
  }

  /** The current bucket of level 0 is exactly what fires now. */
  lemma FiresNow(c: Clock, place: map<Timer, (nat, nat)>, due: map<Timer, nat>, now: nat)
    requires TimedIn(c, place, due, now, LEVELS - 1, true)
    ensures forall t | t in place :: place[t] == (0, now % SLOTS) <==> due[t] == now
    ensures forall t | t in place && due[t] != now ::
              due[t] > now && TimerOnTime(c, t, place[t], due[t], now, LEVELS - 1, false)
  {
    forall t | t in place
      ensures place[t] == (0, now % SLOTS) <==> due[t] == now
      ensures due[t] != now ==> due[t] > now && TimerOnTime(c, t, place[t], due[t], now, LEVELS - 1, false)
    {
      assert TimerOnTime(c, t, place[t], due[t], now, LEVELS - 1, true);
      OneFires(place[t].0, place[t].1, c.TickFor(t.expireAt), due[t], now);
    }
  }

  /** Emptying the bucket whose turn it is takes exactly what is due off the schedule. */
  lemma DueTaken(c: Clock, place: map<Timer, (nat, nat)>, due: map<Timer, nat>, now: nat, bucket: seq<Timer>)
    requires TimedIn(c, place, due, now, LEVELS - 1, true) && due.Keys == place.Keys
    requires forall t | t in place :: t in bucket <==> place[t] == (0, now % SLOTS)
    requires forall t | t in bucket :: t in place
    ensures forall t :: t in bucket <==> t in due && due[t] == now
    ensures var left := place - (set t | t in bucket);
            left.Keys == Later(due, now).Keys && TimedIn(c, left, Later(due, now), now, LEVELS - 1, false)
  {
    hide TimerOnTime;
    FiresNow(c, place, due, now);
  }

  lemma SameDistinct(overflow: seq<Timer>, due: map<Timer, nat>, less: map<Timer, nat>)
    ensures less.Keys <= due.Keys && (forall t | t in overflow :: t !in due) ==> forall t | t in overflow :: t !in less
  {
  }

  lemma OneFires(level: nat, slot: nat, target: nat, fire: nat, now: nat)
    requires level < LEVELS && OnTime(level, slot, target, fire, now, LEVELS - 1, true)
    ensures level == 0 && slot == now % SLOTS <==> fire == now
    ensures fire != now ==> fire > now && OnTime(level, slot, target, fire, now, LEVELS - 1, false)
  {
    if level > 0 {
      StartsBelow(target, Unit(level));
    } else if slot == now % SLOTS {
      SameSlot(now, fire);
    }
  }

  lemma StartsBelow(target: nat, u: nat)
    requires u > 0
    ensures target / u * u <= target
  {
  }

  /** Where addLocked puts a timer suits it. */
  lemma PutOnTime(level: nat, goal: nat, now: nat, done: nat, mid: bool)
    requires level < LEVELS && (level == 0 || level <= done)
    requires var target := if goal <= now then now + 1 else goal;
             target - now < Unit(level + 1) && (level == 0 || target - now >= Unit(level))
    ensures var target := if goal <= now then now + 1 else goal;
            OnTime(level, target / Unit(level) % SLOTS, goal, FireTick(now, goal), now, done, mid)
  {
    if level > 0 {
      hide Ahead, Unit;
      ParkedAhead(level, goal, now);
      assert goal > now by {
        assert Unit(level) >= 2;
      }
    }
  }

  lemma TimedWith(c: Clock, place: map<Timer, (nat, nat)>, due: map<Timer, nat>, due': map<Timer, nat>,
                  now: nat, done: nat, mid: bool)
    requires TimedIn(c, place, due, now, done, mid)
    requires forall t | t in place :: t in due' && due'[t] == due[t]
    ensures TimedIn(c, place, due', now, done, mid)
  {
    hide OnTime;
    forall t | t in place ensures TimerOnTime(c, t, place[t], due'[t], now, done, mid) {
      assert TimerOnTime(c, t, place[t], due[t], now, done, mid);
    }
  }

  ghost function Rest(bucket: seq<Timer>, i: nat): (r: set<Timer>)
    requires i <= |bucket|
  {
    set t | t in bucket[i..]
  }

  lemma RestStep(bucket: seq<Timer>, i: nat)
    requires i < |bucket| && Distinct(bucket)
    ensures bucket[i] in Rest(bucket, i) && Rest(bucket, i) - {bucket[i]} == Rest(bucket, i + 1)
  {
    assert bucket[i..] == [bucket[i]] + bucket[i + 1..];
    assert bucket[i] !in bucket[i + 1..];
  }

  // The wheel

  /** What is left of a schedule after tick now. */
  ghost function Later(due: map<Timer, nat>, now: nat): (r: map<Timer, nat>) {
    map t | t in due && due[t] > now :: due[t]
  }

  /** fired is, once each, exactly what was scheduled for now or earlier. */
  ghost predicate Exactly(due: map<Timer, nat>, fired: seq<Timer>, now: nat) {
    && Distinct(fired)
    && (forall t | t in fired :: t in due && due[t] <= now)
    && (forall t | t in due && due[t] <= now :: t in fired)
  }

  /** The fire ticks of timers just returned. */
  ghost function FiredAt(due: map<Timer, nat>, fired: seq<Timer>): (r: map<Timer, nat>) {
    map t | t in fired && t in due :: due[t]
  }

  /** Every timer added is scheduled, waiting in the overflow list, or returned, and
      only one of these; nothing was returned for a tick still to come. */
  ghost predicate Conserved(due: map<Timer, nat>, overflow: seq<Timer>, added: set<Timer>,
                            returned: map<Timer, nat>, now: nat)
  {
    && added == due.Keys + (set t | t in overflow) + returned.Keys
    && due.Keys !! returned.Keys
    && (forall t | t in overflow :: t !in due && t !in returned)
    && (forall t | t in returned :: returned[t] <= now)
  }

  /** The wheel holds the timers within reach, and the overflow list the others. */
  ghost predicate InReach(c: Clock, due: map<Timer, nat>, overflow: seq<Timer>, now: nat) {
    (forall t | t in due :: Near(c, t, now)) && (forall t | t in overflow :: !Near(c, t, now))
  }

  lemma StaysInReach(c: Clock, due: map<Timer, nat>, overflow: seq<Timer>, before: nat, now: nat)
    requires InReach(c, due, overflow, before) && before <= now
    ensures InReach(c, Later(due, now) + Joining(c, overflow, now), Far(c, overflow, now), now)
  {
  }

  lemma AddConserves(due: map<Timer, nat>, overflow: seq<Timer>, added: set<Timer>,
                     returned: map<Timer, nat>, now: nat, t: Timer, fire: nat)
    requires Conserved(due, overflow, added, returned, now) && t !in added
    ensures Conserved(due[t := fire], overflow, added + {t}, returned, now)
    ensures Conserved(due, overflow + [t], added + {t}, returned, now)
  {
    assert (set x | x in overflow + [t]) == (set x | x in overflow) + {t};
    assert due[t := fire].Keys == due.Keys + {t};
  }

  lemma AdvanceConserves(c: Clock, due: map<Timer, nat>, overflow: seq<Timer>, added: set<Timer>,
                         returned: map<Timer, nat>, before: nat, now: nat, fired: seq<Timer>)
    requires Conserved(due, overflow, added, returned, before) && before <= now
    requires Exactly(due, fired, now)
    ensures Conserved(Later(due, now) + Joining(c, overflow, now), Far(c, overflow, now), added,
                      returned + FiredAt(due, fired), now)
  {
    hide Near, FireOf, Later, Joining, Far, FiredAt, Exactly;
    var more := FiredAt(due, fired);
    var later, joining, far := Later(due, now), Joining(c, overflow, now), Far(c, overflow, now);
    FiredMeans(due, fired, now);
    AllAccounted(c, due, overflow, added, returned, now, fired, more);
    NoneTwice(c, due, overflow, returned, now, fired, more);
    assert (later + joining).Keys == later.Keys + joining.Keys;
    assert (returned + more).Keys == returned.Keys + more.Keys;
  }

  lemma FiredMeans(due: map<Timer, nat>, fired: seq<Timer>, now: nat)
    requires Exactly(due, fired, now)
    ensures var more := FiredAt(due, fired);
            (forall t :: t in more <==> t in fired) && forall t | t in more :: t in due && more[t] == due[t] <= now
    ensures (forall t | t in fired :: t in due && due[t] <= now) && forall t | t in due && due[t] <= now :: t in fired
  {
  }

  lemma NoneTwice(c: Clock, due: map<Timer, nat>, overflow: seq<Timer>, returned: map<Timer, nat>, now: nat,
                  fired: seq<Timer>, more: map<Timer, nat>)
    requires due.Keys !! returned.Keys && forall t | t in overflow :: t !in due && t !in returned
    requires (forall t | t in more :: t in due && more[t] == due[t] <= now) && Exactly(due, fired, now)
    ensures var later, joining, far := Later(due, now), Joining(c, overflow, now), Far(c, overflow, now);
            && (later.Keys + joining.Keys) !! (returned.Keys + more.Keys)
            && (forall t | t in far :: t !in later && t !in joining && t !in returned && t !in more)
            && (forall t | t in more :: more[t] <= now)
  {
    hide FireOf, Far;
  }

  lemma AllAccounted(c: Clock, due: map<Timer, nat>, overflow: seq<Timer>, added: set<Timer>,
                     returned: map<Timer, nat>, now: nat, fired: seq<Timer>, more: map<Timer, nat>)
    requires added == due.Keys + (set t | t in overflow) + returned.Keys
    requires forall t | t in fired :: t in due && due[t] <= now
    requires forall t | t in due && due[t] <= now :: t in fired
    requires forall t :: t in more <==> t in fired
    ensures added == Later(due, now).Keys + Joining(c, overflow, now).Keys + (set t | t in Far(c, overflow, now))
                     + (returned.Keys + more.Keys)
  {
    hide Near, FireOf, Far;
    var all := Later(due, now).Keys + Joining(c, overflow, now).Keys + (set t | t in Far(c, overflow, now))
               + (returned.Keys + more.Keys);
    forall t | t in added ensures t in all {
      if t in due {
        assert due[t] <= now || t in Later(due, now);
      } else if t in overflow {
        assert Near(c, t, now) || t in Far(c, overflow, now);
      }
    }
    forall t | t in all ensures t in added {
      assert t in Far(c, overflow, now) ==> t in overflow;
    }
  }

  class Wheel {
    const clock: Clock
    const levels: array2<seq<Timer>>
    var nowTick: nat
    var overflow: seq<Timer>
    var pending: int
    /** The simple view: which timers are scheduled, and for which tick. */
    ghost var due: map<Timer, nat>
    /** Which bucket each scheduled timer is in. */
    ghost var place: map<Timer, (nat, nat)>
    /** History: every timer ever added, and the fire tick of those returned. */
    ghost var added: set<Timer>
    ghost var returned: map<Timer, nat>

    constructor (tickMs: nat, epochMs: nat)
      ensures Valid() && fresh(levels) && nowTick == 0 && due == map[] && overflow == []
      ensures added == {} && returned == map[]
      ensures clock == Clock(if tickMs == 0 then 1 else tickMs, epochMs)
    {
      clock := Clock(if tickMs == 0 then 1 else tickMs, epochMs);
      levels := new seq<Timer>[LEVELS, SLOTS]((_, _) => []);
      nowTick, overflow, pending, due, place, added, returned := 0, [], 0, map[], map[], {}, map[];
    }

    ghost function Buckets(): (b: Board)
      reads levels
      ensures levels.Length0 == LEVELS && levels.Length1 == SLOTS ==> Shaped(b)
    {
      seq(levels.Length0, l requires 0 <= l < levels.Length0 reads levels =>
        seq(levels.Length1, s requires 0 <= s < levels.Length1 reads levels => levels[l, s]))
    }

    /** Consistent but for the timers in hand, taken out of a bucket and not put back
        yet. */
    ghost predicate Partial(done: nat, mid: bool, hand: set<Timer>)
      reads `nowTick, `overflow, `due, `place, levels
    {
      && levels.Length0 == LEVELS && levels.Length1 == SLOTS
      && StoredIn(Buckets(), place)
      && TimedIn(clock, place, due, nowTick, done, mid)
      && due.Keys == place.Keys + hand && place.Keys !! hand
      && Distinct(overflow) && (forall t | t in overflow :: t !in due)
    }

    ghost predicate Valid()
      reads this, levels
    {
      && Partial(LEVELS - 1, false, {}) && pending == |due| + |overflow|
      && Conserved(due, overflow, added, returned, nowTick)
      && InReach(clock, due, overflow, nowTick)
    }

    /** A timer never seen before is nowhere. */
    lemma Unseen(t: Timer)
      requires Conserved(due, overflow, added, returned, nowTick) && t !in added
      ensures t !in due && t !in overflow
    {
    }

    method Store(level: nat, slot: nat, bucket: seq<Timer>)
      requires levels.Length0 == LEVELS && levels.Length1 == SLOTS && level < LEVELS && slot < SLOTS
      modifies levels
      ensures Buckets() == SetBucket(old(Buckets()), level, slot, bucket)
    {
      ghost var before := Buckets();
      levels[level, slot] := bucket;
      var after := SetBucket(before, level, slot, bucket);
      forall l | 0 <= l < LEVELS ensures Buckets()[l] == after[l] {
      }
    }

    /** Appends a timer in hand to a bucket. */
    method Put(t: Timer, level: nat, slot: nat, ghost done: nat, ghost mid: bool, ghost hand: set<Timer>)
      requires Partial(done, mid, hand) && t in hand && level < LEVELS && slot < SLOTS
      requires var goal := clock.TickFor(t.expireAt);
               OnTime(level, slot, goal, FireTick(nowTick, goal), nowTick, done, mid)
      modifies this`place, this`due, levels
      ensures Partial(done, mid, hand - {t})
      ensures due == old(due)[t := FireTick(nowTick, clock.TickFor(t.expireAt))]
    {
      hide StoredIn, OnTime, SetBucket, Shaped;
      PutStored(Buckets(), place, t, level, slot);
      assert levels[level, slot] == Buckets()[level][slot];
      Store(level, slot, levels[level, slot] + [t]);
      place := place[t := (level, slot)];
      due := due[t := FireTick(nowTick, clock.TickFor(t.expireAt))];
    }

    method AddLocked(t: Timer, ghost done: nat, ghost mid: bool, ghost hand: set<Timer>)
      requires Partial(done, mid, hand) && t in hand && done < LEVELS
      requires done == LEVELS - 1 || clock.TickFor(t.expireAt) < nowTick + Unit(done + 1)
      modifies this`place, this`due, this`overflow, levels
      ensures Partial(done, mid, hand - {t})
      ensures if Near(clock, t, nowTick)
              then due == old(due)[t := FireTick(nowTick, clock.TickFor(t.expireAt))] && overflow == old(overflow)
              else due == old(due) - {t} && overflow == old(overflow) + [t]
    {
      hide StoredIn, OnTime;
      var target := clock.TickFor(t.expireAt);
      ghost var goal := target;
      if target <= nowTick {
        target := nowTick + 1;
      }
      var delta := target - nowTick;
      var level := 0;
      while level < LEVELS
        invariant level <= LEVELS
        invariant level == 0 || delta >= Unit(level)
      {
        if delta < Unit(level + 1) {
          PutOnTime(level, goal, nowTick, done, mid);
          Put(t, level, target / Unit(level) % SLOTS, done, mid, hand);
          return;
        }
        level := level + 1;
      }
      overflow := overflow + [t];
      due := due - {t};
    }

    /** Schedules a timer: in the wheel if within reach, in the overflow list
        otherwise. */
    method Add(key: Bytes, expireAt: nat) returns (t: Timer)
      requires Valid()
      modifies this`place, this`due, this`overflow, this`pending, this`added, levels
      ensures Valid() && fresh(t) && added == old(added) + {t} && t.key == key && t.expireAt == expireAt
      ensures if Near(clock, t, nowTick)
              then due == old(due)[t := FireTick(nowTick, clock.TickFor(expireAt))] && overflow == old(overflow)
              else due == old(due) && overflow == old(overflow) + [t]
      ensures pending == old(pending) + 1
    {
      hide Partial, FireTick, Conserved;
      t := new Timer(key, expireAt);
      assert t !in added;
      Unseen(t);
      ghost var due0, overflow0 := due, overflow;
      Schedule(t);
      Enter(t, due0, overflow0);
    }

    ghost method Enter(t: Timer, due0: map<Timer, nat>, overflow0: seq<Timer>)
      requires Conserved(due0, overflow0, added, returned, nowTick) && t !in added
      modifies `added
      ensures added == old(added) + {t}
      ensures Conserved(due0[t := FireTick(nowTick, clock.TickFor(t.expireAt))], overflow0, added, returned, nowTick)
      ensures Conserved(due0, overflow0 + [t], added, returned, nowTick)
    {
      hide Conserved, FireTick;
      AddConserves(due0, overflow0, added, returned, nowTick, t, FireTick(nowTick, clock.TickFor(t.expireAt)));
      added := added + {t};
    }

    method Schedule(t: Timer)
      requires Partial(LEVELS - 1, false, {}) && pending == |due| + |overflow| && t !in due && t !in overflow
      modifies this`place, this`due, this`overflow, this`pending, levels
      ensures Partial(LEVELS - 1, false, {}) && pending == |due| + |overflow|
      ensures if Near(clock, t, nowTick)
              then due == old(due)[t := FireTick(nowTick, clock.TickFor(t.expireAt))] && overflow == old(overflow)
              else due == old(due) && overflow == old(overflow) + [t]
      ensures pending == old(pending) + 1
    {
      hide Partial, FireTick, Near;
      Insert(t);
      pending := pending + 1;
    }

    /** Puts a timer where it belongs. */
    method Insert(t: Timer)
      requires Partial(LEVELS - 1, false, {}) && t !in due && t !in overflow
      modifies this`place, this`due, this`overflow, levels
      ensures Partial(LEVELS - 1, false, {}) && |due| + |overflow| == |old(due)| + |old(overflow)| + 1
      ensures if Near(clock, t, nowTick)
              then due == old(due)[t := FireOf(clock, t, nowTick)] && overflow == old(overflow)
              else due == old(due) && overflow == old(overflow) + [t]
    {
      hide Partial, FireTick, Near;
      ghost var before, fire := due, FireTick(nowTick, clock.TickFor(t.expireAt));
      Reserve(t);
      AddLocked(t, LEVELS - 1, false, {t});
      assert {t} - {t} == {};
      CountAdded(before, t, fire);
      Overwrite(before, t, fire);
      assert before[t := 0] - {t} == before;
    }

    /** Announces a timer that is about to be put in. */
    ghost method Reserve(t: Timer)
      requires Partial(LEVELS - 1, false, {}) && t !in due && t !in overflow
      modifies this`due
      ensures Partial(LEVELS - 1, false, {t}) && due == old(due)[t := 0]
    {
      hide StoredIn, TimedIn, Distinct;
      ghost var before := due;
      due := due[t := 0];
      TimedWith(clock, place, before, due, nowTick, LEVELS - 1, false);
    }

    /** Takes the bucket whose turn has come on a level in hand. */
    method TakeBucket(level: nat) returns (bucket: seq<Timer>)
      requires 1 <= level < LEVELS && Partial(level - 1, true, {})
      requires nowTick > 0 && nowTick % Unit(level) == 0
      modifies this`place, levels
      ensures Partial(level, true, Rest(bucket, 0)) && Distinct(bucket)
      ensures forall t | t in bucket ::
                && t in due && due[t] == FireTick(nowTick, clock.TickFor(t.expireAt))
                && clock.TickFor(t.expireAt) < nowTick + Unit(level)
    {
      hide StoredIn, OnTime, SetBucket, Unit, FireTick;
      var slot := nowTick / Unit(level) % SLOTS;
      bucket := levels[level, slot];
      assert bucket == Buckets()[level][slot] && bucket[0..] == bucket;
      ClearStored(Buckets(), place, level, slot);
      LevelTurns(clock, place, due, nowTick, level);
      Store(level, slot, []);
      place := place - Rest(bucket, 0);
    }

    /** Empties that bucket and puts its timers back, where they settle on lower
        levels; every fire tick stays. */
    method Cascade(level: nat)
      requires 1 <= level < LEVELS && Partial(level - 1, true, {})
      requires nowTick > 0 && nowTick % Unit(level) == 0
      modifies this`place, this`due, this`overflow, levels
      ensures Partial(level, true, {}) && due == old(due) && overflow == old(overflow)
    {
      hide Partial, FireTick, Distinct;
      var bucket := TakeBucket(level);
      for i := 0 to |bucket|
        invariant Partial(level, true, Rest(bucket, i))
        invariant due == old(due) && overflow == old(overflow)
      {
        RestStep(bucket, i);
        UnitsGrow(level);
        AddLocked(bucket[i], level, true, Rest(bucket, i));
      }
      assert Rest(bucket, |bucket|) == {};
    }

    /** The bucket of level 0 for this tick: exactly what fires now, once each. */
    method TakeDue() returns (bucket: seq<Timer>)
      requires Partial(LEVELS - 1, true, {})
      modifies this`place, this`due, levels
      ensures Partial(LEVELS - 1, false, {}) && Distinct(bucket)
      ensures forall t :: t in bucket <==> t in old(due) && old(due)[t] == nowTick
      ensures due == Later(old(due), nowTick)
    {
      hide StoredIn, TimedIn, SetBucket, Distinct, Later;
      var slot := nowTick % SLOTS;
      bucket := levels[0, slot];
      assert bucket == Buckets()[0][slot];
      ClearStored(Buckets(), place, 0, slot);
      DueTaken(clock, place, due, nowTick, bucket);
      Store(0, slot, []);
      place := place - (set t | t in bucket);
      due := Later(due, nowTick);
      SameDistinct(overflow, old(due), due);
    }

    /** One tick: cascade the levels whose boundary is reached, then take what is
        due. */
    method Tick() returns (fired: seq<Timer>)
      requires Partial(LEVELS - 1, false, {})
      modifies this`nowTick, this`place, this`due, this`overflow, levels
      ensures Partial(LEVELS - 1, false, {}) && nowTick == old(nowTick) + 1 && overflow == old(overflow)
      ensures Distinct(fired) && forall t :: t in fired <==> t in old(due) && old(due)[t] == nowTick
      ensures due == Later(old(due), nowTick)
    {
      hide Partial, Distinct;
      Begin();
      CascadeAll();
      fired := TakeDue();
    }

    /** Higher levels first get their turn, up to the first whose boundary is not
        reached. */
    method CascadeAll()
      requires Partial(0, true, {}) && nowTick > 0
      modifies this`place, this`due, this`overflow, levels
      ensures Partial(LEVELS - 1, true, {}) && due == old(due) && overflow == old(overflow)
    {
      hide Partial;
      var level := 1;
      while level < LEVELS
        invariant 1 <= level <= LEVELS
        invariant Partial(level - 1, true, {}) && due == old(due) && overflow == old(overflow)
      {
        if nowTick % Unit(level) != 0 {
          Rested(level);
          break;
        }
        Cascade(level);
        level := level + 1;
      }
    }

    method Begin()
      requires Partial(LEVELS - 1, false, {})
      modifies this`nowTick
      ensures nowTick == old(nowTick) + 1 && Partial(0, true, {})
    {
      hide StoredIn, TimedIn;
      TickBegins(clock, place, due, nowTick);
      nowTick := nowTick + 1;
    }

    lemma Rested(level: nat)
      requires 1 <= level < LEVELS && nowTick > 0 && Partial(level - 1, true, {}) && nowTick % Unit(level) != 0
      ensures Partial(LEVELS - 1, true, {})
    {
      hide StoredIn, TimedIn;
      LevelsRest(clock, place, due, nowTick, level);
    }

    /** Moves the wheel to nowMs. Returned, once each, is exactly what was scheduled
        for a tick that has come; everything else stays scheduled as it was, and
        overflow timers now within reach join the schedule. */
    method Advance(nowMs: nat) returns (fired: seq<Timer>)
      requires Valid()
      modifies `nowTick, `place, `due, `overflow, `pending, `returned, levels
      ensures Valid()
      ensures nowTick == if clock.TickFor(nowMs) > old(nowTick) then clock.TickFor(nowMs) else old(nowTick)
      ensures Exactly(old(due), fired, nowTick)
      ensures pending == old(pending) - |fired|
      ensures due == Later(old(due), nowTick) + Joining(clock, old(overflow), nowTick)
      ensures overflow == Far(clock, old(overflow), nowTick)
      ensures added == old(added) && returned == old(returned) + FiredAt(old(due), fired)
    {
      hide Partial, Exactly, Conserved, Later, Joining, Far, FiredAt, InReach;
      ghost var due0, overflow0, tick0 := due, overflow, nowTick;
      fired := Turn(clock.TickFor(nowMs));
      Remember(due0, overflow0, tick0, fired);
    }

    ghost method Remember(due0: map<Timer, nat>, overflow0: seq<Timer>, tick0: nat, fired: seq<Timer>)
      requires Conserved(due0, overflow0, added, returned, tick0) && InReach(clock, due0, overflow0, tick0)
      requires tick0 <= nowTick && Exactly(due0, fired, nowTick)
      requires due == Later(due0, nowTick) + Joining(clock, overflow0, nowTick)
      requires overflow == Far(clock, overflow0, nowTick)
      modifies `returned
      ensures returned == old(returned) + FiredAt(due0, fired)
      ensures Conserved(due, overflow, added, returned, nowTick) && InReach(clock, due, overflow, nowTick)
    {
      hide Exactly, Conserved, Later, Joining, Far, FiredAt, InReach;
      AdvanceConserves(clock, due0, overflow0, added, returned, tick0, nowTick, fired);
      StaysInReach(clock, due0, overflow0, tick0, nowTick);
      returned := returned + FiredAt(due0, fired);
    }

    method Turn(target: nat) returns (fired: seq<Timer>)
      requires Partial(LEVELS - 1, false, {}) && pending == |due| + |overflow|
      modifies this`nowTick, this`place, this`due, this`overflow, this`pending, levels
      ensures Partial(LEVELS - 1, false, {}) && pending == |due| + |overflow|
      ensures nowTick == if target > old(nowTick) then target else old(nowTick)
      ensures Exactly(old(due), fired, nowTick)
      ensures pending == old(pending) - |fired|
      ensures due == Later(old(due), nowTick) + Joining(clock, old(overflow), nowTick)
      ensures overflow == Far(clock, old(overflow), nowTick)
    {
      hide Partial, Exactly, Later, Joining, Far;
      fired := AdvanceTicks(target);
      SweepOverflow();
      pending := pending - |fired|;
    }

    /** The tick loop. */
    method AdvanceTicks(target: nat) returns (fired: seq<Timer>)
      requires Partial(LEVELS - 1, false, {})
      modifies this`nowTick, this`place, this`due, this`overflow, levels
      ensures Partial(LEVELS - 1, false, {}) && overflow == old(overflow)
      ensures nowTick == if target > old(nowTick) then target else old(nowTick)
      ensures Exactly(old(due), fired, nowTick)
      ensures due == Later(old(due), nowTick) && |due| == |old(due)| - |fired|
    {
      hide Partial;
      fired := [];
      NothingYet();
      while nowTick < target
        invariant Partial(LEVELS - 1, false, {}) && overflow == old(overflow)
        invariant old(nowTick) <= nowTick && (nowTick <= target || nowTick == old(nowTick))
        invariant Exactly(old(due), fired, nowTick)
        invariant due == Later(old(due), nowTick) && |due| == |old(due)| - |fired|
      {
        ghost var before := due;
        var bucket := Tick();
        CountFired(before, bucket, nowTick);
        DistinctConcat(fired, bucket);
        fired := fired + bucket;
      }
    }

    /** Nothing in the wheel is overdue. */
    lemma NothingYet()
      requires Partial(LEVELS - 1, false, {})
      ensures forall t | t in due :: due[t] > nowTick
      ensures due == Later(due, nowTick)
    {
      hide StoredIn;
      forall t | t in due ensures due[t] > nowTick {
        assert TimerOnTime(clock, t, place[t], due[t], nowTick, LEVELS - 1, false);
        if place[t].0 > 0 {
          StartsBelow(clock.TickFor(t.expireAt), Unit(place[t].0));
        }
      }
    }

    /** Schedules overflow timers that are now within reach and keeps the rest. */
    method SweepOverflow()
      requires Partial(LEVELS - 1, false, {})
      modifies this`place, this`due, this`overflow, levels
      ensures Partial(LEVELS - 1, false, {}) && |due| + |overflow| == |old(due)| + |old(overflow)|
      ensures due == old(due) + Joining(clock, old(overflow), nowTick)
      ensures overflow == Far(clock, old(overflow), nowTick)
    {
      hide Partial, FireOf, Near, Joining, Far, Distinct;
      var waiting := overflow;
      NoneJoin(clock, nowTick);
      Detach();
      for i := 0 to |waiting|
        invariant Partial(LEVELS - 1, false, {}) && |due| + |overflow| == |old(due)| + i
        invariant due == old(due) + Joining(clock, waiting[..i], nowTick)
        invariant overflow == Far(clock, waiting[..i], nowTick)
      {
        SweepTimer(waiting, i, old(due));
      }
      assert waiting[..|waiting|] == waiting;
    }

    method SweepTimer(waiting: seq<Timer>, i: nat, ghost due0: map<Timer, nat>)
      requires Partial(LEVELS - 1, false, {}) && i < |waiting| && Distinct(waiting)
      requires forall t | t in waiting :: t !in due0
      requires due == due0 + Joining(clock, waiting[..i], nowTick) && overflow == Far(clock, waiting[..i], nowTick)
      modifies this`place, this`due, this`overflow, levels
      ensures Partial(LEVELS - 1, false, {}) && |due| + |overflow| == |old(due)| + |old(overflow)| + 1
      ensures due == due0 + Joining(clock, waiting[..i + 1], nowTick)
      ensures overflow == Far(clock, waiting[..i + 1], nowTick)
    {
      hide Partial, FireOf, Near, Joining, Far, Distinct;
      JoinOne(clock, waiting, i, nowTick, due0);
      FarOne(clock, waiting, i, nowTick);
      if Near(clock, waiting[i], nowTick) {
        Insert(waiting[i]);
      } else {
        KeepOne(waiting[i]);
      }
    }

    method Detach()
      requires Partial(LEVELS - 1, false, {})
      modifies this`overflow
      ensures Partial(LEVELS - 1, false, {}) && overflow == []
      ensures Distinct(old(overflow)) && forall t | t in old(overflow) :: t !in due
    {
      hide StoredIn, TimedIn;
      overflow := [];
    }

    /** A timer still out of reach goes back on the overflow list. */
    method KeepOne(t: Timer)
      requires Partial(LEVELS - 1, false, {}) && t !in due && t !in overflow
      modifies this`overflow
      ensures Partial(LEVELS - 1, false, {}) && overflow == old(overflow) + [t]
    {
      hide StoredIn, TimedIn;
      overflow := overflow + [t];
    }
  }

  /** Within the wheel's reach at tick now. */
  predicate Near(c: Clock, t: Timer, now: nat) {
    c.TickFor(t.expireAt) < now + REACH
  }

  function FireOf(c: Clock, t: Timer, now: nat): (r: nat) {
    FireTick(now, c.TickFor(t.expireAt))
  }

  ghost function Joining(c: Clock, ts: seq<Timer>, now: nat): (r: map<Timer, nat>) {
    map t | t in ts && Near(c, t, now) :: FireOf(c, t, now)
  }

  /** The timers still out of reach, in order. */
  ghost function Far(c: Clock, ts: seq<Timer>, now: nat): (far: seq<Timer>)
    ensures forall t | t in far :: t in ts && !Near(c, t, now)
    ensures forall t | t in ts && !Near(c, t, now) :: t in far
  {
    if ts == [] then []
    else
      var last := ts[|ts| - 1];
      Far(c, ts[..|ts| - 1], now) + if Near(c, last, now) then [] else [last]
  }

  /** What an advance to tick now means timer by timer: what was due by now has come out, the rest stays
      where it was, and what the overflow list holds comes into the wheel as soon as it is less than
      2^40 ticks away. */
  lemma AdvanceMeans(c: Clock, due0: map<Timer, nat>, overflow0: seq<Timer>, fired: seq<Timer>, now: nat)
    requires Exactly(due0, fired, now) && forall t :: t in overflow0 ==> t !in due0
    ensures forall i, j :: 0 <= i < j < |fired| ==> fired[i] != fired[j]
    ensures forall t :: t in fired <==> t in due0 && due0[t] <= now
    ensures var due := Later(due0, now) + Joining(c, overflow0, now);
            && (forall t :: t in due <==> || (t in due0 && due0[t] > now)
                                          || (t in overflow0 && c.TickFor(t.expireAt) < now + 0x100_0000_0000))
            && (forall t :: t in due && t !in overflow0 ==> due[t] == due0[t])
            && (forall t :: t in due && t in overflow0 ==>
                  now < due[t] && c.TickFor(t.expireAt) <= due[t] <= now + 0x100_0000_0000)
    ensures forall t :: t in Far(c, overflow0, now) <==>
                        t in overflow0 && c.TickFor(t.expireAt) >= now + 0x100_0000_0000
  {
    hide FireTick;
    forall t | t in overflow0 && Near(c, t, now)
      ensures now < FireOf(c, t, now) && c.TickFor(t.expireAt) <= FireOf(c, t, now) <= now + REACH
    {
      FiresInTime(now, c.TickFor(t.expireAt));
    }
  }

  lemma FarOne(c: Clock, waiting: seq<Timer>, i: nat, now: nat)
    requires i < |waiting| && Distinct(waiting)
    ensures var t := waiting[i];
            && t !in Far(c, waiting[..i], now)
            && Far(c, waiting[..i + 1], now) == Far(c, waiting[..i], now) + if Near(c, t, now) then [] else [t]
  {
    hide Near;
    assert waiting[..i + 1][..i] == waiting[..i];
  }

  lemma JoinOne(c: Clock, waiting: seq<Timer>, i: nat, now: nat, due: map<Timer, nat>)
    requires i < |waiting| && Distinct(waiting) && forall t | t in waiting :: t !in due
    ensures var t := waiting[i];
            var sofar, upto := due + Joining(c, waiting[..i], now), due + Joining(c, waiting[..i + 1], now);
            t !in sofar && upto == if Near(c, t, now) then sofar[t := FireOf(c, t, now)] else sofar
  {
    hide Near, FireOf;
    assert waiting[..i + 1] == waiting[..i] + [waiting[i]];
    assert waiting[i] !in waiting[..i];
  }

  lemma NoneJoin(c: Clock, now: nat)
    ensures Joining(c, [], now) == map[] && Far(c, [], now) == []
  {
  }

  lemma Overwrite(m: map<Timer, nat>, t: Timer, n: nat)
    ensures m[t := 0][t := n] == m[t := n]
  {
  }

  lemma DistinctConcat(a: seq<Timer>, b: seq<Timer>)
    requires Distinct(a) && Distinct(b) && forall t | t in b :: t !in a
    ensures Distinct(a + b)
  {
    forall i, j | 0 <= i < j < |a + b| ensures (a + b)[i] != (a + b)[j] {
      if i < |a| <= j {
        assert (a + b)[j] in b && (a + b)[i] in a;
      }
    }
  }

  lemma UnitsGrow(level: nat)
    requires level < LEVELS
    ensures Unit(level) < Unit(level + 1) <= REACH
  {
  }

  lemma CountAdded(m: map<Timer, nat>, t: Timer, n: nat)
    requires t !in m
    ensures |m[t := n]| == |m| + 1
  {
    assert m[t := n].Keys == m.Keys + {t};
    assert |m[t := n]| == |m[t := n].Keys| && |m| == |m.Keys|;
  }

  /** Firing takes as many timers off the schedule as it returns. */
  lemma CountFired(due: map<Timer, nat>, fired: seq<Timer>, now: nat)
    requires Distinct(fired)
    requires forall t :: t in fired <==> t in due && due[t] == now
    requires forall t | t in due :: due[t] >= now
    ensures |Later(due, now)| == |due| - |fired|
  {
    var gone := set t | t in fired;
    CountDistinct(fired);
    assert Later(due, now).Keys == due.Keys - gone;
    assert |Later(due, now)| == |Later(due, now).Keys| && |due| == |due.Keys|;
  }

  lemma {:induction false} CountDistinct(ts: seq<Timer>)
    requires Distinct(ts)
    ensures |set t | t in ts| == |ts|
  {
    if ts != [] {
      var rest := ts[1..];
      CountDistinct(rest);
      assert (set t | t in ts) == {ts[0]} + (set t | t in rest);
    }
  }
}
