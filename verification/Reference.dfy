/** The naive store every result is checked against: one map, lazily reaped. */
module References {
  import opened Bytes
  import opened Shards

  /** A client request. Deadlines are absolute, 0 meaning none. */
  datatype Op =
    | Get(key: Bytes)
    | Set(key: Bytes, value: Bytes, expireAt: nat)
    | Delete(key: Bytes)
    | Exists(key: Bytes)
    | Expire(key: Bytes, expireAt: nat)
    | TTL(key: Bytes)

  datatype Reply =
    | Value(value: Bytes, found: bool)
    | Stored
    | Flag(ok: bool)
    | Remaining(ms: int, found: bool)

  /** The remaining lifetime: -1 without a deadline, never below 0. */
  function Left(c: Cell, nowMs: nat): (ms: int) {
    if c.expireAt == 0 then -1 else if c.expireAt < nowMs then 0 else c.expireAt - nowMs
  }

  /** What a client is told, from what it can see of the key. */
  function Answer(seen: bool, c: Cell, op: Op, nowMs: nat): (r: Reply) {
    match op
    case Get(_) => Value(if seen then c.value else [], seen)
    case Set(_, _, _) => Stored
    case Delete(_) => Flag(seen)
    case Exists(_) => Flag(seen)
    case Expire(_, _) => Flag(seen)
    case TTL(_) => Remaining(if seen then Left(c, nowMs) else 0, seen)
  }

  /** The reference's state after one request: an expired key is dropped when it is touched. */
  function RefAfter(m: map<Bytes, Cell>, op: Op, nowMs: nat): (r: map<Bytes, Cell>) {
    var k := op.key;
    var seen := k in m && !m[k].Expired(nowMs);
    match op
    case Set(_, value, expireAt) => m[k := Cell(value, expireAt)]
    case Delete(_) => m - {k}
    case Expire(_, expireAt) => if seen then m[k := Cell(m[k].value, expireAt)] else m - {k}
    case _ => if seen then m else m - {k}
  }

  function RefReply(m: map<Bytes, Cell>, op: Op, nowMs: nat): (r: Reply) {
    var seen := op.key in m && !m[op.key].Expired(nowMs);
    Answer(seen, if seen then m[op.key] else Cell([], 0), op, nowMs)
  }

  lemma SetAnyTime(m: map<Bytes, Cell>, k: Bytes, v: Bytes, d: nat, now: nat)
    ensures RefAfter(m, Op.Set(k, v, d), 0) == RefAfter(m, Op.Set(k, v, d), now)
  {
  }

  class Reference {
    var data: map<Bytes, Cell>

    constructor ()
      ensures data == map[]
    {
      data := map[];
    }

    method Live(k: Bytes, nowMs: nat) returns (c: Cell, ok: bool)
      modifies this
      ensures ok <==> k in old(data) && !old(data)[k].Expired(nowMs)
      ensures data == (if ok then old(data) else old(data) - {k}) && c == (if ok then old(data)[k] else Cell([], 0))
    {
      MinusAll(data, k);
      if k !in data {
        return Cell([], 0), false;
      }
      c := data[k];
      if c.Expired(nowMs) {
        data := data - {k};
        return Cell([], 0), false;
      }
      ok := true;
    }

    method Do(op: Op, nowMs: nat) returns (r: Reply)
      modifies this
      ensures data == RefAfter(old(data), op, nowMs) && r == RefReply(old(data), op, nowMs)
    {
      if op.Set? {
        data := data[op.key := Cell(op.value, op.expireAt)];
        return Stored;
      }
      var c, ok := Live(op.key, nowMs);
      if op.Delete? {
        data := data - {op.key};
      } else if op.Expire? && ok {
        data := data[op.key := c.(expireAt := op.expireAt)];
      }
      match op {
        case Get(_) => r := Value(c.value, ok);
        case TTL(_) => r := if !ok then Remaining(0, false) else Remaining(Left(c, nowMs), true);
        case _ => r := Flag(ok);
      }
    }
  }
}
