/** The wire protocol: command bodies and frames. */
module Protocol {
  import opened Bytes

  const MAX_KEY_LEN: nat := 0xffff
  const MAX_VALUE_LEN: nat := 0x100_0000
  const MAX_FRAME_LEN: nat := MAX_VALUE_LEN + MAX_KEY_LEN + 64
  const HEADER_LEN: nat := 16
  const MAGIC: nat := 0x564B
  const VERSION: Byte := 1
  const ALL_FLAGS: nat := 1

  // Fields

  datatype Parsed<T> = Got(value: T, rest: Bytes) | Short

  function TakeNum(b: Bytes, k: nat): (r: Parsed<nat>) {
    if |b| < k then Short else Got(FromLE(b[..k]), b[k..])
  }

  /** A byte string behind its own length. */
  function TakeStr(b: Bytes, k: nat): (r: Parsed<Bytes>) {
    var n := TakeNum(b, k);
    if n.Short? || |n.rest| < n.value then Short else Got(n.rest[..n.value], n.rest[n.value..])
  }

  function Str(s: Bytes, k: nat): (b: Bytes) {
    LE(|s|, k) + s
  }

  predicate NumFits(n: nat, k: nat) {
    (k == 2 && n < U16) || (k == 4 && n < U32) || (k == 8 && n < U64)
  }

  lemma TakeNumOf(n: nat, k: nat, t: Bytes)
    requires NumFits(n, k)
    ensures TakeNum(LE(n, k) + t, k) == Got(n, t)
  {
    hide LE, FromLE;
    LEFits(n, k);
    var b := LE(n, k) + t;
    assert b[..k] == LE(n, k) && b[k..] == t;
  }

  lemma TakeNumBack(b: Bytes, k: nat)
    requires TakeNum(b, k).Got? && (k == 2 || k == 4 || k == 8)
    ensures NumFits(TakeNum(b, k).value, k) && b == LE(TakeNum(b, k).value, k) + TakeNum(b, k).rest
  {
    hide LE, FromLE;
    FromLEFits(b[..k]);
  }

  lemma TakeStrOf(s: Bytes, k: nat, t: Bytes)
    requires NumFits(|s|, k)
    ensures TakeStr(Str(s, k) + t, k) == Got(s, t)
  {
    hide LE, TakeNum;
    var x := LE(|s|, k);
    assert Str(s, k) + t == x + (s + t);
    TakeNumOf(|s|, k, s + t);
    assert (s + t)[..|s|] == s && (s + t)[|s|..] == t;
  }

  lemma TakeStrBack(b: Bytes, k: nat)
    requires TakeStr(b, k).Got? && (k == 2 || k == 4)
    ensures NumFits(|TakeStr(b, k).value|, k) && b == Str(TakeStr(b, k).value, k) + TakeStr(b, k).rest
  {
    hide LE, TakeNum;
    TakeNumBack(b, k);
    var n := TakeNum(b, k);
    var x, s, r := LE(n.value, k), n.rest[..n.value], n.rest[n.value..];
    assert n.rest == s + r;
    assert x + (s + r) == (x + s) + r;
  }

  // Commands

  datatype Command = Command(op: Byte, key: Bytes, value: Bytes, ttl: nat, limit: nat, fromLSN: nat, nodeID: Bytes,
                             nodePort: nat)

  function Bare(op: Byte): (c: Command) {
    Command(op, [], [], 0, 0, 0, [], 0)
  }

  datatype Shape = NoBody | KeyOnly | KeyValueTtl | KeyTtl | KeyLimit | Node | Lsn | Unknown

  /** PING, GET, SET, DELETE, EXISTS, EXPIRE, STATS, TTL, FLUSH, SNAPSHOT and KEYS are 1 to 11;
      REPLCONF, SYNC, REPLACK and PROMOTE are 16 to 19. */
  function ShapeOf(op: Byte): (s: Shape) {
    if op in {1, 7, 9, 10, 19} then NoBody
    else if op in {2, 4, 5, 8} then KeyOnly
    else if op == 3 then KeyValueTtl
    else if op == 6 then KeyTtl
    else if op == 11 then KeyLimit
    else if op == 16 then Node
    else if op in {17, 18} then Lsn
    else Unknown
  }

  /** A command that says nothing its opcode has no room for. */
  predicate Valid(c: Command) {
    && |c.key| <= MAX_KEY_LEN && |c.value| <= MAX_VALUE_LEN && c.ttl < U64 && c.limit < U32
    && c.fromLSN < U64 && |c.nodeID| < U16 && c.nodePort < U16
    && match ShapeOf(c.op)
       case NoBody => c == Bare(c.op)
       case KeyOnly => c == Bare(c.op).(key := c.key)
       case KeyValueTtl => c == Bare(c.op).(key := c.key, value := c.value, ttl := c.ttl)
       case KeyTtl => c == Bare(c.op).(key := c.key, ttl := c.ttl)
       case KeyLimit => c == Bare(c.op).(key := c.key, limit := c.limit)
       case Node => c == Bare(c.op).(nodeID := c.nodeID, nodePort := c.nodePort)
       case Lsn => c == Bare(c.op).(fromLSN := c.fromLSN)
       case Unknown => false
  }

  function EncodeOf(c: Command): (b: Bytes) {
    match ShapeOf(c.op)
    case NoBody => []
    case KeyOnly => Str(c.key, 2)
    case KeyValueTtl => Str(c.key, 2) + Str(c.value, 4) + LE(c.ttl, 8)
    case KeyTtl => Str(c.key, 2) + LE(c.ttl, 8)
    case KeyLimit => Str(c.key, 2) + LE(c.limit, 4)
    case Node => Str(c.nodeID, 2) + LE(c.nodePort, 2)
    case Lsn => LE(c.fromLSN, 8)
    case Unknown => []
  }

  datatype Error = Truncated | TrailingBytes | ValueTooLong | UnknownOpcode | BadMagic | BadVersion | UnknownFlags |
                   ReservedSet | FrameTooLarge

  datatype Result<T> = Ok(value: T) | Err(error: Error)

  /** The body has to be used up exactly. */
  function Finish(c: Command, rest: Bytes): (r: Result<Command>) {
    if rest == [] then Ok(c) else Err(TrailingBytes)
  }

  function DecodeOf(op: Byte, b: Bytes): (r: Result<Command>) {
    var c := Bare(op);
    match ShapeOf(op)
    case NoBody => Finish(c, b)
    case KeyOnly =>
      var k := TakeStr(b, 2);
      if k.Short? then Err(Truncated) else Finish(c.(key := k.value), k.rest)
    case KeyValueTtl => DecodeSet(c, b)
    case KeyTtl =>
      var k := TakeStr(b, 2);
      if k.Short? || TakeNum(k.rest, 8).Short? then Err(Truncated)
      else Finish(c.(key := k.value, ttl := TakeNum(k.rest, 8).value), TakeNum(k.rest, 8).rest)
    case KeyLimit =>
      var k := TakeStr(b, 2);
      if k.Short? || TakeNum(k.rest, 4).Short? then Err(Truncated)
      else Finish(c.(key := k.value, limit := TakeNum(k.rest, 4).value), TakeNum(k.rest, 4).rest)
    case Node =>
      var k := TakeStr(b, 2);
      if k.Short? || TakeNum(k.rest, 2).Short? then Err(Truncated)
      else Finish(c.(nodeID := k.value, nodePort := TakeNum(k.rest, 2).value), TakeNum(k.rest, 2).rest)
    case Lsn =>
      var n := TakeNum(b, 8);
      if n.Short? then Err(Truncated) else Finish(c.(fromLSN := n.value), n.rest)
    case Unknown => Err(UnknownOpcode)
  }

  /** A value length over the limit is refused before the value is looked for. */
  function DecodeSet(c: Command, b: Bytes): (r: Result<Command>) {
    var k := TakeStr(b, 2);
    if k.Short? || TakeNum(k.rest, 4).Short? then Err(Truncated)
    else if TakeNum(k.rest, 4).value > MAX_VALUE_LEN then Err(ValueTooLong)
    else
      var v := TakeStr(k.rest, 4);
      if v.Short? || TakeNum(v.rest, 8).Short? then Err(Truncated)
      else Finish(c.(key := k.value, value := v.value, ttl := TakeNum(v.rest, 8).value), TakeNum(v.rest, 8).rest)
  }

  lemma PlusNone(b: Bytes)
    ensures b + [] == b
  {
  }

  lemma DecodeSetOf(c: Command)
    requires Valid(c) && ShapeOf(c.op).KeyValueTtl?
    ensures DecodeSet(Bare(c.op), EncodeOf(c)) == Ok(c)
  {
    hide TakeNum, TakeStr, LE, Str;
    var x, y, z := Str(c.key, 2), Str(c.value, 4), LE(c.ttl, 8);
    assert x + y + z == x + (y + z);
    TakeStrOf(c.key, 2, y + z);
    TakeStrOf(c.value, 4, z);
    ValueLength(c.value, z);
    TakeNumOf(c.ttl, 8, []);
    PlusNone(z);
  }

  lemma ValueLength(v: Bytes, t: Bytes)
    requires |v| <= MAX_VALUE_LEN
    ensures TakeNum(Str(v, 4) + t, 4).Got? && TakeNum(Str(v, 4) + t, 4).value == |v|
  {
    hide TakeNum, LE;
    var x := LE(|v|, 4);
    assert x + v + t == x + (v + t);
    TakeNumOf(|v|, 4, v + t);
  }

  /** Decoding what was encoded gives the command back, for every opcode. */
  lemma DecodeOfEncode(c: Command)
    requires Valid(c)
    ensures DecodeOf(c.op, EncodeOf(c)) == Ok(c)
  {
    hide TakeNum, TakeStr, LE, Str, DecodeSet;
    match ShapeOf(c.op)
    case NoBody =>
    case KeyOnly => TakeStrOf(c.key, 2, []); PlusNone(Str(c.key, 2));
    case KeyValueTtl => DecodeSetOf(c);
    case KeyTtl => TakeStrOf(c.key, 2, LE(c.ttl, 8)); TakeNumOf(c.ttl, 8, []); PlusNone(LE(c.ttl, 8));
    case KeyLimit => TakeStrOf(c.key, 2, LE(c.limit, 4)); TakeNumOf(c.limit, 4, []); PlusNone(LE(c.limit, 4));
    case Node => TakeStrOf(c.nodeID, 2, LE(c.nodePort, 2)); TakeNumOf(c.nodePort, 2, []); PlusNone(LE(c.nodePort, 2));
    case Lsn => TakeNumOf(c.fromLSN, 8, []); PlusNone(LE(c.fromLSN, 8));
    case Unknown =>
  }

  lemma EncodeSetBack(op: Byte, b: Bytes)
    requires ShapeOf(op).KeyValueTtl? && DecodeSet(Bare(op), b).Ok?
    ensures var c := DecodeSet(Bare(op), b).value; c.op == op && Valid(c) && EncodeOf(c) == b
  {
    hide TakeNum, LE, Str;
    var k := TakeStr(b, 2);
    var v := TakeStr(k.rest, 4);
    TakeStrBack(b, 2);
    TakeStrBack(k.rest, 4);
    ValueLengthBack(k.rest);
    TakeNumBack(v.rest, 8);
    var x, y, z := Str(k.value, 2), Str(v.value, 4), LE(TakeNum(v.rest, 8).value, 8);
    PlusNone(z);
    assert x + (y + z) == x + y + z;
  }

  lemma ValueLengthBack(b: Bytes)
    requires TakeStr(b, 4).Got?
    ensures |TakeStr(b, 4).value| == TakeNum(b, 4).value
  {
  }

  /** And no body but the encoder's own is accepted: the codec is a bijection between valid
      commands and accepted bodies. */
  lemma EncodeOfDecode(op: Byte, b: Bytes)
    requires DecodeOf(op, b).Ok?
    ensures var c := DecodeOf(op, b).value; c.op == op && Valid(c) && EncodeOf(c) == b
  {
    hide TakeNum, TakeStr, LE, Str, DecodeSet;
    match ShapeOf(op)
    case NoBody =>
    case KeyOnly =>
      TakeStrBack(b, 2);
      PlusNone(Str(TakeStr(b, 2).value, 2));
    case KeyValueTtl =>
      EncodeSetBack(op, b);
    case KeyTtl =>
      TakeStrBack(b, 2);
      TakeNumBack(TakeStr(b, 2).rest, 8);
      PlusNone(LE(TakeNum(TakeStr(b, 2).rest, 8).value, 8));
    case KeyLimit =>
      TakeStrBack(b, 2);
      TakeNumBack(TakeStr(b, 2).rest, 4);
      PlusNone(LE(TakeNum(TakeStr(b, 2).rest, 4).value, 4));
    case Node =>
      TakeStrBack(b, 2);
      TakeNumBack(TakeStr(b, 2).rest, 2);
      PlusNone(LE(TakeNum(TakeStr(b, 2).rest, 2).value, 2));
    case Lsn =>
      TakeNumBack(b, 8);
      PlusNone(LE(TakeNum(b, 8).value, 8));
  }

  /** The bodies that are accepted, opcode by opcode, and what is read from each. */
  lemma BodyLayout(op: Byte, b: Bytes)
    ensures op !in {1, 2, 3, 4, 5, 6, 7, 8, 9, 10, 11, 16, 17, 18, 19} ==> DecodeOf(op, b) == Err(UnknownOpcode)
    ensures DecodeOf(op, b).Ok? ==>
      var c := DecodeOf(op, b).value;
      && (op in {1, 7, 9, 10, 19} ==> b == [] && c == Command(op, [], [], 0, 0, 0, [], 0))
      && (op in {2, 4, 5, 8} ==> b == LE(|c.key|, 2) + c.key && c == Command(op, c.key, [], 0, 0, 0, [], 0))
      && (op == 3 ==>
            && b == LE(|c.key|, 2) + c.key + (LE(|c.value|, 4) + c.value) + LE(c.ttl, 8)
            && |c.value| <= 0x100_0000 && c == Command(op, c.key, c.value, c.ttl, 0, 0, [], 0))
      && (op == 6 ==> b == LE(|c.key|, 2) + c.key + LE(c.ttl, 8) && c == Command(op, c.key, [], c.ttl, 0, 0, [], 0))
      && (op == 11 ==>
            b == LE(|c.key|, 2) + c.key + LE(c.limit, 4) && c == Command(op, c.key, [], 0, c.limit, 0, [], 0))
      && (op == 16 ==>
            && b == LE(|c.nodeID|, 2) + c.nodeID + LE(c.nodePort, 2)
            && c == Command(op, [], [], 0, 0, 0, c.nodeID, c.nodePort))
      && (op in {17, 18} ==> b == LE(c.fromLSN, 8) && c == Command(op, [], [], 0, 0, c.fromLSN, [], 0))
  {
    hide LE, DecodeSet, TakeNum, TakeStr;
    if DecodeOf(op, b).Ok? {
      EncodeOfDecode(op, b);
    }
  }

  // The decoder as it runs: a cursor that fails once and for all

  class Cursor {
    const b: Bytes
    var off: nat
    var failed: bool

    constructor (b: Bytes)
      ensures this.b == b && off == 0 && !failed
    {
      this.b, off, failed := b, 0, false;
    }

    ghost predicate Valid()
      reads this
    {
      off <= |b|
    }

    ghost function Rest(): (r: Bytes)
      reads this
      requires Valid()
    {
      b[off..]
    }

    /** A k-byte number, or 0 after a failure. */
    method Num(k: nat) returns (v: nat)
      requires Valid()
      modifies `off, `failed
      ensures Valid() && failed == (old(failed) || TakeNum(old(Rest()), k).Short?)
      ensures !failed ==> v == TakeNum(old(Rest()), k).value && Rest() == TakeNum(old(Rest()), k).rest
      ensures failed ==> v == 0
    {
      if failed || |b| - off < k {
        failed := true;
        return 0;
      }
      assert b[off..][..k] == b[off..off + k];
      v := FromLE(b[off..off + k]);
      off := off + k;
    }

    method Take(n: nat) returns (v: Bytes)
      requires Valid()
      modifies `off, `failed
      ensures Valid() && failed == (old(failed) || |old(Rest())| < n)
      ensures !failed ==> v == old(Rest())[..n] && Rest() == old(Rest())[n..]
      ensures failed ==> v == []
    {
      if failed || |b| - off < n {
        failed := true;
        return [];
      }
      v := b[off..off + n];
      off := off + n;
    }

    method String(k: nat) returns (v: Bytes)
      requires Valid()
      modifies `off, `failed
      ensures Valid() && failed == (old(failed) || TakeStr(old(Rest()), k).Short?)
      ensures !failed ==> v == TakeStr(old(Rest()), k).value && Rest() == TakeStr(old(Rest()), k).rest
    {
      hide FromLE;
      var n := Num(k);
      v := Take(n);
    }

    method Close(c: Command) returns (r: Result<Command>)
      requires Valid()
      ensures r == if failed then Err(Truncated) else Finish(c, Rest())
    {
      if failed {
        return Err(Truncated);
      }
      r := if off < |b| then Err(TrailingBytes) else Ok(c);
    }
  }

  method DecodeCommand(op: Byte, body: Bytes) returns (r: Result<Command>)
    ensures r == DecodeOf(op, body)
  {
    hide TakeNum, TakeStr;
    var cmd := Bare(op);
    var c := new Cursor(body);
    assert c.Rest() == body;
    match ShapeOf(op) {
      case NoBody =>
      case KeyOnly =>
        var k := c.String(2);
        cmd := cmd.(key := k);
      case KeyValueTtl =>
        r := DecodeSetBody(cmd, body);
        return;
      case KeyTtl =>
        var k := c.String(2);
        var n := c.Num(8);
        cmd := cmd.(key := k, ttl := n);
      case KeyLimit =>
        var k := c.String(2);
        var n := c.Num(4);
        cmd := cmd.(key := k, limit := n);
      case Node =>
        var k := c.String(2);
        var n := c.Num(2);
        cmd := cmd.(nodeID := k, nodePort := n);
      case Lsn =>
        var n := c.Num(8);
        cmd := cmd.(fromLSN := n);
      case Unknown =>
        return Err(UnknownOpcode);
    }
    r := c.Close(cmd);
  }

  lemma StrInTwo(b: Bytes, k: nat)
    ensures var n := TakeNum(b, k);
            TakeStr(b, k) ==
            if n.Short? || |n.rest| < n.value then Short else Got(n.rest[..n.value], n.rest[n.value..])
  {
    hide TakeNum;
  }

  method DecodeSetBody(cmd: Command, body: Bytes) returns (r: Result<Command>)
    ensures r == DecodeSet(cmd, body)
  {
    hide TakeNum, TakeStr;
    if TakeStr(body, 2).Got? {
      StrInTwo(TakeStr(body, 2).rest, 4);
    }
    var c := new Cursor(body);
    assert c.Rest() == body;
    var k := c.String(2);
    var n := c.Num(4);
    if n > MAX_VALUE_LEN {
      return Err(ValueTooLong);
    }
    var v := c.Take(n);
    var t := c.Num(8);
    r := c.Close(cmd.(key := k, value := v, ttl := t));
  }

  // The KEYS answer

  predicate KeysFit(ks: seq<Bytes>) {
    |ks| < U32 && forall i :: 0 <= i < |ks| ==> |ks[i]| <= MAX_KEY_LEN
  }

  function Strs(ks: seq<Bytes>): (b: Bytes) {
    if ks == [] then [] else Str(ks[0], 2) + Strs(ks[1..])
  }

  function TakeStrs(b: Bytes, n: nat): (r: Parsed<seq<Bytes>>)
    decreases n, b
  {
    if n == 0 then Got([], b)
    else
      var k := TakeStr(b, 2);
      if k.Short? then Short
      else
        var rest := TakeStrs(k.rest, n - 1);
        if rest.Short? then Short else Got([k.value] + rest.value, rest.rest)
  }

  /** A count that could not fit in what follows is refused up front. */
  function DecodeKeysOf(b: Bytes): (r: Result<seq<Bytes>>) {
    var n := TakeNum(b, 4);
    if n.Short? || n.value > |n.rest| / 2 then Err(Truncated)
    else
      var ks := TakeStrs(n.rest, n.value);
      if ks.Short? then Err(Truncated) else if ks.rest != [] then Err(TrailingBytes) else Ok(ks.value)
  }

  lemma {:induction false} TakeStrsOf(ks: seq<Bytes>)
    requires forall i :: 0 <= i < |ks| ==> |ks[i]| <= MAX_KEY_LEN
    ensures TakeStrs(Strs(ks), |ks|) == Got(ks, []) && |Strs(ks)| >= 2 * |ks|
  {
    hide TakeStr, LE;
    if ks != [] {
      TakeStrOf(ks[0], 2, Strs(ks[1..]));
      TakeStrsOf(ks[1..]);
      assert ks == [ks[0]] + ks[1..];
    }
  }

  lemma {:induction false} TakeStrsBack(b: Bytes, n: nat)
    requires TakeStrs(b, n).Got?
    ensures var r := TakeStrs(b, n); |r.value| == n && b == Strs(r.value) + r.rest && forall i :: 0 <= i < n ==>
      |r.value[i]| <= MAX_KEY_LEN
    decreases n
  {
    hide TakeStr, LE;
    if n > 0 {
      var k := TakeStr(b, 2);
      TakeStrBack(b, 2);
      TakeStrsBack(k.rest, n - 1);
      var rest := TakeStrs(k.rest, n - 1);
      var x, y, z := Str(k.value, 2), Strs(rest.value), rest.rest;
      assert x + (y + z) == (x + y) + z;
      assert ([k.value] + rest.value)[1..] == rest.value;
    }
  }

  lemma DecodeKeysOfEncode(ks: seq<Bytes>)
    requires KeysFit(ks)
    ensures DecodeKeysOf(LE(|ks|, 4) + Strs(ks)) == Ok(ks)
  {
    hide TakeNum, TakeStrs, LE, Strs;
    TakeNumOf(|ks|, 4, Strs(ks));
    TakeStrsOf(ks);
  }

  lemma EncodeKeysOfDecode(b: Bytes)
    requires DecodeKeysOf(b).Ok?
    ensures var ks := DecodeKeysOf(b).value; KeysFit(ks) && b == LE(|ks|, 4) + Strs(ks)
  {
    hide TakeNum, TakeStrs, LE, Strs;
    var n := TakeNum(b, 4);
    TakeNumBack(b, 4);
    TakeStrsBack(n.rest, n.value);
    PlusNone(Strs(TakeStrs(n.rest, n.value).value));
  }

  method EncodeKeysBody(dst: Bytes, ks: seq<Bytes>) returns (out: Bytes)
    ensures out == dst + (LE(|ks|, 4) + Strs(ks))
  {
    hide LE;
    out := dst + LE(|ks|, 4);
    assert ks[0..] == ks;
    for i := 0 to |ks|
      invariant out + Strs(ks[i..]) == dst + (LE(|ks|, 4) + Strs(ks))
    {
      assert ks[i..][1..] == ks[i + 1..];
      out := out + LE(|ks[i]|, 2) + ks[i];
    }
    assert ks[|ks|..] == [];
    PlusNone(out);
  }

  method DecodeKeysBody(body: Bytes) returns (r: Result<seq<Bytes>>)
    ensures r == DecodeKeysOf(body)
  {
    hide TakeNum, TakeStr;
    var c := new Cursor(body);
    assert c.Rest() == body;
    var n := c.Num(4);
    if c.failed || n > (|c.b| - c.off) / 2 {
      return Err(Truncated);
    }

    ghost var start := c.Rest();
    var ks: seq<Bytes> := [];
    OntoNone(TakeStrs(start, n));
    for i := 0 to n
      invariant c.Valid() && fresh(c) && c.b == body && |ks| == i
      invariant c.failed ==> TakeStrs(start, n).Short?
      invariant !c.failed ==> TakeStrs(start, n) == Onto(ks, TakeStrs(c.Rest(), n - i))
    {
      ghost var before := c.Rest();
      var k := c.String(2);
      OntoStep(ks, before, n - i);
      ks := ks + [k];
    }
    if c.failed {
      return Err(Truncated);
    }
    PlusNil(ks);
    r := if c.off < |c.b| then Err(TrailingBytes) else Ok(ks);
  }

  lemma PlusNil(ks: seq<Bytes>)
    ensures ks + [] == ks
  {
  }

  function Onto(ks: seq<Bytes>, p: Parsed<seq<Bytes>>): (r: Parsed<seq<Bytes>>) {
    if p.Short? then Short else Got(ks + p.value, p.rest)
  }

  lemma OntoNone(p: Parsed<seq<Bytes>>)
    ensures Onto([], p) == p
  {
    assert p.Got? ==> [] + p.value == p.value;
  }

  lemma OntoStep(ks: seq<Bytes>, b: Bytes, n: nat)
    requires n > 0
    ensures var k := TakeStr(b, 2);
            if k.Short? then Onto(ks, TakeStrs(b, n)) == Short
            else Onto(ks, TakeStrs(b, n)) == Onto(ks + [k.value], TakeStrs(k.rest, n - 1))
  {
    hide TakeStr;
    var k := TakeStr(b, 2);
    if k.Got? && TakeStrs(k.rest, n - 1).Got? {
      var more := TakeStrs(k.rest, n - 1).value;
      assert ks + ([k.value] + more) == (ks + [k.value]) + more;
    }
  }

  // Frames

  datatype Header = Header(version: Byte, code: Byte, flags: nat, reserved: nat, requestID: nat, bodyLen: nat) {
    predicate Fits() {
      flags < U16 && reserved < U16 && requestID < U32 && bodyLen < U32
    }

    /** What a receiver accepts. */
    predicate Acceptable() {
      version == VERSION && flags <= ALL_FLAGS && reserved == 0 && requestID < U32 && bodyLen <= MAX_FRAME_LEN
    }
  }

  function EncodeHeader(h: Header): (b: Bytes)
    ensures |b| == HEADER_LEN
  {
    LE(MAGIC, 2) + [h.version, h.code] + LE(h.flags, 2) + LE(h.reserved, 2) + LE(h.requestID, 4) + LE(h.bodyLen, 4)
  }

  /** Checked in this order; unknown flag bits are those other than the lowest. */
  function DecodeHeader(b: Bytes): (r: Result<Header>) {
    if |b| < HEADER_LEN then Err(Truncated)
    else if FromLE(b[..2]) != MAGIC then Err(BadMagic)
    else if b[2] != VERSION then Err(BadVersion)
    else if FromLE(b[4..6]) / 2 != 0 then Err(UnknownFlags)
    else if FromLE(b[6..8]) != 0 then Err(ReservedSet)
    else if FromLE(b[12..16]) > MAX_FRAME_LEN then Err(FrameTooLarge)
    else Ok(Header(b[2], b[3], FromLE(b[4..6]), FromLE(b[6..8]), FromLE(b[8..12]), FromLE(b[12..16])))
  }

  lemma HeaderParts(h: Header, t: Bytes)
    ensures var b := EncodeHeader(h) + t;
            && b[..2] == LE(MAGIC, 2) && b[2] == h.version && b[3] == h.code
            && b[4..6] == LE(h.flags, 2) && b[6..8] == LE(h.reserved, 2)
            && b[8..12] == LE(h.requestID, 4) && b[12..16] == LE(h.bodyLen, 4)
            && b[..16] == EncodeHeader(h) && b[16..] == t
  {
    hide LE;
  }

  /** A header comes back unchanged if the receiver accepts it, and is refused otherwise. */
  lemma DecodeHeaderOf(h: Header)
    requires h.Fits()
    ensures DecodeHeader(EncodeHeader(h)) == Ok(h) <==> h.Acceptable()
    ensures DecodeHeader(EncodeHeader(h)).Ok? <==> h.Acceptable()
  {
    hide LE, FromLE, EncodeHeader;
    HeaderParts(h, []);
    PlusNone(EncodeHeader(h));
    LEFits(MAGIC, 2);
    LEFits(h.flags, 2);
    LEFits(h.reserved, 2);
    LEFits(h.requestID, 4);
    LEFits(h.bodyLen, 4);
  }

  lemma EncodeHeaderOf(b: Bytes)
    requires |b| == HEADER_LEN && DecodeHeader(b).Ok?
    ensures DecodeHeader(b).value.Acceptable() && EncodeHeader(DecodeHeader(b).value) == b
  {
    hide LE, FromLE;
    FromLEFits(b[..2]);
    FromLEFits(b[4..6]);
    FromLEFits(b[6..8]);
    FromLEFits(b[8..12]);
    FromLEFits(b[12..16]);
    assert b == b[..2] + [b[2], b[3]] + b[4..6] + b[6..8] + b[8..12] + b[12..16];
  }

  datatype Frame = Frame(header: Header, body: Bytes) {
    /** A frame that may be sent: the header's length is the body's. */
    predicate Sendable() {
      header.Acceptable() && header.bodyLen == |body|
    }
  }

  /** The length field is set from the body. */
  function WriteFrame(h: Header, body: Bytes): (b: Bytes) {
    EncodeHeader(h.(bodyLen := |body|)) + body
  }

  datatype Outcome = Received(frame: Frame, rest: Bytes) | Closed | Died | Refused(error: Error)

  /** One frame off a byte stream. A stream that ends between frames is closed; one that ends
      inside a frame has died. */
  function ReadFrameOf(s: Bytes, maxBody: nat): (r: Outcome) {
    if s == [] then Closed
    else if |s| < HEADER_LEN then Died
    else
      var h := DecodeHeader(s[..HEADER_LEN]);
      var cap := if maxBody == 0 || maxBody > MAX_FRAME_LEN then MAX_FRAME_LEN else maxBody;
      if h.Err? then Refused(h.error)
      else if h.value.bodyLen > cap then Refused(FrameTooLarge)
      else if |s| < HEADER_LEN + h.value.bodyLen then Died
      else Received(Frame(h.value, s[HEADER_LEN..HEADER_LEN + h.value.bodyLen]), s[HEADER_LEN + h.value.bodyLen..])
  }

  function WriteAll(fs: seq<Frame>): (b: Bytes) {
    if fs == [] then [] else WriteFrame(fs[0].header, fs[0].body) + WriteAll(fs[1..])
  }

  /** Frame after frame until the stream ends. */
  function ReadAll(s: Bytes, maxBody: nat): (r: (seq<Frame>, Outcome))
    decreases |s|
  {
    var f := ReadFrameOf(s, maxBody);
    if f.Received? then var (fs, end) := ReadAll(f.rest, maxBody); ([f.frame] + fs, end) else ([], f)
  }

  lemma ReadFrameBack(f: Frame, t: Bytes, maxBody: nat)
    requires f.Sendable() && (maxBody == 0 || |f.body| <= maxBody)
    ensures ReadFrameOf(WriteFrame(f.header, f.body) + t, maxBody) == Received(f, t)
  {
    hide EncodeHeader, DecodeHeader;
    var x := EncodeHeader(f.header);
    assert f.header.(bodyLen := |f.body|) == f.header;
    var s := x + f.body + t;
    assert s[..16] == x && s[16..16 + |f.body|] == f.body && s[16 + |f.body|..] == t;
    DecodeHeaderOf(f.header);
  }

  /** And nothing else is read: a frame that is received is one that was written, within the limits. */
  lemma ReadFrameSound(s: Bytes, maxBody: nat)
    requires ReadFrameOf(s, maxBody).Received?
    ensures var r := ReadFrameOf(s, maxBody);
            && s == WriteFrame(r.frame.header, r.frame.body) + r.rest && r.frame.Sendable()
            && |r.frame.body| <= 0x101_003F && (maxBody == 0 || |r.frame.body| <= maxBody)
  {
    hide EncodeHeader, DecodeHeader;
    EncodeHeaderOf(s[..16]);
    var h := DecodeHeader(s[..16]).value;
    var n := h.bodyLen;
    assert h.(bodyLen := n) == h;
    assert s == s[..16] + s[16..16 + n] + s[16 + n..];
  }

  /** A stream that ends inside a frame has died, wherever that is; one that ends before it is closed. */
  lemma CutFrame(f: Frame, n: nat, maxBody: nat)
    requires f.Sendable() && (maxBody == 0 || |f.body| <= maxBody) && n < |WriteFrame(f.header, f.body)|
    ensures ReadFrameOf(WriteFrame(f.header, f.body)[..n], maxBody) == if n == 0 then Closed else Died
  {
    hide EncodeHeader, DecodeHeader;
    var x := EncodeHeader(f.header);
    assert f.header.(bodyLen := |f.body|) == f.header;
    DecodeHeaderOf(f.header);
    if n >= 16 {
      assert (x + f.body)[..n][..16] == x;
    }
  }

  /** Reading any concatenation of written frames gives those frames, in order, and then a
      clean end of stream. */
  lemma {:induction false} ReadAllOfWriteAll(fs: seq<Frame>, maxBody: nat)
    requires forall i :: 0 <= i < |fs| ==> fs[i].Sendable() && (maxBody == 0 || |fs[i].body| <= maxBody)
    ensures ReadAll(WriteAll(fs), maxBody) == (fs, Closed)
  {
    if fs != [] {
      hide WriteFrame, ReadFrameOf;
      ReadFrameBack(fs[0], WriteAll(fs[1..]), maxBody);
      ReadAllOfWriteAll(fs[1..], maxBody);
      assert fs == [fs[0]] + fs[1..];
    }
  }

  /** A socket's receiving side: what has not been read yet. */
  class Stream {
    var rest: Bytes

    constructor (data: Bytes)
      ensures rest == data
    {
      rest := data;
    }

    /** io.ReadFull: all n bytes, nothing at the very end, or a part of them. */
    method ReadFull(n: nat) returns (got: Bytes, full: bool)
      modifies this
      ensures full == (|old(rest)| >= n)
      ensures got == (if full then old(rest)[..n] else old(rest)) && rest == old(rest)[|got|..]
    {
      got := if |rest| >= n then rest[..n] else rest;
      full := |rest| >= n;
      rest := rest[|got|..];
    }

    method ReadFrame(maxBody: nat) returns (r: Outcome)
      modifies this
      ensures r == ReadFrameOf(old(rest), maxBody) && (r.Received? ==> rest == r.rest)
    {
      hide DecodeHeader;
      ghost var s := rest;
      var head, full := ReadFull(HEADER_LEN);
      if !full {
        return if head == [] then Closed else Died;
      }
      var h := DecodeHeader(head);
      if h.Err? {
        return Refused(h.error);
      }
      var cap := if maxBody == 0 || maxBody > MAX_FRAME_LEN then MAX_FRAME_LEN else maxBody;
      if h.value.bodyLen > cap {
        return Refused(FrameTooLarge);
      }
      if h.value.bodyLen == 0 {
        return Received(Frame(h.value, []), rest);
      }
      var body;
      body, full := ReadFull(h.value.bodyLen);
      if !full {
        return Died;
      }
      assert s[HEADER_LEN..][..h.value.bodyLen] == s[HEADER_LEN..HEADER_LEN + h.value.bodyLen];
      r := Received(Frame(h.value, body), rest);
    }
  }

  /** A socket's sending side, which may take less than it is given. */
  class Sink {
    var out: Bytes

    method Write(p: Bytes, takes: nat, fails: bool) returns (n: nat, err: bool)
      modifies this
      ensures n == (if takes < |p| then takes else |p|) && err == fails && out == old(out) + p[..n]
    {
      n := if takes < |p| then takes else |p|;
      err := fails;
      out := out + p[..n];
    }
  }

  datatype Sent = All | Failed | ShortWrite

  /** Loops over short writes. What has gone out is always a prefix, and all of it on success. */
  method WriteFull(w: Sink, p: Bytes, takes: nat -> nat, fails: nat -> bool) returns (r: Sent)
    modifies w
    ensures exists n :: 0 <= n <= |p| && w.out == old(w.out) + p[..n]
    ensures r.All? ==> w.out == old(w.out) + p
    ensures (forall i :: takes(i) > 0 && !fails(i)) ==> r.All?
  {
    var sent, turn := 0, 0;
    assert w.out == old(w.out) + p[..0];
    while sent < |p|
      invariant sent <= |p| && w.out == old(w.out) + p[..sent]
    {
      var n, err := w.Write(p[sent..], takes(turn), fails(turn));
      assert p[..sent] + p[sent..][..n] == p[..sent + n];
      sent, turn := sent + n, turn + 1;
      if err {
        return Failed;
      }
      if n == 0 {
        return ShortWrite;
      }
    }
    assert p[..sent] == p;
    r := All;
  }
}
