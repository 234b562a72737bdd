/** The write-ahead log's record format (internal/wal/record.go). */
module WalRecord {
  import opened Bytes
  import Crc32c

  const REC_HEADER_LEN: nat := 8
  const PAYLOAD_HEADER_LEN: nat := 32
  const MAX_KEY_LEN: nat := 0xffff
  const MAX_VAL_LEN: nat := 0x100_0000
  const MAX_RECORD_LEN: nat := PAYLOAD_HEADER_LEN + 0x1_0000 + 0x100_0000 + 64

  const SET: Byte := 1
  const DELETE: Byte := 2
  const EXPIRE: Byte := 3
  const SEGMENT_HDR: Byte := 4

  datatype Record = Record(lsn: nat, createdAt: nat, kind: Byte, flags: Byte,
                           key: Bytes, value: Bytes, expireAt: nat)

  predicate KnownKind(k: Byte) {
    SET <= k <= SEGMENT_HDR
  }

  /** The field widths of the Go struct, and the limits Submit enforces. */
  predicate Encodable(r: Record) {
    && r.lsn < U64 && r.createdAt < U64 && r.expireAt < U64
    && |r.key| <= MAX_KEY_LEN && |r.value| <= MAX_VAL_LEN
    && KnownKind(r.kind)
  }

  predicate AllEncodable(rs: seq<Record>) {
    forall i | 0 <= i < |rs| :: Encodable(rs[i])
  }

  function EncodedLen(r: Record): (n: nat) {
    REC_HEADER_LEN + PAYLOAD_HEADER_LEN + |r.key| + |r.value|
  }

  function FixedPart(r: Record): (s: Bytes)
    ensures |s| == PAYLOAD_HEADER_LEN
  {
    LE(r.lsn, 8) + LE(r.createdAt, 8) + [r.kind, r.flags]
    + LE(|r.key|, 2) + LE(|r.value|, 4) + LE(r.expireAt, 8)
  }

  function Payload(r: Record): (s: Bytes)
    ensures |s| == PAYLOAD_HEADER_LEN + |r.key| + |r.value|
  {
    FixedPart(r) + r.key + r.value
  }

  /** The on-disk form of a record. */
  function Encode(r: Record): (s: Bytes)
    ensures |s| == EncodedLen(r)
  {
    LE(Crc32c.Checksum(Payload(r)), 4) + LE(|Payload(r)|, 4) + Payload(r)
  }

  function EncodeAll(rs: seq<Record>): (r: Bytes) {
    if rs == [] then [] else Encode(rs[0]) + EncodeAll(rs[1..])
  }

  /** binary.LittleEndian.PutUint*: k bytes of n written at off. */
  method PutLE(buf: array<Byte>, off: nat, n: nat, k: nat)
    requires off + k <= buf.Length
    modifies buf
    ensures buf[off..off + k] == LE(n, k)
    ensures buf[..off] == old(buf[..off]) && buf[off + k..] == old(buf[off + k..])
  {
    var rest := n;
    for i := 0 to k
      invariant buf[off..off + i] + LE(rest, k - i) == LE(n, k)
      invariant buf[..off] == old(buf[..off])
      invariant buf[off + k..] == old(buf[off + k..])
    {
      assert LE(rest, k - i) == [rest % 256] + LE(rest / 256, k - i - 1);
      buf[off + i] := rest % 256;
      assert buf[off..off + i + 1] == buf[off..off + i] + [rest % 256];
      rest := rest / 256;
    }
  }

  lemma PrefixGrows(before: Bytes, now: Bytes, off: nat, part: Bytes)
    requires off + |part| <= |now| && off <= |before| && now[..off] == before[..off] && now[off..off + |part|] == part
    ensures now[..off + |part|] == before[..off] + part
  {
  }

  /** A number at the end of what has been filled in so far. */
  method AppendLE(buf: array<Byte>, off: nat, n: nat, k: nat)
    requires off + k <= buf.Length
    modifies buf
    ensures buf[..off + k] == old(buf[..off]) + LE(n, k)
  {
    hide LE;
    PutLE(buf, off, n, k);
    PrefixGrows(old(buf[..]), buf[..], off, LE(n, k));
    assert buf[..][..off] == buf[..off] && old(buf[..])[..off] == old(buf[..off]);
  }

  /** The fixed part is filled in place. */
  method FillFixed(fixed: array<Byte>, r: Record)
    requires fixed.Length == PAYLOAD_HEADER_LEN
    modifies fixed
    ensures fixed[..] == FixedPart(r)
  {
    hide LE;
    AppendLE(fixed, 0, r.lsn, 8);
    AppendLE(fixed, 8, r.createdAt, 8);
    ghost var stamps := fixed[..16];
    fixed[16] := r.kind;
    fixed[17] := r.flags;
    assert fixed[..18] == stamps + [r.kind, r.flags];
    AppendLE(fixed, 18, |r.key|, 2);
    AppendLE(fixed, 20, |r.value|, 4);
    AppendLE(fixed, 24, r.expireAt, 8);
    assert fixed[..] == fixed[..32];
  }

  /** Serialises r after dst: the fixed part is filled in place, key and value
      follow, and the CRC and length in front go in last. */
  method AppendRecord(dst: Bytes, r: Record) returns (out: Bytes)
    ensures out == dst + Encode(r)
  {
    hide LE, Crc32c.Checksum, FixedPart;
    var fixed := new Byte[PAYLOAD_HEADER_LEN](_ => 0);
    FillFixed(fixed, r);
    var payload := fixed[..] + r.key + r.value;
    var head := new Byte[REC_HEADER_LEN](_ => 0);
    AppendLE(head, 0, Crc32c.Checksum(payload), 4);
    AppendLE(head, 4, |payload|, 4);
    assert head[..] == head[..8];
    out := dst + head[..] + payload;
  }

  datatype Error = ShortRecord | LengthTooBig | CutShort | BadCRC | BadPayload | BadRecordType

  datatype Decoded = Ok(rec: Record, len: nat) | Err(error: Error)

  /** Parses one record from the front of buf; remaining is the number of bytes
      left in the file from the start of this record. */
  function Decode(buf: Bytes, remaining: nat): (r: Decoded) {
    if |buf| < REC_HEADER_LEN then Err(ShortRecord)
    else
      var length := FromLE(buf[4..8]);
      var total := REC_HEADER_LEN + length;
      if length > MAX_RECORD_LEN then Err(LengthTooBig)
      else if total > remaining || |buf| < total then Err(CutShort)
      else if Crc32c.Checksum(buf[8..total]) != FromLE(buf[..4]) then Err(BadCRC)
      else ParsePayload(buf[8..total])
  }

  function ParsePayload(p: Bytes): (d: Decoded)
    ensures d.Ok? ==> d.len == REC_HEADER_LEN + |p|
  {
    if |p| < PAYLOAD_HEADER_LEN then Err(BadPayload)
    else
      var keyLen, valLen := FromLE(p[18..20]), FromLE(p[20..24]);
      if valLen > MAX_VAL_LEN || keyLen > MAX_KEY_LEN then Err(BadPayload)
      else if PAYLOAD_HEADER_LEN + keyLen + valLen != |p| then Err(BadPayload)
      else if !KnownKind(p[16]) then Err(BadRecordType)
      else
        Ok(Record(FromLE(p[..8]), FromLE(p[8..16]), p[16], p[17],
                  p[32..32 + keyLen], p[32 + keyLen..], FromLE(p[24..32])),
           REC_HEADER_LEN + |p|)
  }

  // Round trips

  lemma PayloadFields(r: Record)
    ensures var p := Payload(r);
            && p[..8] == LE(r.lsn, 8) && p[8..16] == LE(r.createdAt, 8)
            && p[16] == r.kind && p[17] == r.flags
            && p[18..20] == LE(|r.key|, 2) && p[20..24] == LE(|r.value|, 4)
            && p[24..32] == LE(r.expireAt, 8)
            && p[32..32 + |r.key|] == r.key && p[32 + |r.key|..] == r.value
  {
    hide LE;
  }

  lemma ParsePayloadOf(r: Record)
    requires Encodable(r)
    ensures ParsePayload(Payload(r)) == Ok(r, EncodedLen(r))
  {
    hide LE, FromLE;
    PayloadFields(r);
    LEFits(r.lsn, 8);
    LEFits(r.createdAt, 8);
    LEFits(r.expireAt, 8);
    LEFits(|r.key|, 2);
    LEFits(|r.value|, 4);
  }

  lemma EncodeFields(r: Record, rest: Bytes)
    ensures var s := Encode(r) + rest;
            && s[..4] == LE(Crc32c.Checksum(Payload(r)), 4)
            && s[4..8] == LE(|Payload(r)|, 4)
            && s[8..EncodedLen(r)] == Payload(r)
  {
    hide LE, Payload, Crc32c.Checksum;
  }

  /** A written record reads back as itself, whatever follows it. */
  lemma DecodeOfEncode(r: Record, rest: Bytes, remaining: nat)
    requires Encodable(r) && EncodedLen(r) <= remaining
    ensures Decode(Encode(r) + rest, remaining) == Ok(r, EncodedLen(r))
  {
    hide LE, FromLE, Crc32c.Checksum, Payload, ParsePayload;
    EncodeFields(r, rest);
    LEFits(Crc32c.Checksum(Payload(r)), 4);
    LEFits(|Payload(r)|, 4);
    ParsePayloadOf(r);
  }

  lemma PayloadOfParse(p: Bytes)
    requires ParsePayload(p).Ok?
    ensures var r := ParsePayload(p).rec;
            Encodable(r) && Payload(r) == p && EncodedLen(r) == ParsePayload(p).len
  {
    hide LE, FromLE;
    FromLEFits(p[..8]);
    FromLEFits(p[8..16]);
    FromLEFits(p[18..20]);
    FromLEFits(p[20..24]);
    FromLEFits(p[24..32]);
    var r := ParsePayload(p).rec;
    assert p[16..18] == [r.kind, r.flags];
    assert FixedPart(r) == p[..8] + p[8..16] + p[16..18] + p[18..20] + p[20..24] + p[24..32];
    assert FixedPart(r) == p[..32];
  }

  /** Whatever decodes is exactly the encoding of what it decodes to, so the
      format has one reading. */
  lemma EncodeOfDecode(buf: Bytes, remaining: nat)
    requires Decode(buf, remaining).Ok?
    ensures var d := Decode(buf, remaining);
            && Encodable(d.rec) && d.len == EncodedLen(d.rec) <= |buf|
            && d.len <= remaining && buf[..d.len] == Encode(d.rec)
  {
    hide LE, FromLE, Crc32c.Checksum, ParsePayload;
    var d := Decode(buf, remaining);
    PayloadOfParse(buf[8..d.len]);
    FromLEFits(buf[..4]);
    FromLEFits(buf[4..8]);
    assert buf[..d.len] == buf[..4] + buf[4..8] + buf[8..d.len];
  }

  // Damage

  /** A payload changed in at most four adjacent bytes is refused as a CRC
      mismatch. */
  lemma PayloadDamageRefused(r: Record, damaged: Bytes, at: nat, n: nat)
    requires Encodable(r)
    requires |damaged| == |Payload(r)| && damaged != Payload(r)
    requires n <= 4 && at + n <= |damaged|
    requires damaged[..at] == Payload(r)[..at] && damaged[at + n..] == Payload(r)[at + n..]
    ensures var file := Encode(r)[..8] + damaged;
            Decode(file, |file|) == Err(BadCRC)
  {
    hide LE, FromLE, Crc32c.Checksum, Payload, ParsePayload;
    var p := Payload(r);
    var file := Encode(r)[..8] + damaged;
    EncodeFields(r, []);
    assert Encode(r) + [] == Encode(r);
    assert file[..4] == Encode(r)[..4] && file[4..8] == Encode(r)[4..8];
    LEFits(Crc32c.Checksum(p), 4);
    LEFits(|p|, 4);
    assert p == p[..at] + p[at..at + n] + p[at + n..];
    assert damaged == p[..at] + damaged[at..at + n] + p[at + n..];
    Crc32c.BurstDetected(p[..at], p[at..at + n], damaged[at..at + n], p[at + n..]);
    assert file[8..8 + |p|] == damaged;
  }

  /** Any other stored CRC is refused too. */
  lemma CrcDamageRefused(r: Record, crc: Bytes)
    requires Encodable(r) && |crc| == 4 && crc != Encode(r)[..4]
    ensures var file := crc + Encode(r)[4..];
            Decode(file, |file|) == Err(BadCRC)
  {
    hide LE, FromLE, Crc32c.Checksum, Payload, ParsePayload;
    var file := crc + Encode(r)[4..];
    EncodeFields(r, []);
    assert Encode(r) + [] == Encode(r);
    assert file[..4] == crc && file[4..8] == Encode(r)[4..8];
    assert file[8..8 + |Payload(r)|] == Payload(r);
    LEFits(|Payload(r)|, 4);
    LEofFromLE(crc);
  }

  // Lists of records

  lemma {:induction false} EncodeAllConcat(a: seq<Record>, b: seq<Record>)
    ensures EncodeAll(a + b) == EncodeAll(a) + EncodeAll(b)
  {
    hide Encode;
    if a == [] {
      assert a + b == b;
    } else {
      EncodeAllConcat(a[1..], b);
      JoinTail(a, b);
      JoinAssoc(Encode(a[0]), EncodeAll(a[1..]), EncodeAll(b));
    }
  }

  // Segment headers

  /** "KVWALSEG" */
  const SEGMENT_MAGIC: Bytes := [75, 86, 87, 65, 76, 83, 69, 71]
  const SEGMENT_FORMAT_VERSION: nat := 1
  const SEGMENT_HEADER_LEN: nat := 52

  function NewSegmentHeader(firstLSN: nat, now: nat): (r: Record)
    ensures firstLSN < U64 && now < U64 ==> Encodable(r) && ValidSegmentHeader(r)
    ensures EncodedLen(r) == SEGMENT_HEADER_LEN
  {
    LEFits(SEGMENT_FORMAT_VERSION, 4);
    Record(firstLSN, now, SEGMENT_HDR, 0, SEGMENT_MAGIC, LE(SEGMENT_FORMAT_VERSION, 4), 0)
  }

  predicate ValidSegmentHeader(r: Record) {
    && r.kind == SEGMENT_HDR
    && r.key == SEGMENT_MAGIC
    && |r.value| == 4
    && FromLE(r.value) == SEGMENT_FORMAT_VERSION
  }
}
