/** Reading one log segment back (internal/wal/reader.go). */
module WalScan {
  import opened Bytes
  import opened WalRecord

  datatype Fault = NoFault | TornTail | Corrupt

  /** How a scan ended: what it delivered, the first LSN the header declares, the
      offset after the last good record, and why it stopped there. */
  datatype Scan = Scan(records: seq<Record>, firstLSN: nat, lastGood: nat, fault: Fault)

  /** One turn of the scan loop on the unread part of a file. */
  datatype Piece = Good(rec: Record, len: nat) | Stop(fault: Fault)

  function ReadPiece(tail: Bytes): (p: Piece)
    ensures p.Good? ==> 0 < p.len <= |tail| && Encodable(p.rec) && tail[..p.len] == Encode(p.rec)
    ensures p.Stop? ==> (p.fault == NoFault <==> tail == [])
  {
    if tail == [] then Stop(NoFault)
    else if |tail| < REC_HEADER_LEN then Stop(TornTail)
    else
      var length := FromLE(tail[4..8]);
      if length > MAX_RECORD_LEN then Stop(Corrupt)
      else if REC_HEADER_LEN + length > |tail| then Stop(TornTail)
      else
        var full := tail[..REC_HEADER_LEN + length];
        match Decode(full, |tail|)
        case Err(e) => Stop(if e == Error.CutShort then TornTail else Corrupt)
        case Ok(rec, n) => EncodeOfDecode(full, |tail|); Good(rec, n)
  }

  /** The scan of what is left after the segment header. */
  function ScanRecords(tail: Bytes): (s: Scan)
    ensures s.lastGood <= |tail|
    decreases |tail|
  {
    match ReadPiece(tail)
    case Stop(fault) => Scan([], 0, 0, fault)
    case Good(rec, n) =>
      var rest := ScanRecords(tail[n..]);
      Scan([rec] + rest.records, 0, n + rest.lastGood, rest.fault)
  }

  /** What ScanSegment reports of a whole file. */
  function ScanOf(file: Bytes): (s: Scan)
    ensures s.lastGood <= |file|
  {
    match ReadPiece(file)
    case Stop(fault) => Scan([], 0, 0, if fault == NoFault then TornTail else fault)
    case Good(rec, n) =>
      if ValidSegmentHeader(rec) then
        var rest := ScanRecords(file[n..]);
        Scan(rest.records, rec.lsn, n + rest.lastGood, rest.fault)
      else Scan([], 0, 0, Corrupt)
  }

  /** One record read at an offset: header, bounds, payload, decode. */
  method ReadAt(file: Bytes, offset: nat) returns (p: Piece)
    requires offset <= |file|
    ensures p == ReadPiece(file[offset..])
  {
    hide FromLE, Decode, Encode;
    ghost var tail := file[offset..];
    var remaining := |file| - offset;
    if remaining == 0 {
      return Stop(NoFault);
    }
    if remaining < REC_HEADER_LEN {
      return Stop(TornTail);
    }
    assert file[offset + 4..offset + 8] == tail[4..8];
    var length := FromLE(file[offset + 4..offset + 8]);
    if length > MAX_RECORD_LEN {
      return Stop(Corrupt);
    }
    if REC_HEADER_LEN + length > remaining {
      return Stop(TornTail);
    }
    var full := file[offset..offset + REC_HEADER_LEN + length];
    assert full == tail[..REC_HEADER_LEN + length];
    match Decode(full, remaining)
    case Err(e) => p := Stop(if e == Error.CutShort then TornTail else Corrupt);
    case Ok(rec, n) => p := Good(rec, n);
  }

  /** The scan loop, handing each record on in order. */
  method ScanSegment(file: Bytes) returns (s: Scan)
    ensures s == ScanOf(file)
  {
    hide ReadPiece, Encode;
    var offset, first, firstLSN := 0, true, 0;
    var records: seq<Record> := [];
    var fault := NoFault;
    assert file[0..] == file;
    while true
      invariant offset <= |file|
      invariant first ==> offset == 0 && records == [] && firstLSN == 0
      invariant !first ==>
          var rest := ScanRecords(file[offset..]);
          ScanOf(file) == Scan(records + rest.records, firstLSN, offset + rest.lastGood, rest.fault)
      decreases |file| - offset
    {
      var p := ReadAt(file, offset);
      if p.Stop? {
        fault := p.fault;
        break;
      }
      assert file[offset..][p.len..] == file[offset + p.len..];
      if first {
        if !ValidSegmentHeader(p.rec) {
          fault := Corrupt;
          break;
        }
        firstLSN := p.rec.lsn;
        first := false;
      } else {
        ghost var rest := ScanRecords(file[offset + p.len..]);
        assert records + ([p.rec] + rest.records) == (records + [p.rec]) + rest.records;
        records := records + [p.rec];
      }
      offset := offset + p.len;
    }
    if first && fault == NoFault {
      fault := TornTail;
    }
    assert records + [] == records;
    s := Scan(records, firstLSN, offset, fault);
  }

  // What a scan means

  /** Bytes that end inside a record: too short for a length field, or for the
      length they declare. */
  predicate CutInside(tail: Bytes) {
    tail != [] && (|tail| < REC_HEADER_LEN
                   || |tail| < REC_HEADER_LEN + FromLE(tail[4..8]) <= REC_HEADER_LEN + MAX_RECORD_LEN)
  }

  /** The delivered records are exactly the bytes before the stop, and the fault
      says what the bytes after it are. */
  lemma {:induction false} ScanRecordsSound(tail: Bytes)
    ensures var s := ScanRecords(tail);
            && AllEncodable(s.records)
            && tail[..s.lastGood] == EncodeAll(s.records)
            && (s.fault == NoFault <==> s.lastGood == |tail|)
            && (s.fault == TornTail <==> CutInside(tail[s.lastGood..]))
    decreases |tail|
  {
    hide Encode, FromLE, ReadPiece, CutInside;
    var p := ReadPiece(tail);
    if p.Good? {
      ScanRecordsSound(tail[p.len..]);
      var s, rest := ScanRecords(tail), ScanRecords(tail[p.len..]);
      SliceJoin(tail, p.len, rest.lastGood);
      assert s.records[0] == p.rec && s.records[1..] == rest.records;
    } else {
      StopMeans(tail);
      assert tail[..0] == [] && tail[0..] == tail;
    }
  }

  lemma StopMeans(tail: Bytes)
    requires ReadPiece(tail).Stop?
    ensures ReadPiece(tail).fault == TornTail <==> CutInside(tail)
  {
    hide FromLE, Crc32c.Checksum, ParsePayload;
    if |tail| >= REC_HEADER_LEN {
      var length := FromLE(tail[4..8]);
      if length <= MAX_RECORD_LEN && REC_HEADER_LEN + length <= |tail| {
        var full := tail[..REC_HEADER_LEN + length];
        assert full[4..8] == tail[4..8];
        ParseNeverCut(full[8..8 + length]);
      }
    }
  }

  lemma ParseNeverCut(p: Bytes)
    ensures ParsePayload(p) != Err(Error.CutShort)
  {
  }

  // Scanning what a writer left behind

  lemma ReadWhole(r: Record, rest: Bytes)
    requires Encodable(r)
    ensures ReadPiece(Encode(r) + rest) == Good(r, EncodedLen(r))
  {
    hide FromLE, LE, Crc32c.Checksum, Payload, Decode, Encode;
    var tail := Encode(r) + rest;
    LengthField(r, rest);
    assert tail[..EncodedLen(r)] == Encode(r) + [];
    DecodeOfEncode(r, [], |tail|);
  }

  lemma LengthField(r: Record, rest: Bytes)
    requires Encodable(r)
    ensures FromLE((Encode(r) + rest)[4..8]) == EncodedLen(r) - REC_HEADER_LEN
  {
    hide FromLE, LE, Crc32c.Checksum, Payload, Encode;
    EncodeFields(r, rest);
    LEFits(|Payload(r)|, 4);
  }

  lemma ReadCut(r: Record, n: nat)
    requires Encodable(r) && 0 < n < EncodedLen(r)
    ensures ReadPiece(Encode(r)[..n]) == Stop(TornTail)
  {
    hide FromLE, LE, Decode, Encode;
    if n >= REC_HEADER_LEN {
      LengthField(r, []);
      assert (Encode(r) + [])[4..8] == Encode(r)[..n][4..8];
    }
  }

  /** How many of rs lie wholly inside the first n bytes of their encoding. */
  function WholeRecords(rs: seq<Record>, n: nat): (k: nat)
    ensures k <= |rs|
  {
    if rs == [] || n < EncodedLen(rs[0]) then 0 else 1 + WholeRecords(rs[1..], n - EncodedLen(rs[0]))
  }

  lemma ScanCons(r: Record, rest: Bytes)
    requires Encodable(r)
    ensures var s := ScanRecords(rest);
            ScanRecords(Encode(r) + rest) == Scan([r] + s.records, 0, EncodedLen(r) + s.lastGood, s.fault)
  {
    hide Encode, ReadPiece;
    ReadWhole(r, rest);
    assert (Encode(r) + rest)[EncodedLen(r)..] == rest;
  }

  lemma ScanStop(tail: Bytes)
    requires ReadPiece(tail).Stop?
    ensures ScanRecords(tail) == Scan([], 0, 0, ReadPiece(tail).fault)
  {
    hide ReadPiece;
  }

  /** A cut behind the first record cuts the encoding of the others. */
  lemma CutBehind(rs: seq<Record>, n: nat)
    requires rs != [] && EncodedLen(rs[0]) <= n <= |EncodeAll(rs)|
    ensures n - EncodedLen(rs[0]) <= |EncodeAll(rs[1..])|
    ensures EncodeAll(rs)[..n] == Encode(rs[0]) + EncodeAll(rs[1..])[..n - EncodedLen(rs[0])]
  {
    hide Encode;
  }

  lemma CutWithin(rs: seq<Record>, n: nat)
    requires rs != [] && n < EncodedLen(rs[0])
    ensures n <= |EncodeAll(rs)| && EncodeAll(rs)[..n] == Encode(rs[0])[..n]
  {
    hide Encode;
  }

  lemma TakeCons(rs: seq<Record>, k: nat)
    requires k < |rs|
    ensures rs[..k + 1] == [rs[0]] + rs[1..][..k]
    ensures EncodeAll(rs[..k + 1]) == Encode(rs[0]) + EncodeAll(rs[1..][..k])
  {
    hide Encode;
    assert rs[..k + 1][1..] == rs[1..][..k];
  }

  lemma EncodedSome(rs: seq<Record>)
    ensures |EncodeAll(rs)| > 0 ==> rs != []
  {
  }

  lemma NoneEncoded(rs: seq<Record>)
    ensures rs[..0] == [] && EncodeAll(rs[..0]) == []
  {
  }

  /** A prefix of written records delivers exactly those wholly inside it, stops
      at the last boundary, and is never taken for corruption. */
  lemma {:induction false} ScanRecordsPrefix(rs: seq<Record>, n: nat)
    requires AllEncodable(rs) && n <= |EncodeAll(rs)|
    ensures var k := WholeRecords(rs, n);
            && |EncodeAll(rs[..k])| <= n
            && ScanRecords(EncodeAll(rs)[..n]) ==
               Scan(rs[..k], 0, |EncodeAll(rs[..k])|, if |EncodeAll(rs[..k])| == n then NoFault else TornTail)
  {
    hide Encode, ReadPiece, ScanRecords, EncodeAll, Encodable;
    NoneEncoded(rs);
    EncodedSome(rs);
    if n == 0 {
      EmptyStops();
      ScanStop(EncodeAll(rs)[..n]);
    } else if n < EncodedLen(rs[0]) {
      CutWithin(rs, n);
      ReadCut(rs[0], n);
      ScanStop(EncodeAll(rs)[..n]);
    } else {
      var len := EncodedLen(rs[0]);
      CutBehind(rs, n);
      ScanRecordsPrefix(rs[1..], n - len);
      ScanCons(rs[0], EncodeAll(rs[1..])[..n - len]);
      TakeCons(rs, WholeRecords(rs[1..], n - len));
    }
  }

  lemma EmptyStops()
    ensures ReadPiece([]) == Stop(NoFault)
  {
  }

  /** The bytes of a segment holding rs after its header. */
  function SegmentBytes(header: Record, rs: seq<Record>): (r: Bytes) {
    Encode(header) + EncodeAll(rs)
  }

  /** Any byte prefix of a written segment. */
  lemma ScanPrefix(header: Record, rs: seq<Record>, n: nat)
    requires Encodable(header) && ValidSegmentHeader(header)
    requires AllEncodable(rs) && n <= |SegmentBytes(header, rs)|
    ensures var s := ScanOf(SegmentBytes(header, rs)[..n]);
            if n < EncodedLen(header) then s == Scan([], 0, 0, TornTail)
            else
              var k := WholeRecords(rs, n - EncodedLen(header));
              var good := EncodedLen(header) + |EncodeAll(rs[..k])|;
              s == Scan(rs[..k], header.lsn, good, if good == n then NoFault else TornTail)
  {
    hide Encode, ReadPiece;
    var file := SegmentBytes(header, rs)[..n];
    if n == 0 {
      assert file == [];
      EmptyStops();
    } else if n < EncodedLen(header) {
      assert file == Encode(header)[..n];
      ReadCut(header, n);
    } else {
      var rest := EncodeAll(rs)[..n - EncodedLen(header)];
      assert file == Encode(header) + rest;
      ReadWhole(header, rest);
      assert file[EncodedLen(header)..] == rest;
      ScanRecordsPrefix(rs, n - EncodedLen(header));
    }
  }

  lemma {:induction false} WholeRecordsAll(rs: seq<Record>)
    ensures WholeRecords(rs, |EncodeAll(rs)|) == |rs|
  {
    hide Encode;
    if rs != [] {
      WholeRecordsAll(rs[1..]);
    }
  }

  /** A complete segment scans without fault. */
  lemma ScanComplete(header: Record, rs: seq<Record>)
    requires Encodable(header) && ValidSegmentHeader(header) && AllEncodable(rs)
    ensures var file := SegmentBytes(header, rs);
            ScanOf(file) == Scan(rs, header.lsn, |file|, NoFault)
  {
    hide ScanOf, Encode;
    var file := SegmentBytes(header, rs);
    ScanPrefix(header, rs, |file|);
    assert file[..|file|] == file;
    WholeRecordsAll(rs);
    assert rs[..|rs|] == rs;
  }

  /** What any scan says about any file: the good part is a header and the
      delivered records, or nothing. */
  lemma ScanOfSound(file: Bytes) returns (header: Record)
    ensures var s := ScanOf(file);
            && (s.lastGood == 0 ==> s.records == [] && s.fault != NoFault)
            && (s.lastGood > 0 ==>
                  && Encodable(header) && ValidSegmentHeader(header) && header.lsn == s.firstLSN
                  && AllEncodable(s.records)
                  && file[..s.lastGood] == SegmentBytes(header, s.records)
                  && (s.fault == NoFault <==> s.lastGood == |file|))
  {
    hide ReadPiece, Encode, EncodeAll, ScanRecords, CutInside, Encodable;
    header := NewSegmentHeader(0, 0);
    var p := ReadPiece(file);
    if p.Good? && ValidSegmentHeader(p.rec) {
      header := p.rec;
      ScanRecordsSound(file[p.len..]);
      SliceJoin(file, p.len, ScanRecords(file[p.len..]).lastGood);
    }
  }

  /** Cutting a file where its scan stopped keeps everything delivered and
      removes the fault, unless not even the header was there. */
  lemma ScanOfCut(file: Bytes)
    ensures var s := ScanOf(file);
            ScanOf(file[..s.lastGood]) == s.(fault := if s.lastGood == 0 then TornTail else NoFault)
  {
    hide ScanOf, Encode;
    var s := ScanOf(file);
    var header := ScanOfSound(file);
    if s.lastGood == 0 {
      assert file[..0] == [];
      ScanEmpty();
      ScanNothing(file);
    } else {
      ScanComplete(header, s.records);
    }
  }

  lemma ScanEmpty()
    ensures ScanOf([]) == Scan([], 0, 0, TornTail)
  {
  }

  lemma ScanNothing(file: Bytes)
    requires ScanOf(file).lastGood == 0
    ensures ScanOf(file).records == [] && ScanOf(file).firstLSN == 0
  {
    hide ReadPiece, Encode;
  }

  /** Appending encoded records to a healthy segment appends them to its scan. */
  lemma ScanAppend(file: Bytes, rs: seq<Record>)
    requires ScanOf(file).fault == NoFault && AllEncodable(rs)
    ensures var s := ScanOf(file);
            ScanOf(file + EncodeAll(rs)) == Scan(s.records + rs, s.firstLSN, |file| + |EncodeAll(rs)|, NoFault)
  {
    hide ScanOf, Encode;
    var s := ScanOf(file);
    var header := ScanOfSound(file);
    assert file[..|file|] == file;
    EncodeAllConcat(s.records, rs);
    var x, y, z := Encode(header), EncodeAll(s.records), EncodeAll(rs);
    assert x + (y + z) == (x + y) + z;
    ScanComplete(header, s.records + rs);
  }

  /** A file that opens with any record but a segment header is corrupt. */
  lemma ScanHeaderless(r: Record, rest: Bytes)
    requires Encodable(r) && r.kind != SEGMENT_HDR
    ensures ScanOf(Encode(r) + rest) == Scan([], 0, 0, Corrupt)
  {
    hide ReadPiece, Encode;
    ReadWhole(r, rest);
  }
}
