/** Recovery of a log directory and pruning below a snapshot
    (internal/wal/recover.go). */
module WalReplay {
  import opened Bytes
  import opened WalRecord
  import opened WalScan

  /** A segment file: the first LSN its name carries, and its contents. */
  datatype Segment = Segment(first: nat, data: Bytes)

  /** A log directory as ListSegments returns it, in order of first LSN. */
  class Directory {
    var segs: seq<Segment>

    constructor (segs: seq<Segment>)
      ensures this.segs == segs
    {
      this.segs := segs;
    }
  }

  datatype Resume = Fresh | At(first: nat, offset: nat)

  datatype Replayed =
    | Recovered(applied: seq<Record>, nextLSN: nat, resume: Resume, segs: seq<Segment>)
    | Refused(first: nat, offset: nat)

  /** The records a snapshot at minLSN does not already contain. */
  function Above(rs: seq<Record>, minLSN: nat): (r: seq<Record>) {
    if rs == [] then []
    else (if rs[0].lsn > minLSN then [rs[0]] else []) + Above(rs[1..], minLSN)
  }

  /** What is applied from the segments read. */
  function Delivered(segs: seq<Segment>, minLSN: nat): (r: seq<Record>) {
    if segs == [] then []
    else Above(ScanOf(segs[0].data).records, minLSN) + Delivered(segs[1..], minLSN)
  }

  function Highest(rs: seq<Record>, floor: nat): (m: nat)
    ensures m >= floor
    ensures forall i | 0 <= i < |rs| :: rs[i].lsn <= m
  {
    if rs == [] then floor
    else
      var m := Highest(rs[..|rs| - 1], floor);
      var last := rs[|rs| - 1].lsn;
      assert forall i | 0 <= i < |rs| - 1 :: rs[i] == rs[..|rs| - 1][i];
      if last > m then last else m
  }

  /** The first segment whose scan ends in a fault. */
  function FirstFault(segs: seq<Segment>): (k: nat)
    ensures k <= |segs|
  {
    if segs == [] || ScanOf(segs[0].data).fault != NoFault then 0 else 1 + FirstFault(segs[1..])
  }

  function Cut(seg: Segment, n: nat): (r: Segment)
    requires n <= |seg.data|
  {
    seg.(data := seg.data[..n])
  }

  /** The last segment Replay reads: the first faulty one, or the last of all. */
  function LastRead(segs: seq<Segment>): (n: nat)
    requires segs != []
    ensures n < |segs|
  {
    var k := FirstFault(segs);
    if k == |segs| then k - 1 else k
  }

  /** What Replay does to a directory. */
  function ReplayOf(segs: seq<Segment>, minLSN: nat, unsafeTruncate: bool): (r: Replayed) {
    if segs == [] then Recovered([], minLSN + 1, Fresh, [])
    else
      var n := LastRead(segs);
      var scan := ScanOf(segs[n].data);
      if !unsafeTruncate && (n < |segs| - 1 || scan.fault == Corrupt) then
        Refused(segs[n].first, scan.lastGood)
      else
        Settled(segs[..n], segs[n], minLSN)
  }

  /** The outcome of a recovery that reads `before` in full and stops in `last`. */
  function Settled(before: seq<Segment>, last: Segment, minLSN: nat): (r: Replayed)
    ensures r.Recovered?
  {
    var scan := ScanOf(last.data);
    var applied := Delivered(before, minLSN) + Above(scan.records, minLSN);
    Recovered(applied, Highest(applied, minLSN) + 1, At(last.first, scan.lastGood),
              before + [Cut(last, scan.lastGood)])
  }

  // The loop

  lemma {:induction false} FirstFaultIs(segs: seq<Segment>, k: nat)
    requires k <= |segs|
    requires forall i | 0 <= i < k :: ScanOf(segs[i].data).fault == NoFault
    requires k < |segs| ==> ScanOf(segs[k].data).fault != NoFault
    ensures FirstFault(segs) == k
  {
    hide ScanOf;
    if k > 0 {
      FirstFaultIs(segs[1..], k - 1);
    }
  }

  lemma {:induction false} FirstFaultMeans(segs: seq<Segment>)
    ensures var k := FirstFault(segs);
            && (forall i | 0 <= i < k :: ScanOf(segs[i].data).fault == NoFault)
            && (k < |segs| ==> ScanOf(segs[k].data).fault != NoFault)
  {
    hide ScanOf;
    if segs != [] && ScanOf(segs[0].data).fault == NoFault {
      FirstFaultMeans(segs[1..]);
      forall i | 0 <= i < FirstFault(segs) ensures ScanOf(segs[i].data).fault == NoFault {
        if i > 0 {
          assert segs[i] == segs[1..][i - 1];
        }
      }
    }
  }

  lemma {:induction false} DeliveredConcat(a: seq<Segment>, b: seq<Segment>, minLSN: nat)
    ensures Delivered(a + b, minLSN) == Delivered(a, minLSN) + Delivered(b, minLSN)
  {
    hide ScanOf, Above;
    if a == [] {
      assert a + b == b;
    } else {
      DeliveredConcat(a[1..], b, minLSN);
      assert (a + b)[1..] == a[1..] + b && (a + b)[0] == a[0];
      var x, y, z := Above(ScanOf(a[0].data).records, minLSN), Delivered(a[1..], minLSN), Delivered(b, minLSN);
      assert x + (y + z) == (x + y) + z;
    }
  }

  lemma DeliveredSnoc(segs: seq<Segment>, i: nat, minLSN: nat)
    requires i < |segs|
    ensures Delivered(segs[..i + 1], minLSN)
         == Delivered(segs[..i], minLSN) + Above(ScanOf(segs[i].data).records, minLSN)
  {
    hide ScanOf, Above;
    assert segs[..i + 1] == segs[..i] + [segs[i]];
    DeliveredConcat(segs[..i], [segs[i]], minLSN);
    var x := Above(ScanOf(segs[i].data).records, minLSN);
    assert Delivered([segs[i]], minLSN) == x + [];
  }

  lemma {:induction false} AboveConcat(a: seq<Record>, b: seq<Record>, minLSN: nat)
    ensures Above(a + b, minLSN) == Above(a, minLSN) + Above(b, minLSN)
  {
    if a == [] {
      assert a + b == b;
    } else {
      AboveConcat(a[1..], b, minLSN);
      JoinTail(a, b);
      JoinAssoc(if a[0].lsn > minLSN then [a[0]] else [], Above(a[1..], minLSN), Above(b, minLSN));
    }
  }

  lemma HighestSnoc(rs: seq<Record>, r: Record, floor: nat)
    ensures Highest(rs + [r], floor) == if r.lsn > Highest(rs, floor) then r.lsn else Highest(rs, floor)
  {
    assert (rs + [r])[..|rs|] == rs;
  }

  lemma AboveNone(minLSN: nat)
    ensures Above([], minLSN) == []
  {
  }

  lemma AboveOne(r: Record, minLSN: nat)
    ensures Above([r], minLSN) == if r.lsn <= minLSN then [] else [r]
  {
  }

  /** The callback Replay hands to the scanner: skip what the snapshot has, apply
      the rest, track the highest LSN. */
  method ApplyRecords(records: seq<Record>, minLSN: nat, before: seq<Record>, lastBefore: nat)
    returns (applied: seq<Record>, lastLSN: nat)
    requires lastBefore == Highest(before, minLSN)
    ensures applied == before + Above(records, minLSN)
    ensures lastLSN == Highest(applied, minLSN)
  {
    hide Above, Highest;
    AboveNone(minLSN);
    applied, lastLSN := before, lastBefore;
    for i := 0 to |records|
      invariant applied == before + Above(records[..i], minLSN)
      invariant lastLSN == Highest(applied, minLSN)
    {
      var r := records[i];
      assert records[..i + 1] == records[..i] + [r];
      AboveConcat(records[..i], [r], minLSN);
      AboveOne(r, minLSN);
      if r.lsn > minLSN {
        HighestSnoc(applied, r, minLSN);
        applied := applied + [r];
        if r.lsn > lastLSN {
          lastLSN := r.lsn;
        }
      }
    }
    assert records[..|records|] == records;
  }

  /** How Replay ends at the first faulty segment. */
  lemma EndsAtFault(segs: seq<Segment>, i: nat, minLSN: nat, unsafeTruncate: bool)
    requires i < |segs| && ScanOf(segs[i].data).fault != NoFault
    requires forall j | 0 <= j < i :: ScanOf(segs[j].data).fault == NoFault
    ensures var scan, applied := ScanOf(segs[i].data), Delivered(segs[..i], minLSN) +
                                                       Above(ScanOf(segs[i].data).records, minLSN);
            ReplayOf(segs, minLSN, unsafeTruncate) ==
            if !unsafeTruncate && (i < |segs| - 1 || scan.fault == Corrupt) then Refused(segs[i].first, scan.lastGood)
            else Recovered(applied, Highest(applied, minLSN) + 1, At(segs[i].first, scan.lastGood),
                           segs[..i] + [Cut(segs[i], scan.lastGood)])
  {
    hide ScanOf, FirstFault, Delivered, Above, Highest;
    FirstFaultIs(segs, i);
  }

  /** How it ends without one. */
  lemma EndsHealthy(segs: seq<Segment>, minLSN: nat, unsafeTruncate: bool)
    requires segs != [] && forall j | 0 <= j < |segs| :: ScanOf(segs[j].data).fault == NoFault
    ensures var last, applied := segs[|segs| - 1], Delivered(segs, minLSN);
            ReplayOf(segs, minLSN, unsafeTruncate) ==
            Recovered(applied, Highest(applied, minLSN) + 1, At(last.first, ScanOf(last.data).lastGood), segs)
  {
    hide ScanOf, FirstFault, Delivered, Above, Highest;
    var n := |segs| - 1;
    FirstFaultIs(segs, |segs|);
    assert segs[..|segs|] == segs;
    DeliveredSnoc(segs, n, minLSN);
    CutOfHealthy(segs[n]);
    assert segs == segs[..n] + [segs[n]];
  }

  /** Reads every segment in order; on a fault truncates the last segment and
      goes on, or refuses. */
  method Replay(dir: Directory, minLSN: nat, unsafeTruncate: bool) returns (res: Replayed)
    modifies dir
    ensures res == ReplayOf(old(dir.segs), minLSN, unsafeTruncate)
    ensures dir.segs == if res.Recovered? then res.segs else old(dir.segs)
  {
    hide ScanOf, Above, Highest, Delivered, ReplayOf;
    var segs := dir.segs;
    if |segs| == 0 {
      NothingToReplay(minLSN, unsafeTruncate);
      return Recovered([], minLSN + 1, Fresh, []);
    }
    var applied: seq<Record>, lastLSN, resume := [], minLSN, Fresh;
    HighestOfNone(minLSN);
    NoneDelivered(segs, minLSN);
    for i := 0 to |segs|
      invariant dir.segs == segs
      invariant forall j | 0 <= j < i :: ScanOf(segs[j].data).fault == NoFault
      invariant applied == Delivered(segs[..i], minLSN)
      invariant lastLSN == Highest(applied, minLSN)
      invariant i > 0 ==> resume == At(segs[i - 1].first, ScanOf(segs[i - 1].data).lastGood)
    {
      var scan := ScanSegment(segs[i].data);
      DeliveredSnoc(segs, i, minLSN);
      applied, lastLSN := ApplyRecords(scan.records, minLSN, applied, lastLSN);
      if scan.fault == NoFault {
        resume := At(segs[i].first, scan.lastGood);
      } else {
        EndsAtFault(segs, i, minLSN, unsafeTruncate);
        if i < |segs| - 1 {
          if !unsafeTruncate {
            return Refused(segs[i].first, scan.lastGood);
          }
        } else if scan.fault == Corrupt && !unsafeTruncate {
          return Refused(segs[i].first, scan.lastGood);
        }
        dir.segs := segs[..i] + [Cut(segs[i], scan.lastGood)];
        return Recovered(applied, lastLSN + 1, At(segs[i].first, scan.lastGood), dir.segs);
      }
    }
    assert segs[..|segs|] == segs;
    EndsHealthy(segs, minLSN, unsafeTruncate);
    res := Recovered(applied, lastLSN + 1, resume, segs);
  }

  lemma NothingToReplay(minLSN: nat, unsafeTruncate: bool)
    ensures ReplayOf([], minLSN, unsafeTruncate) == Recovered([], minLSN + 1, Fresh, [])
  {
  }

  lemma NoneDelivered(segs: seq<Segment>, minLSN: nat)
    ensures Delivered(segs[..0], minLSN) == []
  {
  }

  lemma CutOfHealthy(seg: Segment)
    requires ScanOf(seg.data).fault == NoFault
    ensures Cut(seg, ScanOf(seg.data).lastGood) == seg
  {
    hide ScanOf;
    var _ := ScanOfSound(seg.data);
    assert seg.data[..|seg.data|] == seg.data;
  }

  lemma HighestOfNone(floor: nat)
    ensures Highest([], floor) == floor
  {
  }

  // Running recovery again

  /** Everything Replay reads before the last segment it reads is healthy. */
  lemma BeforeLastRead(segs: seq<Segment>)
    requires segs != []
    ensures forall i | 0 <= i < LastRead(segs) :: ScanOf(segs[i].data).fault == NoFault
  {
    hide ScanOf;
    FirstFaultMeans(segs);
  }

  lemma LastReadIs(before: seq<Segment>, last: Segment)
    requires forall i | 0 <= i < |before| :: ScanOf(before[i].data).fault == NoFault
    ensures LastRead(before + [last]) == |before|
  {
    hide ScanOf;
    FirstFaultIs(before + [last], if ScanOf(last.data).fault == NoFault then |before| + 1 else |before|);
  }

  /** How healthy segments and one more replay. */
  lemma ReplayHealthy(before: seq<Segment>, last: Segment, minLSN: nat, unsafeTruncate: bool)
    requires forall i | 0 <= i < |before| :: ScanOf(before[i].data).fault == NoFault
    ensures ReplayOf(before + [last], minLSN, unsafeTruncate) ==
            if ScanOf(last.data).fault == Corrupt && !unsafeTruncate
            then Refused(last.first, ScanOf(last.data).lastGood)
            else Settled(before, last, minLSN)
  {
    hide ScanOf, Settled, LastRead;
    LastReadIs(before, last);
    assert (before + [last])[..|before|] == before;
  }

  /** Recovery is idempotent: run again on what it left, under either setting of
      unsafe-truncate, it succeeds, applies the same records, resumes at the same
      place and changes nothing. */
  lemma ReplayIdempotent(segs: seq<Segment>, minLSN: nat, unsafeTruncate: bool, unsafeAgain: bool)
    requires ReplayOf(segs, minLSN, unsafeTruncate).Recovered?
    ensures var r := ReplayOf(segs, minLSN, unsafeTruncate);
            ReplayOf(r.segs, minLSN, unsafeAgain) == r
  {
    hide ScanOf, LastRead, Delivered, Above, Highest;
    if segs != [] {
      var n := LastRead(segs);
      var cut := Cut(segs[n], ScanOf(segs[n].data).lastGood);
      BeforeLastRead(segs);
      ScanOfCut(segs[n].data);
      ReplayHealthy(segs[..n], cut, minLSN, unsafeAgain);
      assert cut.data[..|cut.data|] == cut.data;
    }
  }

  /** The next LSN is above the snapshot and above everything applied. */
  lemma NextLSNIsFresh(segs: seq<Segment>, minLSN: nat, unsafeTruncate: bool)
    requires ReplayOf(segs, minLSN, unsafeTruncate).Recovered?
    ensures var r := ReplayOf(segs, minLSN, unsafeTruncate);
            r.nextLSN > minLSN && forall i | 0 <= i < |r.applied| :: r.applied[i].lsn < r.nextLSN
  {
    hide ScanOf, LastRead, Delivered, Above;
  }

  // Resuming

  /** A record Submit accepts, numbered above the snapshot. */
  predicate Loggable(r: Record, minLSN: nat) {
    Encodable(r) && r.kind != SEGMENT_HDR && r.lsn > minLSN
  }

  /** The directory after a recovered writer appended rs at its resume offset. */
  function Appended(segs: seq<Segment>, rs: seq<Record>): (r: seq<Segment>)
    requires segs != []
  {
    var n := |segs| - 1;
    segs[..n] + [segs[n].(data := segs[n].data + EncodeAll(rs))]
  }

  lemma {:induction false} AboveAll(rs: seq<Record>, minLSN: nat)
    requires forall i | 0 <= i < |rs| :: rs[i].lsn > minLSN
    ensures Above(rs, minLSN) == rs
  {
    if rs != [] {
      AboveAll(rs[1..], minLSN);
      assert rs == [rs[0]] + rs[1..];
    }
  }

  /** Appending after recovery and recovering again works exactly when the resume
      offset lies past the segment header. At offset 0 the segment is reopened
      without a header, and the next start refuses the log. */
  lemma ResumeIsSafeIff(segs: seq<Segment>, minLSN: nat, rs: seq<Record>)
    requires segs != [] && rs != [] && forall i | 0 <= i < |rs| :: Loggable(rs[i], minLSN)
    requires ReplayOf(segs, minLSN, false).Recovered?
    ensures var r := ReplayOf(segs, minLSN, false);
            var again := ReplayOf(Appended(r.segs, rs), minLSN, false);
            && (again.Recovered? <==> r.resume.offset > 0)
            && (again.Recovered? ==> again.applied == r.applied + rs)
  {
    hide ScanOf, LastRead, Delivered, Above, Highest, EncodeAll;
    var n := LastRead(segs);
    var scan := ScanOf(segs[n].data);
    var cut := Cut(segs[n], scan.lastGood);
    var last := cut.(data := cut.data + EncodeAll(rs));
    BeforeLastRead(segs);
    assert (segs[..n] + [cut])[..n] == segs[..n];
    ReplayHealthy(segs[..n], last, minLSN, false);
    ScanOfCut(segs[n].data);
    if scan.lastGood == 0 {
      StartsWith(rs);
      assert last.data == EncodeAll(rs);
      ScanHeaderless(rs[0], EncodeAll(rs[1..]));
    } else {
      ScanAppend(cut.data, rs);
      AboveConcat(scan.records, rs, minLSN);
      AboveAll(rs, minLSN);
      var x, y := Delivered(segs[..n], minLSN), Above(scan.records, minLSN);
      assert x + (y + rs) == (x + y) + rs;
    }
  }

  lemma StartsWith(rs: seq<Record>)
    requires rs != []
    ensures EncodeAll(rs) == Encode(rs[0]) + EncodeAll(rs[1..])
  {
  }

  // Pruning

  predicate Below(rs: seq<Record>, bound: nat) {
    forall i | 0 <= i < |rs| :: rs[i].lsn < bound
  }

  /** Segments hold increasing LSN ranges: everything in one lies below the next
      one's first LSN. */
  predicate Ordered(segs: seq<Segment>) {
    forall i | 1 <= i < |segs| :: Below(ScanOf(segs[i - 1].data).records, segs[i].first)
  }

  /** The first n segments are selected: each successor starts at or below the
      record after the snapshot. */
  predicate Covered(segs: seq<Segment>, n: nat, snapshot: nat)
    requires n < |segs|
  {
    forall i | 1 <= i <= n :: segs[i].first <= snapshot + 1
  }

  /** Deletes, oldest first, every segment the next one shows to be covered by
      the snapshot; the last segment always stays. */
  method TruncateBelow(dir: Directory, lastIncludedLSN: nat) returns (removed: nat)
    modifies dir
    ensures removed <= |old(dir.segs)| && dir.segs == old(dir.segs)[removed..]
    ensures old(dir.segs) == [] ==> removed == 0
    ensures old(dir.segs) != [] ==>
        && removed < |old(dir.segs)|
        && Covered(old(dir.segs), removed, lastIncludedLSN)
        && (removed + 1 < |old(dir.segs)| ==> !Covered(old(dir.segs), removed + 1, lastIncludedLSN))
    ensures forall i :: 1 <= i <= removed ==> old(dir.segs)[i].first <= lastIncludedLSN + 1
    ensures removed + 1 < |old(dir.segs)| ==> old(dir.segs)[removed + 1].first > lastIncludedLSN + 1
  {
    var segs := dir.segs;
    removed := 0;
    while removed + 1 < |segs|
      invariant removed <= |segs| && dir.segs == segs[removed..]
      invariant segs != [] ==> removed < |segs| && Covered(segs, removed, lastIncludedLSN)
      invariant forall i :: 1 <= i <= removed ==> segs[i].first <= lastIncludedLSN + 1
    {
      if segs[removed + 1].first > lastIncludedLSN + 1 {
        break;
      }
      dir.segs := dir.segs[1..];
      removed := removed + 1;
    }
  }

  lemma {:induction false} AboveNothing(rs: seq<Record>, minLSN: nat)
    requires Below(rs, minLSN + 1)
    ensures Above(rs, minLSN) == []
  {
    if rs != [] {
      AboveNothing(rs[1..], minLSN);
    }
  }

  lemma {:induction false} CoveredDeliverNothing(segs: seq<Segment>, n: nat, minLSN: nat)
    requires Ordered(segs) && n < |segs| && Covered(segs, n, minLSN)
    ensures Delivered(segs[..n], minLSN) == []
  {
    hide ScanOf, Above;
    if n > 0 {
      CoveredDeliverNothing(segs, n - 1, minLSN);
      DeliveredSnoc(segs, n - 1, minLSN);
      assert Below(ScanOf(segs[n - 1].data).records, segs[n].first);
      AboveNothing(ScanOf(segs[n - 1].data).records, minLSN);
    }
  }

  /** A covered segment holds nothing above the snapshot, faulty or not. */
  lemma CoveredHoldsNothing(segs: seq<Segment>, n: nat, k: nat, minLSN: nat)
    requires Ordered(segs) && n < |segs| && Covered(segs, n, minLSN) && k < n
    ensures Above(ScanOf(segs[k].data).records, minLSN) == [] && Delivered(segs[..k], minLSN) == []
  {
    hide ScanOf, Above, Delivered;
    assert Below(ScanOf(segs[k].data).records, segs[k + 1].first);
    AboveNothing(ScanOf(segs[k].data).records, minLSN);
    CoveredDeliverNothing(segs, k, minLSN);
  }

  lemma FirstFaultAfter(segs: seq<Segment>, n: nat)
    requires n < |segs| && FirstFault(segs) >= n
    ensures FirstFault(segs[n..]) == FirstFault(segs) - n && LastRead(segs[n..]) == LastRead(segs) - n
  {
    hide ScanOf, FirstFault;
    FirstFaultMeans(segs);
    FirstFaultIs(segs[n..], FirstFault(segs) - n);
  }

  /** The same for whoever called Replay. */
  predicate SameOutcome(a: Replayed, b: Replayed) {
    if a.Refused? then a == b
    else b.Recovered? && a.applied == b.applied && a.nextLSN == b.nextLSN && a.resume == b.resume
  }

  /** Recovery from any snapshot, when segments at the front are gone: it succeeds, or is refused, as
      with them, and silently applies what they held no more. */
  lemma GapIff(segs: seq<Segment>, n: nat, minLSN: nat, unsafeTruncate: bool)
    requires n < |segs| && FirstFault(segs) >= n
    ensures var r, left := ReplayOf(segs, minLSN, unsafeTruncate), ReplayOf(segs[n..], minLSN, unsafeTruncate);
            && (r.Refused? ==> left == r)
            && (r.Recovered? ==> left.Recovered? && r.applied == Delivered(segs[..n], minLSN) + left.applied)
            && (SameOutcome(r, left) <==> r.Refused? || Delivered(segs[..n], minLSN) == [])
  {
    hide ScanOf, LastRead, FirstFault, Delivered, Above, Highest;
    FirstFaultAfter(segs, n);
    var m, rest := LastRead(segs), segs[n..];
    assert rest[m - n] == segs[m] && rest[..m - n] == segs[n..m] && segs[..m] == segs[..n] + segs[n..m];
    DeliveredConcat(segs[..n], segs[n..m], minLSN);
    var gone, above := Delivered(segs[..n], minLSN), Above(ScanOf(segs[m].data).records, minLSN);
    JoinAssoc(gone, Delivered(segs[n..m], minLSN), above);
    JoinEmpty(gone, Delivered(segs[n..m], minLSN) + above);
  }

  lemma PruneBeforeFault(segs: seq<Segment>, n: nat, minLSN: nat, unsafeTruncate: bool)
    requires Ordered(segs) && n < |segs| && Covered(segs, n, minLSN) && FirstFault(segs) >= n
    ensures SameOutcome(ReplayOf(segs, minLSN, unsafeTruncate), ReplayOf(segs[n..], minLSN, unsafeTruncate))
  {
    hide FirstFault, Delivered, Ordered, Covered, ReplayOf;
    GapIff(segs, n, minLSN, unsafeTruncate);
    CoveredDeliverNothing(segs, n, minLSN);
  }

  lemma FaultInPruned(segs: seq<Segment>, n: nat, minLSN: nat, unsafeTruncate: bool)
    requires Ordered(segs) && n < |segs| && Covered(segs, n, minLSN) && FirstFault(segs) < n
    ensures var r, k := ReplayOf(segs, minLSN, unsafeTruncate), FirstFault(segs);
            if unsafeTruncate then r.Recovered? && r.applied == []
            else r == Refused(segs[k].first, ScanOf(segs[k].data).lastGood)
  {
    hide ScanOf, FirstFault, Delivered, Above, Ordered, Covered;
    CoveredHoldsNothing(segs, n, FirstFault(segs), minLSN);
  }

  /** Removing any initial run of the segments TruncateBelow selects, as a crash midway leaves it.
      While the fault, if there is one, lies in what is left, nothing changes about a recovery from
      that snapshot: it applies the same records, or refuses at the same place. A fault in what is
      removed goes with it: a refused log is from then on recovered as the rest is, and under
      unsafe truncation the records behind the fault, until then cut off, are applied. */
  lemma PruneIsInvisible(segs: seq<Segment>, n: nat, minLSN: nat, unsafeTruncate: bool)
    requires Ordered(segs) && n < |segs| && Covered(segs, n, minLSN)
    ensures var r, pruned := ReplayOf(segs, minLSN, unsafeTruncate), ReplayOf(segs[n..], minLSN, unsafeTruncate);
            && (r.Recovered? && !unsafeTruncate ==> FirstFault(segs) >= n)
            && (FirstFault(segs) >= n ==> SameOutcome(r, pruned))
            && (FirstFault(segs) < n && !unsafeTruncate ==> r.Refused? && r.first == segs[FirstFault(segs)].first)
            && (unsafeTruncate ==> r.Recovered? && pruned.Recovered?)
            && (unsafeTruncate ==> (pruned.applied == r.applied <==> FirstFault(segs) >= n || pruned.applied == []))
  {
    hide ScanOf, FirstFault, Delivered, Above, Highest, Ordered, Covered, Settled;
    if FirstFault(segs) >= n {
      PruneBeforeFault(segs, n, minLSN, unsafeTruncate);
    } else {
      FaultInPruned(segs, n, minLSN, unsafeTruncate);
    }
  }

  /** An empty segment file in front of one that holds a record: refused before pruning and
      recovered after it, and with unsafe truncation nothing before and the record after. */
  lemma PruneUncovers(r: Record, now: nat)
    requires Loggable(r, 0) && r.lsn == 1 && now < U64
    ensures var segs := [Segment(0, []), Segment(1, SegmentBytes(NewSegmentHeader(1, now), [r]))];
            && Ordered(segs) && Covered(segs, 1, 0)
            && ReplayOf(segs, 0, false).Refused? && ReplayOf(segs, 0, true).applied == []
            && ReplayOf(segs[1..], 0, false).Recovered? && ReplayOf(segs[1..], 0, false).applied == [r]
            && ReplayOf(segs[1..], 0, true).Recovered? && ReplayOf(segs[1..], 0, true).applied == [r]
  {
    hide ScanOf, SegmentBytes, NewSegmentHeader, Encodable, ValidSegmentHeader;
    var last := Segment(1, SegmentBytes(NewSegmentHeader(1, now), [r]));
    var segs := [Segment(0, []), last];
    ScanEmpty();
    ScanComplete(NewSegmentHeader(1, now), [r]);
    assert segs[1..] == [last] && FirstFault(segs) == 0 && FirstFault([last]) == 1 + FirstFault([last][1..]) == 1;
    assert segs[..0] == [] && [last][..0] == [];
    assert Above([r], 0) == [r] + Above([r][1..], 0) && [r][1..] == [];
    PruneIsInvisible(segs, 1, 0, false);
    PruneIsInvisible(segs, 1, 0, true);
  }
}
