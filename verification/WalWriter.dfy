/** Group commit as a step system (internal/wal/writer.go, internal/wal/segment.go)
    under fsync=always and without I/O errors: submissions, batching, rotation,
    write, fsync and acknowledgement, cut by crashes at any point, followed by
    recovery and more of the same. */
module WalWriter {
  import opened Bytes
  import opened WalRecord
  import opened WalScan
  import opened WalReplay

  /** Whether a directory entry survives a crash: for certain, or not because its
      creation or its removal has not been synced. */
  datatype Link = Durable | Added | Removed

  /** A segment file. The last three fields are what the disk model needs to know:
      the records written after the header, how many bytes an fsync has covered,
      and the state of the directory entry. `made` is the header's time stamp. */
  datatype File = File(seg: Segment, made: nat, held: seq<Record>, synced: nat, link: Link)

  datatype Phase =
    | Down                // the process is not running
    | Idle                // waiting for a submission
    | Gathered            // has a batch that may still grow
    | RotateSynced        // rotate: the old segment is synced and closed (or Open found none)
    | Created             // createSegment: the file exists and is empty
    | HeaderWritten
    | HeaderSynced
    | Ready               // the open segment may take the batch
    | Written
    | Synced(done: nat)   // durable; `done` commits finished so far

  /** log holds every record that has an LSN and was not lost to a crash, acked how
      many of them had their commit finished, snap the LSN of the newest durable
      snapshot. */
  datatype State = State(phase: Phase, disk: seq<File>, queue: seq<Record>, batch: seq<Record>,
                         nextLSN: nat, durableLSN: nat, snap: nat, log: seq<Record>, acked: nat)

  datatype Config = Config(segmentSize: nat, groupCommitMax: nat)

  /** config.Validate demands at least 4096 bytes per segment. */
  predicate ValidConfig(c: Config) {
    c.segmentSize >= 4096 && c.groupCommitMax >= 1
  }

  /** Segment names carry sixteen digits. */
  const MAX_LSN: nat := 1_0000_0000_0000_0000

  /** The run loop up to the rotation decision of flushBatch. */
  datatype GatherStep = Take | Accumulate | Rotate | Keep

  /** createSegment, called by rotate and by Open. */
  datatype CreateStep = CreateFile(now: nat) | WriteHeader | SyncHeader | SyncEntry

  /** The rest of flushBatch. */
  datatype CommitStep = Write | Sync | Finish | EndBatch

  /** Snapshots and the pruning they allow. Forget and Pin are the effects of a
      directory fsync: a removal, or a creation, becomes certain. */
  datatype PruneStep = Checkpoint(lsn: nat) | Unlink(i: nat) | Forget(i: nat) | Pin

  /** Lose and Tear are what a crash may do to the disk: an entry that was not
      certain disappears, a file keeps some prefix no shorter than its last synced
      length. */
  datatype CrashStep = Crash | Lose(i: nat) | Tear(i: nat, n: nat) | Recover

  datatype Event =
    | Submit(r: Record) | Gather(gather: GatherStep) | Create(create: CreateStep)
    | Commit(commit: CommitStep) | Prune(prune: PruneStep) | Fail(fail: CrashStep)

  // Disk operations

  function Header(f: File): (r: Record) {
    NewSegmentHeader(f.seg.first, f.made)
  }

  /** The contents the writer gave a file, before any crash. */
  function Full(f: File): (r: Bytes) {
    SegmentBytes(Header(f), f.held)
  }

  function OnLast(disk: seq<File>, f: File): (r: seq<File>)
    requires disk != []
    ensures |r| == |disk|
  {
    disk[..|disk| - 1] + [f]
  }

  function LastOf(disk: seq<File>): (r: File)
    requires disk != []
  {
    disk[|disk| - 1]
  }

  function Fsync(f: File): (r: File) {
    f.(synced := |f.seg.data|)
  }

  function Segments(disk: seq<File>): (s: seq<Segment>)
    ensures |s| == |disk|
    ensures forall i | 0 <= i < |disk| :: s[i] == disk[i].seg
  {
    seq(|disk|, i requires 0 <= i < |disk| => disk[i].seg)
  }

  /** The records wholly inside the first n bytes of a file. */
  function Surviving(f: File, n: nat): (rs: seq<Record>)
    ensures rs <= f.held
  {
    if n < SEGMENT_HEADER_LEN then [] else f.held[..WholeRecords(f.held, n - SEGMENT_HEADER_LEN)]
  }

  /** What a restarted process finds: everything left is on stable storage. */
  function Settle(disk: seq<File>): (d: seq<File>)
    ensures |d| == |disk|
    ensures forall i | 0 <= i < |disk| :: d[i] == Fsync(disk[i]).(link := Durable)
  {
    seq(|disk|, i requires 0 <= i < |disk| => Fsync(disk[i]).(link := Durable))
  }

  /** Recovery's truncation of the last segment, fsynced. */
  function CutLast(disk: seq<File>): (r: seq<File>)
    requires disk != []
  {
    var d := Settle(disk);
    var f := LastOf(d);
    OnLast(d, Fsync(f.(seg := Cut(f.seg, ScanOf(f.seg.data).lastGood),
                       held := Surviving(f, |f.seg.data|))))
  }

  // Steps

  /** Open has not returned yet: its first segment is still being made. */
  predicate Booting(s: State) {
    s.batch == [] && s.phase in {RotateSynced, Created, HeaderWritten, HeaderSynced}
  }

  predicate Up(s: State) {
    s.phase != Down && !Booting(s)
  }

  predicate GatherEnabled(c: Config, s: State, e: GatherStep) {
    match e
    case Take => s.phase == Idle && s.queue != []
    case Accumulate => s.phase == Gathered && s.queue != [] && |s.batch| < c.groupCommitMax
    case Rotate => s.phase == Gathered && s.disk != [] && |LastOf(s.disk).seg.data| >= c.segmentSize
    case Keep => s.phase == Gathered && s.disk != [] && |LastOf(s.disk).seg.data| < c.segmentSize
  }

  function GatherTo(c: Config, s: State, e: GatherStep): (r: State)
    requires GatherEnabled(c, s, e)
  {
    match e
    case Take => s.(phase := Gathered, batch := [s.queue[0]], queue := s.queue[1..])
    case Accumulate => s.(batch := s.batch + [s.queue[0]], queue := s.queue[1..])
    case Rotate => s.(phase := RotateSynced, disk := OnLast(s.disk, Fsync(LastOf(s.disk))))
    case Keep => s.(phase := Ready)
  }

  predicate CreateEnabled(s: State, e: CreateStep) {
    match e
    case CreateFile(now) => s.phase == RotateSynced && now < U64
    case WriteHeader => s.phase == Created && s.disk != []
    case SyncHeader => s.phase == HeaderWritten && s.disk != []
    case SyncEntry => s.phase == HeaderSynced && s.disk != []
  }

  function CreateTo(s: State, e: CreateStep): (r: State)
    requires CreateEnabled(s, e)
  {
    match e
    case CreateFile(now) => s.(phase := Created, disk := s.disk + [EmptyFile(s, now)])
    case WriteHeader => s.(phase := HeaderWritten, disk := OnLast(s.disk, WithHeader(LastOf(s.disk))))
    case SyncHeader => s.(phase := HeaderSynced, disk := OnLast(s.disk, Fsync(LastOf(s.disk))))
    case SyncEntry =>
      s.(phase := if s.batch == [] then Idle else Ready, disk := OnLast(s.disk, LastOf(s.disk).(link := Durable)))
  }

  /** The new segment is named by the LSN its first record will have. */
  function EmptyFile(s: State, now: nat): (r: File) {
    File(Segment(if s.batch == [] then s.nextLSN else s.batch[0].lsn, []), now, [], 0, Added)
  }

  function WithHeader(f: File): (r: File) {
    f.(seg := f.seg.(data := Encode(Header(f))))
  }

  predicate CommitEnabled(s: State, e: CommitStep) {
    match e
    case Write => s.phase == Ready && s.disk != []
    case Sync => s.phase == Written && s.disk != [] && s.batch != []
    case Finish => s.phase.Synced? && s.phase.done < |s.batch|
    case EndBatch => s.phase == Synced(|s.batch|)
  }

  function CommitTo(s: State, e: CommitStep): (r: State)
    requires CommitEnabled(s, e)
  {
    match e
    case Write => s.(phase := Written, disk := OnLast(s.disk, WithBatch(LastOf(s.disk), s.batch)))
    case Sync =>
      s.(phase := Synced(0), disk := OnLast(s.disk, Fsync(LastOf(s.disk))),
         durableLSN := s.batch[|s.batch| - 1].lsn)
    case Finish => s.(phase := Synced(s.phase.done + 1), acked := s.batch[s.phase.done].lsn)
    case EndBatch => s.(phase := Idle, batch := [])
  }

  function WithBatch(f: File, batch: seq<Record>): (r: File) {
    f.(seg := f.seg.(data := f.seg.data + EncodeAll(batch)), held := f.held + batch)
  }

  predicate PruneEnabled(s: State, e: PruneStep) {
    match e
    case Checkpoint(lsn) => Up(s) && s.snap <= lsn <= s.durableLSN
    case Unlink(i) => Up(s) && i + 1 < |s.disk| && s.disk[i].link == Durable && s.disk[i + 1].seg.first <= s.snap + 1
    case Forget(i) => s.phase != Down && i < |s.disk| && s.disk[i].link == Removed
    case Pin => s.phase != Down && s.disk != [] && LastOf(s.disk).link == Added
  }

  function PruneTo(s: State, e: PruneStep): (r: State)
    requires PruneEnabled(s, e)
  {
    match e
    case Checkpoint(lsn) => s.(snap := lsn)
    case Unlink(i) => s.(disk := s.disk[i := s.disk[i].(link := Removed)])
    case Forget(i) => s.(disk := Without(s.disk, i))
    case Pin => s.(disk := OnLast(s.disk, LastOf(s.disk).(link := Durable)))
  }

  predicate CrashEnabled(s: State, e: CrashStep) {
    match e
    case Crash => s.phase != Down
    case Lose(i) => s.phase == Down && i < |s.disk| && s.disk[i].link != Durable
    case Tear(i, n) => s.phase == Down && i < |s.disk| && s.disk[i].synced <= n <= |s.disk[i].seg.data|
    case Recover => s.phase == Down && Recovery(s).Recovered?
  }

  function CrashTo(s: State, e: CrashStep): (r: State)
    requires CrashEnabled(s, e)
  {
    match e
    case Crash => s.(phase := Down, queue := [], batch := [])
    case Lose(i) => s.(disk := Without(s.disk, i))
    case Tear(i, n) => s.(disk := s.disk[i := s.disk[i].(seg := Cut(s.disk[i].seg, n))])
    case Recover => Restarted(s, Recovery(s).nextLSN)
  }

  /** What Replay makes of the disk. */
  function Recovery(s: State): (r: Replayed) {
    ReplayOf(Segments(s.disk), s.snap, false)
  }

  /** Open after a replay that reached nextLSN. */
  function Restarted(s: State, nextLSN: nat): (r: State) {
    s.(phase := if s.disk == [] then RotateSynced else Idle,
       disk := if s.disk == [] then [] else CutLast(s.disk),
       nextLSN := nextLSN, durableLSN := if nextLSN == 0 then 0 else nextLSN - 1,
       log := if nextLSN == 0 then [] else Upto(s.log, nextLSN - 1))
  }

  predicate SubmitEnabled(s: State, r: Record) {
    Up(s) && Encodable(r) && r.kind != SEGMENT_HDR && s.nextLSN < MAX_LSN
  }

  /** Submit numbers the record and queues it in one critical section. */
  function SubmitTo(s: State, r: Record): (t: State) {
    var rec := r.(lsn := s.nextLSN);
    s.(queue := s.queue + [rec], nextLSN := s.nextLSN + 1, log := s.log + [rec])
  }

  predicate Enabled(c: Config, s: State, e: Event) {
    match e
    case Submit(r) => SubmitEnabled(s, r)
    case Gather(e) => GatherEnabled(c, s, e)
    case Create(e) => CreateEnabled(s, e)
    case Commit(e) => CommitEnabled(s, e)
    case Prune(e) => PruneEnabled(s, e)
    case Fail(e) => CrashEnabled(s, e)
  }

  function Apply(c: Config, s: State, e: Event): (r: State)
    requires Enabled(c, s, e)
  {
    match e
    case Submit(r) => SubmitTo(s, r)
    case Gather(e) => GatherTo(c, s, e)
    case Create(e) => CreateTo(s, e)
    case Commit(e) => CommitTo(s, e)
    case Prune(e) => PruneTo(s, e)
    case Fail(e) => CrashTo(s, e)
  }

  /** The records numbered up to lsn. */
  function Upto(log: seq<Record>, lsn: nat): (r: seq<Record>) {
    if lsn <= |log| then log[..lsn] else log
  }

  /** A recovery after which appending is sound: there is no segment to resume, or
      the resume offset lies past its header. */
  predicate SafeRecovery(s: State) {
    Recovery(s).Recovered? && (Recovery(s).resume.At? ==> Recovery(s).resume.offset > 0)
  }

  /** An empty directory. */
  function Init(): (r: State) {
    State(Down, [], [], [], 1, 0, 0, [], 0)
  }

  /** A run: every step is possible, and every recovery is safe to append after. */
  predicate Run(c: Config, s: State, events: seq<Event>)
    decreases |events|
  {
    events == []
    || (&& Enabled(c, s, events[0])
        && (events[0] == Fail(Recover) ==> SafeRecovery(s))
        && Run(c, Apply(c, s, events[0]), events[1..]))
  }

  function After(c: Config, s: State, events: seq<Event>): (r: State)
    requires Run(c, s, events)
    decreases |events|
  {
    if events == [] then s else After(c, Apply(c, s, events[0]), events[1..])
  }

  // The invariant

  predicate Numbered(log: seq<Record>) {
    forall i | 0 <= i < |log| :: log[i].lsn == i + 1 && Encodable(log[i]) && log[i].kind != SEGMENT_HDR
  }

  /** Every record written to the files, in file order. */
  function HeldAll(disk: seq<File>): (r: seq<Record>) {
    if disk == [] then [] else disk[0].held + HeldAll(disk[1..])
  }

  /** The records a crash cannot take away. */
  function SafeRecords(disk: seq<File>): (r: seq<Record>) {
    if disk == [] then []
    else HeldAll(disk[..|disk| - 1]) + Surviving(LastOf(disk), LastOf(disk).synced)
  }

  predicate FileOk(f: File) {
    && f.seg.first < U64 && f.made < U64
    && AllEncodable(f.held)
    && f.synced <= |f.seg.data| && f.seg.data <= Full(f)
  }

  /** Fully on stable storage. */
  predicate Complete(f: File) {
    f.synced == |Full(f)| && f.seg.data == Full(f)
  }

  predicate FilesOk(disk: seq<File>) {
    && (forall i | 0 <= i < |disk| :: FileOk(disk[i]))
    && (forall i | 0 <= i < |disk| - 1 :: Complete(disk[i]))
  }

  /** Entries that may vanish hold nothing recovery needs. */
  predicate LinksOk(disk: seq<File>, snap: nat) {
    forall i | 0 <= i < |disk| ::
      && (disk[i].link == Removed ==> Above(disk[i].held, snap) == [])
      && (disk[i].link == Added ==> i == |disk| - 1 && disk[i].held == [])
  }

  /** Names ascend, and a file's records are numbered from its name on, below every
      later name. */
  predicate NamesOk(disk: seq<File>, written: nat) {
    && (forall i | 0 <= i < |disk| :: NumberedFrom(disk[i].held, disk[i].seg.first, written))
    && (forall i, j | 0 <= i < j < |disk| ::
          disk[i].seg.first < disk[j].seg.first && Below(disk[i].held, disk[j].seg.first))
  }

  predicate NumberedFrom(rs: seq<Record>, first: nat, written: nat) {
    1 <= first <= written + 1 && forall i | 0 <= i < |rs| :: first <= rs[i].lsn <= written
  }

  /** The files hold exactly the log between the snapshot and `written`, and the
      durable part of it cannot be lost. */
  predicate LogOk(s: State, written: nat) {
    && Numbered(s.log)
    && |s.log| < MAX_LSN
    && s.acked <= s.durableLSN && s.snap <= s.durableLSN <= written <= |s.log|
    && (forall i | 0 <= i < |s.disk| :: s.disk[i].seg.first <= s.durableLSN + 1)
    && Above(HeldAll(s.disk), s.snap) == s.log[s.snap..written]
    && |Above(SafeRecords(s.disk), s.snap)| >= s.durableLSN - s.snap
  }

  predicate DiskOk(s: State, written: nat) {
    && FilesOk(s.disk) && LinksOk(s.disk, s.snap) && NamesOk(s.disk, written) && LogOk(s, written)
  }

  /** How many records have been handed to the files. */
  function WrittenCount(s: State): (r: int) {
    |s.log| - |s.queue| - if s.phase == Written || s.phase.Synced? then 0 else |s.batch|
  }

  /** The queue and the batch are the tail of the log, in LSN order. */
  predicate QueueOk(s: State) {
    && s.nextLSN == |s.log| + 1
    && 0 <= WrittenCount(s)
    && s.queue == s.log[|s.log| - |s.queue|..]
    && (if s.phase == Written || s.phase.Synced?
        then |s.batch| <= WrittenCount(s) && s.batch == s.log[WrittenCount(s) - |s.batch|..WrittenCount(s)]
        else s.batch == s.log[WrittenCount(s)..WrittenCount(s) + |s.batch|])
  }

  predicate Open(disk: seq<File>) {
    disk != [] && LastOf(disk).link == Durable
  }

  /** The open segment is complete and everything written is durable. */
  predicate Steady(disk: seq<File>, durableLSN: nat, written: int) {
    Open(disk) && Complete(LastOf(disk)) && durableLSN == written
  }

  /** A segment under construction. */
  predicate New(disk: seq<File>, durableLSN: nat, written: int) {
    && disk != [] && LastOf(disk).link != Removed && LastOf(disk).held == []
    && durableLSN == written
  }

  /** The state of the open segment in each phase. */
  predicate PhaseOk(s: State) {
    match s.phase
    case Down => s.queue == [] && s.batch == []
    case Idle => s.batch == [] && Steady(s.disk, s.durableLSN, WrittenCount(s))
    case Gathered => s.batch != [] && Steady(s.disk, s.durableLSN, WrittenCount(s))
    case RotateSynced =>
      && s.durableLSN == WrittenCount(s)
      && (s.batch == [] ==> s.disk == [] && s.queue == [])
      && (s.batch != [] ==> Steady(s.disk, s.durableLSN, WrittenCount(s)) && LastOf(s.disk).held != [])
    case Created => Making(s) && LastOf(s.disk).seg.data == []
    case HeaderWritten => Making(s) && LastOf(s.disk).seg.data == Full(LastOf(s.disk))
    case HeaderSynced => Making(s) && Complete(LastOf(s.disk))
    case Ready => s.batch != [] && Steady(s.disk, s.durableLSN, WrittenCount(s))
    case Written =>
      && s.batch != [] && Open(s.disk) && LastOf(s.disk).seg.data == Full(LastOf(s.disk))
      && s.durableLSN == WrittenCount(s) - |s.batch|
    case Synced(done) =>
      && s.batch != [] && done <= |s.batch| && Steady(s.disk, s.durableLSN, WrittenCount(s))
      && s.acked <= WrittenCount(s) - |s.batch| + done
  }

  predicate Making(s: State) {
    New(s.disk, s.durableLSN, WrittenCount(s)) && (s.batch == [] ==> s.queue == [])
  }

  /** How far the files reach: all that recovery could still find. */
  function Reached(s: State): (r: nat) {
    s.snap + |Above(HeldAll(s.disk), s.snap)|
  }

  predicate Inv(s: State) {
    if s.phase == Down then PhaseOk(s) && DiskOk(s, Reached(s))
    else QueueOk(s) && PhaseOk(s) && DiskOk(s, WrittenCount(s))
  }

  // Facts about held records

  lemma {:induction false} HeldAllConcat(a: seq<File>, b: seq<File>)
    ensures HeldAll(a + b) == HeldAll(a) + HeldAll(b)
  {
    if a == [] {
      assert a + b == b;
    } else {
      HeldAllConcat(a[1..], b);
      JoinTail(a, b);
      JoinAssoc(a[0].held, HeldAll(a[1..]), HeldAll(b));
    }
  }

  lemma HeldOne(f: File)
    ensures HeldAll([f]) == f.held
  {
    assert [f][1..] == [] && f.held + [] == f.held;
  }

  lemma HeldAllLast(disk: seq<File>)
    requires disk != []
    ensures HeldAll(disk) == HeldAll(disk[..|disk| - 1]) + LastOf(disk).held
  {
    hide HeldAll;
    var n := |disk| - 1;
    assert disk == disk[..n] + [disk[n]];
    HeldAllConcat(disk[..n], [disk[n]]);
    HeldOne(disk[n]);
  }

  lemma AbovePrefix(a: seq<Record>, b: seq<Record>, snap: nat)
    requires a <= b
    ensures Above(a, snap) <= Above(b, snap)
  {
    hide Above;
    assert b == a + b[|a|..];
    AboveConcat(a, b[|a|..], snap);
  }

  lemma {:induction false} AboveAbove(rs: seq<Record>, m: nat, n: nat)
    requires m <= n
    ensures Above(Above(rs, m), n) == Above(rs, n)
  {
    if rs != [] {
      var first := if rs[0].lsn > m then [rs[0]] else [];
      AboveAbove(rs[1..], m, n);
      AboveConcat(first, Above(rs[1..], m), n);
      AboveOne(rs[0], n);
    }
  }

  lemma AboveOne(r: Record, n: nat)
    ensures Above([], n) == [] && Above([r], n) == if r.lsn > n then [r] else []
  {
    assert [r][1..] == [];
  }

  /** Filtering a run of consecutive LSNs cuts off its front. */
  lemma AboveOfRun(log: seq<Record>, lo: nat, hi: nat, n: nat)
    requires Numbered(log) && lo <= n <= hi <= |log|
    ensures Above(log[lo..hi], n) == log[n..hi]
  {
    hide Above;
    assert log[lo..hi] == log[lo..n] + log[n..hi];
    AboveConcat(log[lo..n], log[n..hi], n);
    AboveNothing(log[lo..n], n);
    AboveAll(log[n..hi], n);
  }

  // Facts about surviving bytes

  lemma {:induction false} WholeRecordsMonotone(rs: seq<Record>, m: nat, n: nat)
    requires m <= n
    ensures WholeRecords(rs, m) <= WholeRecords(rs, n)
  {
    if rs != [] && m >= EncodedLen(rs[0]) {
      WholeRecordsMonotone(rs[1..], m - EncodedLen(rs[0]), n - EncodedLen(rs[0]));
    }
  }

  lemma SurvivingMonotone(f: File, m: nat, n: nat)
    requires m <= n
    ensures Surviving(f, m) <= Surviving(f, n)
  {
    hide WholeRecords;
    if m >= SEGMENT_HEADER_LEN {
      WholeRecordsMonotone(f.held, m - SEGMENT_HEADER_LEN, n - SEGMENT_HEADER_LEN);
    }
  }

  lemma {:induction false} WholeRecordsOfConcat(a: seq<Record>, b: seq<Record>)
    ensures WholeRecords(a + b, |EncodeAll(a)|) >= |a|
  {
    hide Encode;
    if a != [] {
      WholeRecordsOfConcat(a[1..], b);
      assert (a + b)[1..] == a[1..] + b;
    }
  }

  lemma FullLen(f: File)
    ensures |Full(f)| == SEGMENT_HEADER_LEN + |EncodeAll(f.held)|
  {
    hide Encode, EncodeAll;
  }

  lemma SurvivingAll(f: File)
    ensures Surviving(f, |Full(f)|) == f.held
  {
    hide WholeRecords, Full, EncodeAll;
    FullLen(f);
    WholeRecordsAll(f.held);
  }

  /** With the last file fully synced nothing written can be lost. */
  lemma SafeAll(disk: seq<File>)
    requires disk != [] ==> LastOf(disk).synced == |Full(LastOf(disk))|
    ensures SafeRecords(disk) == HeldAll(disk)
  {
    hide Surviving, Full, HeldAll;
    if disk != [] {
      SurvivingAll(LastOf(disk));
      HeldAllLast(disk);
    } else {
      NoneHeld();
    }
  }

  lemma NoneHeld()
    ensures HeldAll([]) == []
  {
  }

  // Every step keeps the invariant

  /** The log grew at its end; nothing else moved. */
  lemma LogGrows(s: State, s': State, r: Record, written: nat)
    requires DiskOk(s, written) && s'.log == s.log + [r] && Numbered(s'.log) && |s'.log| < MAX_LSN
    requires s'.disk == s.disk && s'.snap == s.snap && s'.durableLSN == s.durableLSN && s'.acked == s.acked
    ensures DiskOk(s', written)
  {
    hide Above, HeldAll, SafeRecords, FilesOk, LinksOk, NamesOk;
    assert s'.log[s.snap..written] == s.log[s.snap..written];
  }

  lemma SubmitKeeps(s: State, r: Record)
    requires Inv(s) && SubmitEnabled(s, r)
    ensures Inv(SubmitTo(s, r))
  {
    hide DiskOk, QueueOk, PhaseOk, Numbered;
    var w, rec := WrittenCount(s), r.(lsn := s.nextLSN);
    SubmitQueue(s, rec);
    SubmitPhase(s, rec);
    NumberedOf(s, w);
    NumberedMore(s, r);
    LogGrows(s, SubmitTo(s, r), rec, w);
  }

  lemma NumberedMore(s: State, r: Record)
    requires QueueOk(s) && SubmitEnabled(s, r) && Numbered(s.log)
    ensures Numbered(s.log + [r.(lsn := s.nextLSN)]) && |s.log| + 1 < MAX_LSN
  {
  }

  /** What SubmitTo makes of the queue leaves the phase as it was. */
  lemma SubmitPhase(s: State, rec: Record)
    requires Up(s) && PhaseOk(s)
    ensures PhaseOk(s.(queue := s.queue + [rec], nextLSN := s.nextLSN + 1, log := s.log + [rec]))
  {
    hide Steady, New, Open, Complete, Full;
  }

  lemma NumberedOf(s: State, written: nat)
    requires DiskOk(s, written)
    ensures Numbered(s.log) && |s.log| < MAX_LSN
  {
  }

  lemma SubmitQueue(s: State, rec: Record)
    requires QueueOk(s)
    ensures QueueOk(s.(queue := s.queue + [rec], nextLSN := s.nextLSN + 1, log := s.log + [rec]))
    ensures WrittenCount(s.(queue := s.queue + [rec], nextLSN := s.nextLSN + 1, log := s.log + [rec])) ==
            WrittenCount(s)
  {
    var w, n := WrittenCount(s), |s.log| - |s.queue|;
    if s.phase == Written || s.phase.Synced? {
      SliceOfMore(s.log, rec, w - |s.batch|, n);
    } else {
      SliceOfMore(s.log, rec, w, n);
    }
  }

  lemma GatherKeeps(c: Config, s: State, e: GatherStep)
    requires ValidConfig(c) && Inv(s) && GatherEnabled(c, s, e)
    ensures Inv(GatherTo(c, s, e))
  {
    hide DiskOk, QueueOk, PhaseOk;
    Counted(s);
    var s', w := GatherTo(c, s, e), WrittenCount(s);
    match e {
      case Take => TakeKeeps(c, s);
      case Accumulate => AccumulateKeeps(c, s);
      case Rotate => RotateKeeps(c, s);
      case Keep => KeepKeeps(c, s);
    }
    DiskOkSame(s, s', w);
  }

  lemma Counted(s: State)
    requires QueueOk(s)
    ensures WrittenCount(s) >= 0
  {
  }

  lemma TakeKeeps(c: Config, s: State)
    requires QueueOk(s) && PhaseOk(s) && GatherEnabled(c, s, Take)
    ensures var s' := GatherTo(c, s, Take);
            QueueOk(s') && PhaseOk(s') && WrittenCount(s') == WrittenCount(s) && s'.disk == s.disk
  {
    hide Steady, New, Open, Complete, Full;
    var s', w := GatherTo(c, s, Take), WrittenCount(s);
    assert s.queue == s.log[w..];
    assert s'.batch == s.log[w..w + 1] && s'.queue == s.log[w + 1..];
  }

  lemma AccumulateKeeps(c: Config, s: State)
    requires QueueOk(s) && PhaseOk(s) && GatherEnabled(c, s, Accumulate)
    ensures var s' := GatherTo(c, s, Accumulate);
            QueueOk(s') && PhaseOk(s') && WrittenCount(s') == WrittenCount(s) && s'.disk == s.disk
  {
    hide Steady, New, Open, Complete, Full;
    var s', w, n := GatherTo(c, s, Accumulate), WrittenCount(s), |s.batch|;
    assert s.queue == s.log[w + n..];
    assert s'.batch == s.log[w..w + n + 1] && s'.queue == s.log[w + n + 1..];
  }

  lemma RotateKeeps(c: Config, s: State)
    requires ValidConfig(c) && QueueOk(s) && PhaseOk(s) && GatherEnabled(c, s, Rotate)
    ensures var s' := GatherTo(c, s, Rotate);
            QueueOk(s') && PhaseOk(s') && WrittenCount(s') == WrittenCount(s) && s'.disk == s.disk
  {
    hide Complete, Full;
    RotateChangesNothing(c, s);
  }

  lemma KeepKeeps(c: Config, s: State)
    requires QueueOk(s) && PhaseOk(s) && GatherEnabled(c, s, Keep)
    ensures var s' := GatherTo(c, s, Keep);
            QueueOk(s') && PhaseOk(s') && WrittenCount(s') == WrittenCount(s) && s'.disk == s.disk
  {
    hide Steady, New, Open, Complete, Full;
  }

  /** The open segment is already synced when a batch finds it full, and it is
      full only if it holds records. */
  lemma RotateChangesNothing(c: Config, s: State)
    requires ValidConfig(c) && Open(s.disk) && Complete(LastOf(s.disk)) && GatherEnabled(c, s, Rotate)
    ensures OnLast(s.disk, Fsync(LastOf(s.disk))) == s.disk && LastOf(s.disk).held != []
  {
    hide Full;
    var f := LastOf(s.disk);
    assert Fsync(f) == f;
    FullLen(f);
    if f.held == [] {
      NothingEncoded();
    }
  }

  lemma NothingEncoded()
    ensures EncodeAll([]) == []
  {
  }

  lemma CreateFileKeeps(s: State, now: nat)
    requires Inv(s) && CreateEnabled(s, CreateFile(now))
    ensures Inv(CreateTo(s, CreateFile(now)))
  {
    hide DiskOk, Full;
    var w := WrittenCount(s);
    NumberedOf(s, w);
    if s.batch != [] {
      assert s.batch[0] == s.log[w];
    }
    CreateFileDisk(s, CreateTo(s, CreateFile(now)), w);
  }

  lemma CreateFileDisk(s: State, s': State, written: nat)
    requires DiskOk(s, written) && s.durableLSN == written
    requires s.disk != [] ==> Open(s.disk) && Complete(LastOf(s.disk)) && LastOf(s.disk).held != []
    requires |s'.disk| == |s.disk| + 1 && s'.disk[..|s.disk|] == s.disk
    requires var f := LastOf(s'.disk);
             f.seg.first == written + 1 && f.made < U64 && f.held == [] && f.seg.data == [] && f.synced == 0
             && f.link == Added
    requires s'.log == s.log && s'.snap == s.snap && s'.durableLSN == s.durableLSN && s'.acked == s.acked
    ensures DiskOk(s', written)
  {
    hide Above, HeldAll, SafeRecords, FilesOk, NamesOk, Full;
    var f := LastOf(s'.disk);
    assert s'.disk == s.disk + [f];
    SafeAll(s.disk);
    SafeNew(s'.disk);
    AddFile(s.disk, f, written);
  }

  /** A new file's name lies above everything written, so it is never taken. */
  lemma AddFile(disk: seq<File>, f: File, written: nat)
    requires FilesOk(disk) && NamesOk(disk, written)
    requires disk != [] ==> Complete(LastOf(disk)) && LastOf(disk).held != []
    requires f.seg.first == written + 1 < U64 && f.made < U64 && f.held == [] && f.seg.data == [] && f.synced == 0
    ensures FilesOk(disk + [f]) && NamesOk(disk + [f], written)
    ensures forall i | 0 <= i < |disk| :: disk[i].seg.first < f.seg.first
  {
    hide Full;
    if disk != [] {
      var last := LastOf(disk);
      assert last.seg.first <= last.held[0].lsn <= written;
    }
  }

  /** A file that holds nothing yet adds nothing. */
  lemma SafeNew(disk: seq<File>)
    requires disk != [] && LastOf(disk).held == []
    ensures SafeRecords(disk) == HeldAll(disk[..|disk| - 1]) == HeldAll(disk)
  {
    hide HeldAll, WholeRecords;
    HeldAllLast(disk);
    assert HeldAll(disk[..|disk| - 1]) + [] == HeldAll(disk[..|disk| - 1]);
  }

  /** Changing only the last file, which holds the same records as before. */
  lemma ReplaceLast(disk: seq<File>, f: File, written: nat)
    requires disk != [] && FilesOk(disk) && NamesOk(disk, written) && FileOk(f)
    requires f.held == LastOf(disk).held && f.seg.first == LastOf(disk).seg.first
    ensures var d := OnLast(disk, f);
            FilesOk(d) && NamesOk(d, written) && HeldAll(d) == HeldAll(disk)
  {
    hide Full, FileOk, Complete, HeldAll;
    var d := OnLast(disk, f);
    HeldAllLast(d);
    HeldAllLast(disk);
    assert d[..|d| - 1] == disk[..|disk| - 1];
  }

  lemma WriteHeaderKeeps(s: State)
    requires Inv(s) && CreateEnabled(s, WriteHeader)
    ensures Inv(CreateTo(s, WriteHeader))
  {
    hide DiskOk, WithHeader, Full;
    WriteHeaderDisk(s, CreateTo(s, WriteHeader), WrittenCount(s));
  }

  lemma WriteHeaderDisk(s: State, s': State, written: nat)
    requires DiskOk(s, written) && s.disk != [] && LastOf(s.disk).held == [] && LastOf(s.disk).seg.data == []
    requires s' == s.(phase := s'.phase, disk := OnLast(s.disk, WithHeader(LastOf(s.disk))))
    ensures DiskOk(s', written)
    ensures var f, f' := LastOf(s.disk), LastOf(s'.disk);
            f'.held == [] && f'.link == f.link && f'.seg.data == Full(f')
  {
    hide Above, HeldAll, SafeRecords, FilesOk, NamesOk, Full, Encode;
    var f' := WithHeader(LastOf(s.disk));
    LastOk(s.disk);
    HeaderIsFull(f');
    ReplaceLast(s.disk, f', written);
    SafeNew(s.disk);
    SafeNew(s'.disk);
  }

  lemma LastOk(disk: seq<File>)
    requires disk != [] && FilesOk(disk)
    ensures FileOk(LastOf(disk))
  {
  }

  lemma HeaderIsFull(f: File)
    requires f.held == []
    ensures Full(f) == Encode(Header(f))
  {
    hide Encode;
    assert Encode(Header(f)) + [] == Encode(Header(f));
  }

  /** fsync of a file the writer finished makes all of it safe. */
  lemma SyncLast(s: State, s': State, written: nat)
    requires DiskOk(s, written) && s.disk != []
    requires LastOf(s.disk).seg.data == Full(LastOf(s.disk))
    requires s' == s.(phase := s'.phase, durableLSN := s'.durableLSN, disk := OnLast(s.disk, Fsync(LastOf(s.disk))))
    requires s.durableLSN <= s'.durableLSN <= written
    ensures DiskOk(s', written) && Complete(LastOf(s'.disk)) && LastOf(s'.disk).link == LastOf(s.disk).link
  {
    hide Above, HeldAll, SafeRecords, FilesOk, NamesOk, Full;
    var f' := Fsync(LastOf(s.disk));
    LastOk(s.disk);
    FullSame(LastOf(s.disk), f');
    ReplaceLast(s.disk, f', written);
    SafeAll(s'.disk);
  }

  lemma SyncHeaderKeeps(s: State)
    requires Inv(s) && CreateEnabled(s, SyncHeader)
    ensures Inv(CreateTo(s, SyncHeader))
  {
    hide DiskOk, Complete, Full;
    SyncLast(s, CreateTo(s, SyncHeader), WrittenCount(s));
  }

  lemma SyncKeeps(s: State)
    requires Inv(s) && CommitEnabled(s, Sync)
    ensures Inv(CommitTo(s, Sync))
  {
    hide DiskOk, QueueOk, PhaseOk, Complete, Full, Numbered, Fsync;
    Counted(s);
    var s', w := CommitTo(s, Sync), WrittenCount(s);
    NumberedOf(s, w);
    DurableBound(s, w);
    SyncReady(s);
    SyncLast(s, s', w);
    SyncPhase(s, s');
  }

  lemma SyncReady(s: State)
    requires QueueOk(s) && PhaseOk(s) && CommitEnabled(s, Sync) && Numbered(s.log)
    ensures s.batch[|s.batch| - 1].lsn == WrittenCount(s) && LastOf(s.disk).seg.data == Full(LastOf(s.disk))
    ensures LastOf(s.disk).link == Durable
  {
    hide Complete, Full;
    assert s.batch[|s.batch| - 1] == s.log[WrittenCount(s) - 1];
  }

  lemma SyncPhase(s: State, s': State)
    requires QueueOk(s) && PhaseOk(s) && CommitEnabled(s, Sync) && s.acked <= s.durableLSN
    requires s' == s.(phase := Synced(0), disk := s'.disk, durableLSN := WrittenCount(s)) && s'.disk != []
    requires Complete(LastOf(s'.disk)) && LastOf(s'.disk).link == Durable
    ensures QueueOk(s') && PhaseOk(s') && WrittenCount(s') == WrittenCount(s)
  {
    hide Complete, Full;
  }

  lemma DurableBound(s: State, written: nat)
    requires DiskOk(s, written)
    ensures s.acked <= s.durableLSN <= written <= |s.log| && s.snap <= s.durableLSN
  {
  }

  lemma SyncEntryKeeps(s: State)
    requires Inv(s) && CreateEnabled(s, SyncEntry)
    ensures Inv(CreateTo(s, SyncEntry))
  {
    hide DiskOk, Complete, Full;
    PinDisk(s, CreateTo(s, SyncEntry), WrittenCount(s));
  }

  lemma PinKeeps(s: State)
    requires Inv(s) && PruneEnabled(s, Pin)
    ensures Inv(PruneTo(s, Pin))
  {
    hide DiskOk, Complete, Full;
    var s' := PruneTo(s, Pin);
    assert s.phase == Created || s.phase == HeaderWritten || s.phase == HeaderSynced;
    PinDisk(s, s', WrittenCount(s));
  }

  lemma PinDisk(s: State, s': State, written: nat)
    requires DiskOk(s, written) && s.disk != [] && LastOf(s.disk).link != Removed
    requires s'.disk == OnLast(s.disk, LastOf(s.disk).(link := Durable))
    requires s'.log == s.log && s'.snap == s.snap && s'.durableLSN == s.durableLSN && s'.acked == s.acked
    ensures DiskOk(s', written)
    ensures var f, f' := LastOf(s.disk), LastOf(s'.disk);
            f' == f.(link := Durable) && Full(f') == Full(f) && (Complete(f) ==> Complete(f'))
  {
    hide Above, HeldAll, SafeRecords, FilesOk, NamesOk, Full;
    var f' := LastOf(s'.disk);
    LastOk(s.disk);
    FullSame(LastOf(s.disk), f');
    ReplaceLast(s.disk, f', written);
    SafeSame(s.disk, s'.disk);
  }

  lemma FullSame(f: File, g: File)
    requires f.seg.first == g.seg.first && f.made == g.made && f.held == g.held
    ensures Full(f) == Full(g)
  {
  }

  /** What survives depends on the synced length and the records only. */
  lemma SafeSame(disk: seq<File>, d: seq<File>)
    requires disk != [] && |d| == |disk| && d[..|disk| - 1] == disk[..|disk| - 1]
    requires LastOf(d).held == LastOf(disk).held && LastOf(d).synced == LastOf(disk).synced
    ensures SafeRecords(d) == SafeRecords(disk)
  {
    hide HeldAll, WholeRecords;
  }

  lemma WriteKeeps(s: State)
    requires Inv(s) && CommitEnabled(s, Write)
    ensures Inv(CommitTo(s, Write))
  {
    hide FilesOk, LinksOk, NamesOk, LogOk, Full, Complete, WithBatch;
    var s' := CommitTo(s, Write);
    assert WrittenCount(s') == WrittenCount(s) + |s.batch|;
    WriteFiles(s, s');
    WriteLog(s, s');
  }

  lemma FinishKeeps(s: State, e: CommitStep)
    requires Inv(s) && CommitEnabled(s, e) && (e == Finish || e == EndBatch)
    ensures Inv(CommitTo(s, e))
  {
    hide DiskOk, QueueOk, PhaseOk, Numbered;
    Counted(s);
    var s', w := CommitTo(s, e), WrittenCount(s);
    DurableBound(s, w);
    NumberedOf(s, w);
    FinishPhase(s, e);
    AckedDisk(s, s'.acked, w);
    DiskOkSame(s.(acked := s'.acked), s', w);
  }

  lemma FinishPhase(s: State, e: CommitStep)
    requires QueueOk(s) && PhaseOk(s) && CommitEnabled(s, e) && (e == Finish || e == EndBatch)
    requires Numbered(s.log) && s.acked <= s.durableLSN
    ensures var s' := CommitTo(s, e);
            QueueOk(s') && PhaseOk(s') && WrittenCount(s') == WrittenCount(s) && s'.acked <= s.durableLSN
  {
    hide New, Open, Complete, Full, Numbered;
    if e == Finish {
      AckedOne(s, WrittenCount(s));
    }
  }

  lemma AckedOne(s: State, w: nat)
    requires QueueOk(s) && PhaseOk(s) && CommitEnabled(s, Finish) && Numbered(s.log) && w == WrittenCount(s)
    ensures s.batch[s.phase.done].lsn == w - |s.batch| + s.phase.done + 1 <= s.durableLSN
  {
    hide Open, Complete, Full;
    assert s.batch[s.phase.done] == s.log[w - |s.batch| + s.phase.done];
  }

  lemma AckedDisk(s: State, acked: nat, written: nat)
    requires DiskOk(s, written) && acked <= s.durableLSN
    ensures DiskOk(s.(acked := acked), written)
  {
    hide Above, HeldAll, SafeRecords, FilesOk, NamesOk, LinksOk;
  }

  lemma WriteFiles(s: State, s': State)
    requires QueueOk(s) && DiskOk(s, WrittenCount(s)) && s.phase == Ready && s.batch != []
    requires Open(s.disk) && Complete(LastOf(s.disk))
    requires s'.disk == OnLast(s.disk, WithBatch(LastOf(s.disk), s.batch))
    ensures FilesOk(s'.disk) && LinksOk(s'.disk, s.snap) && NamesOk(s'.disk, WrittenCount(s) + |s.batch|)
    ensures s'.disk != [] && LastOf(s'.disk).seg.data == Full(LastOf(s'.disk)) && LastOf(s'.disk).link == Durable
  {
    hide Above, HeldAll, SafeRecords, EncodeAll, Encode, Full, QueueOk, FileOk, Numbered, NumberedFrom, LogOk;
    Counted(s);
    var f, w := LastOf(s.disk), WrittenCount(s);
    BatchNumbers(s, w);
    LastOk(s.disk);
    WithBatchOk(f, s.batch, w);
    forall i | 0 <= i < |s'.disk| - 1 ensures s'.disk[i] == s.disk[i] {
    }
    forall i | 0 <= i < |s.disk| ensures NumberedFrom(s.disk[i].held, s.disk[i].seg.first, w + |s.batch|) {
      NumberedUpTo(s.disk[i].held, s.disk[i].seg.first, w, w + |s.batch|);
    }
  }

  /** The batch is the log after what is written. */
  lemma BatchNumbers(s: State, w: nat)
    requires QueueOk(s) && LogOk(s, w) && s.phase == Ready && w == WrittenCount(s)
    ensures AllEncodable(s.batch) && forall i | 0 <= i < |s.batch| :: s.batch[i].lsn == w + i + 1
  {
    hide Above, HeldAll, SafeRecords, Encodable;
    forall i | 0 <= i < |s.batch| ensures s.batch[i] == s.log[w + i] {
    }
  }

  lemma NumberedUpTo(rs: seq<Record>, first: nat, w: nat, more: nat)
    requires NumberedFrom(rs, first, w) && w <= more
    ensures NumberedFrom(rs, first, more)
  {
  }

  lemma WithBatchOk(f: File, batch: seq<Record>, w: nat)
    requires FileOk(f) && Complete(f) && NumberedFrom(f.held, f.seg.first, w)
    requires AllEncodable(batch) && forall i | 0 <= i < |batch| :: batch[i].lsn == w + i + 1
    ensures var g := WithBatch(f, batch);
            FileOk(g) && g.seg.data == Full(g) && NumberedFrom(g.held, g.seg.first, w + |batch|)
  {
    hide EncodeAll, Encode, Encodable;
    EncodeAllConcat(f.held, batch);
    JoinAssoc(Encode(Header(f)), EncodeAll(f.held), EncodeAll(batch));
  }

  lemma WriteLog(s: State, s': State)
    requires QueueOk(s) && DiskOk(s, WrittenCount(s)) && s.phase == Ready && s.batch != []
    requires Open(s.disk) && Complete(LastOf(s.disk))
    requires s'.disk == OnLast(s.disk, WithBatch(LastOf(s.disk), s.batch))
    requires s' == s.(phase := s'.phase, disk := s'.disk)
    ensures LogOk(s', WrittenCount(s) + |s.batch|)
  {
    hide Above, HeldAll, SafeRecords, EncodeAll, FilesOk, NamesOk, LinksOk, Full;
    HeldGrows(s.disk, s'.disk, s.batch);
    LogReaches(s, HeldAll(s.disk), s.batch, WrittenCount(s));
    StillSafe(s.disk, s'.disk, s.batch);
    AbovePrefix(SafeRecords(s.disk), SafeRecords(s'.disk), s.snap);
  }

  lemma LogReaches(s: State, held: seq<Record>, batch: seq<Record>, w: nat)
    requires Numbered(s.log) && s.snap <= w && w + |batch| <= |s.log|
    requires Above(held, s.snap) == s.log[s.snap..w] && batch == s.log[w..w + |batch|]
    ensures Above(held + batch, s.snap) == s.log[s.snap..w + |batch|]
  {
    hide Above;
    AboveConcat(held, batch, s.snap);
    forall i | 0 <= i < |batch| ensures batch[i].lsn > s.snap {
      assert batch[i] == s.log[w + i];
    }
    AboveAll(batch, s.snap);
  }

  lemma HeldGrows(disk: seq<File>, d: seq<File>, batch: seq<Record>)
    requires disk != [] && |d| == |disk| && d[..|disk| - 1] == disk[..|disk| - 1]
    requires LastOf(d).held == LastOf(disk).held + batch
    ensures HeldAll(d) == HeldAll(disk) + batch
  {
    hide HeldAll;
    HeldAllLast(disk);
    HeldAllLast(d);
  }

  /** Appending to a synced file leaves what was safe safe. */
  lemma StillSafe(disk: seq<File>, d: seq<File>, batch: seq<Record>)
    requires disk != [] && LastOf(disk).synced == |Full(LastOf(disk))|
    requires |d| == |disk| && d[..|disk| - 1] == disk[..|disk| - 1]
    requires LastOf(d).held == LastOf(disk).held + batch && LastOf(d).synced == LastOf(disk).synced
    ensures SafeRecords(disk) <= SafeRecords(d)
  {
    hide HeldAll, WholeRecords, EncodeAll, Full;
    var f := LastOf(disk);
    FullLen(f);
    WholeRecordsAll(f.held);
    WholeRecordsOfConcat(f.held, batch);
    assert (f.held + batch)[..|f.held|] == f.held;
  }

  lemma CheckpointKeeps(s: State, lsn: nat)
    requires Inv(s) && PruneEnabled(s, Checkpoint(lsn))
    ensures Inv(PruneTo(s, Checkpoint(lsn)))
  {
    hide DiskOk, QueueOk, PhaseOk;
    Counted(s);
    SnapPhase(s, lsn);
    CheckpointDisk(s, lsn, WrittenCount(s));
  }

  lemma SnapPhase(s: State, lsn: nat)
    ensures QueueOk(s) <==> QueueOk(s.(snap := lsn))
    ensures PhaseOk(s) <==> PhaseOk(s.(snap := lsn))
  {
    hide Steady, New, Open, Complete, Full;
  }

  /** A newer snapshot needs less of the log. */
  lemma CheckpointDisk(s: State, lsn: nat, written: nat)
    requires DiskOk(s, written) && s.snap <= lsn <= s.durableLSN
    ensures DiskOk(s.(snap := lsn), written)
  {
    hide Above, HeldAll, SafeRecords, FilesOk, NamesOk;
    AboveAbove(HeldAll(s.disk), s.snap, lsn);
    AboveOfRun(s.log, s.snap, written, lsn);
    SafeIsRun(s, written);
    var k := s.snap + |Above(SafeRecords(s.disk), s.snap)|;
    AboveAbove(SafeRecords(s.disk), s.snap, lsn);
    AboveOfRun(s.log, s.snap, k, lsn);
    forall i | 0 <= i < |s.disk| && s.disk[i].link == Removed ensures Above(s.disk[i].held, lsn) == [] {
      AboveAbove(s.disk[i].held, s.snap, lsn);
      AboveNone(lsn);
    }
  }

  lemma SafePrefix(disk: seq<File>)
    ensures SafeRecords(disk) <= HeldAll(disk)
  {
    hide HeldAll, Surviving;
    if disk != [] {
      HeldAllLast(disk);
    }
  }

  /** What cannot be lost is a run of the log from the snapshot on. */
  lemma SafeIsRun(s: State, written: nat)
    requires DiskOk(s, written)
    ensures var k := s.snap + |Above(SafeRecords(s.disk), s.snap)|;
            s.durableLSN <= k <= written && Above(SafeRecords(s.disk), s.snap) == s.log[s.snap..k]
  {
    hide Above, HeldAll, SafeRecords, FilesOk, NamesOk, LinksOk;
    SafePrefix(s.disk);
    AbovePrefix(SafeRecords(s.disk), HeldAll(s.disk), s.snap);
  }

  lemma UnlinkKeeps(s: State, i: nat)
    requires Inv(s) && PruneEnabled(s, Unlink(i))
    ensures Inv(PruneTo(s, Unlink(i)))
  {
    hide DiskOk, Complete, Full;
    var s' := PruneTo(s, Unlink(i));
    UnlinkDisk(s, i, WrittenCount(s));
    assert LastOf(s'.disk) == LastOf(s.disk);
  }

  lemma UnlinkDisk(s: State, i: nat, written: nat)
    requires DiskOk(s, written) && i + 1 < |s.disk| && s.disk[i].link == Durable
    requires s.disk[i + 1].seg.first <= s.snap + 1
    ensures DiskOk(s.(disk := s.disk[i := s.disk[i].(link := Removed)]), written)
  {
    hide Above, HeldAll, SafeRecords, Full, Surviving;
    var f := s.disk[i].(link := Removed);
    var d := s.disk[i := f];
    assert Below(f.held, s.disk[i + 1].seg.first);
    AboveNothing(f.held, s.snap);
    FullSame(s.disk[i], f);
    SameHeld(s.disk, d);
    SameHeld(s.disk[..|s.disk| - 1], d[..|s.disk| - 1]);
    SafeUnfold(s.disk);
    SafeUnfold(d);
  }

  lemma SafeUnfold(disk: seq<File>)
    requires disk != []
    ensures SafeRecords(disk) == HeldAll(disk[..|disk| - 1]) + Surviving(LastOf(disk), LastOf(disk).synced)
  {
    hide HeldAll, Surviving;
  }

  lemma {:induction false} SameHeld(a: seq<File>, b: seq<File>)
    requires |a| == |b| && forall i | 0 <= i < |a| :: a[i].held == b[i].held
    ensures HeldAll(a) == HeldAll(b)
  {
    if a != [] {
      SameHeld(a[1..], b[1..]);
    }
  }

  lemma CrashKeeps(s: State)
    requires Inv(s) && CrashEnabled(s, Crash)
    ensures Inv(CrashTo(s, Crash))
  {
    hide DiskOk, Complete, HeldAll, Above, Steady;
    var s' := CrashTo(s, Crash);
    ReachedIs(s, WrittenCount(s));
    assert Reached(s') == Reached(s);
    DiskOkSame(s, s', WrittenCount(s));
  }

  lemma ReachedIs(s: State, written: nat)
    requires DiskOk(s, written)
    ensures Reached(s) == written
  {
    hide Above, HeldAll, SafeRecords, FilesOk, NamesOk, LinksOk;
  }

  lemma DiskOkSame(s: State, s': State, written: nat)
    requires DiskOk(s, written)
    requires s'.disk == s.disk && s'.log == s.log && s'.snap == s.snap
    requires s'.durableLSN == s.durableLSN && s'.acked == s.acked
    ensures DiskOk(s', written)
  {
    hide Above, HeldAll, SafeRecords, FilesOk, NamesOk, LinksOk;
  }

  /** A file whose entry was not certain may go. */
  lemma DropOk(s: State, i: nat, written: nat)
    requires DiskOk(s, written) && i < |s.disk| && s.disk[i].link != Durable
    ensures DiskOk(s.(disk := Without(s.disk, i)), written)
  {
    hide Above, HeldAll, SafeRecords, Full, FileOk, Complete;
    var d := Without(s.disk, i);
    forall j | 0 <= j < |d| ensures d[j] == s.disk[if j < i then j else j + 1] {
    }
    if s.disk[i].link == Added {
      AboveNone(s.snap);
    }
    DropHeld(s.disk, i, s.snap);
    DropSafe(s.disk, i, s.snap);
  }

  lemma DropHeld(disk: seq<File>, i: nat, snap: nat)
    requires i < |disk| && Above(disk[i].held, snap) == []
    ensures Above(HeldAll(Without(disk, i)), snap) == Above(HeldAll(disk), snap)
  {
    hide Above, HeldAll;
    var a, f, b := disk[..i], disk[i], disk[i + 1..];
    assert disk == (a + [f]) + b;
    HeldAllConcat(a + [f], b);
    HeldAllLast(a + [f]);
    assert (a + [f])[..i] == a;
    HeldAllConcat(a, b);
    AboveConcat(HeldAll(a) + f.held, HeldAll(b), snap);
    AboveConcat(HeldAll(a), f.held, snap);
    AboveConcat(HeldAll(a), HeldAll(b), snap);
    assert Above(HeldAll(a), snap) + [] == Above(HeldAll(a), snap);
  }

  lemma DropSafe(disk: seq<File>, i: nat, snap: nat)
    requires FilesOk(disk) && i < |disk| && Above(disk[i].held, snap) == []
    ensures Above(SafeRecords(Without(disk, i)), snap) == Above(SafeRecords(disk), snap)
  {
    hide Above, HeldAll, Full, Surviving, FileOk, SafeRecords;
    var n := |disk| - 1;
    var front, last := disk[..n], disk[n];
    var tail := Surviving(last, last.synced);
    SafeUnfold(disk);
    AboveConcat(HeldAll(front), tail, snap);
    if i < n {
      var d := Without(disk, i);
      DropHeld(front, i, snap);
      SafeUnfold(d);
      assert d[..n - 1] == Without(front, i) && LastOf(d) == last;
      AboveConcat(HeldAll(Without(front, i)), tail, snap);
    } else {
      assert Without(disk, i) == front;
      SafeAll(front);
      AbovePrefix(tail, last.held, snap);
      assert Above(HeldAll(front), snap) + [] == Above(HeldAll(front), snap);
    }
  }

  lemma ForgetKeeps(s: State, i: nat)
    requires Inv(s) && PruneEnabled(s, Forget(i))
    ensures Inv(PruneTo(s, Forget(i)))
  {
    hide DiskOk, Complete, Full;
    DropOk(s, i, WrittenCount(s));
    assert s.disk != [] && LastOf(s.disk).link != Removed;
    assert i < |s.disk| - 1 && LastOf(Without(s.disk, i)) == LastOf(s.disk);
  }

  lemma LoseKeeps(s: State, i: nat)
    requires Inv(s) && CrashEnabled(s, Lose(i))
    ensures Inv(CrashTo(s, Lose(i)))
  {
    hide DiskOk, HeldAll, Above;
    DropOk(s, i, Reached(s));
    DropHeldOf(s, i, Reached(s));
  }

  lemma DropHeldOf(s: State, i: nat, written: nat)
    requires DiskOk(s, written) && i < |s.disk| && s.disk[i].link != Durable
    ensures Reached(s.(disk := Without(s.disk, i))) == Reached(s)
  {
    hide Above, HeldAll, FilesOk, NamesOk, SafeRecords;
    if s.disk[i].link == Added {
      AboveNone(s.snap);
    }
    DropHeld(s.disk, i, s.snap);
  }

  lemma TearKeeps(s: State, i: nat, n: nat)
    requires Inv(s) && CrashEnabled(s, Tear(i, n))
    ensures Inv(CrashTo(s, Tear(i, n)))
  {
    hide DiskOk, Reached;
    if i < |s.disk| - 1 {
      TearWhole(s, i, n);
    } else {
      TearLast(s, n, Reached(s));
    }
  }

  /** Every file but the last is synced in full, so there is nothing to tear. */
  lemma TearWhole(s: State, i: nat, n: nat)
    requires DiskOk(s, Reached(s)) && CrashEnabled(s, Tear(i, n)) && i < |s.disk| - 1
    ensures CrashTo(s, Tear(i, n)) == s
  {
    hide LinksOk, NamesOk, LogOk, Full, Reached;
    var f := s.disk[i];
    assert Complete(f) && f.seg.data[..n] == f.seg.data;
    assert s.disk[i := f] == s.disk;
  }

  lemma TearLast(s: State, n: nat, written: nat)
    requires DiskOk(s, written) && s.disk != [] && CrashEnabled(s, Tear(|s.disk| - 1, n)) && written == Reached(s)
    ensures var s' := CrashTo(s, Tear(|s.disk| - 1, n)); DiskOk(s', Reached(s'))
  {
    hide Above, HeldAll, SafeRecords, FilesOk, NamesOk, Full;
    var f := LastOf(s.disk);
    var f', s' := f.(seg := Cut(f.seg, n)), CrashTo(s, Tear(|s.disk| - 1, n));
    assert s'.disk == OnLast(s.disk, f');
    LastOk(s.disk);
    FullSame(f, f');
    assert FileOk(f');
    ReplaceLast(s.disk, f', written);
    SafeSame(s.disk, s'.disk);
  }

  // Recovery

  /** What is left of the records after a crash. */
  function Survivors(disk: seq<File>): (r: seq<Record>)
    requires disk != []
  {
    HeldAll(disk[..|disk| - 1]) + Surviving(LastOf(disk), |LastOf(disk).seg.data|)
  }

  lemma ScanOfFull(f: File)
    requires FileOk(f) && f.seg.data == Full(f)
    ensures ScanOf(f.seg.data).fault == NoFault && ScanOf(f.seg.data).records == f.held
  {
    hide ScanOf, Encode;
    ScanComplete(Header(f), f.held);
  }

  /** A torn file scans as its surviving records, and never as corrupt. */
  lemma ScanOfTorn(f: File)
    requires FileOk(f)
    ensures var scan, rs := ScanOf(f.seg.data), Surviving(f, |f.seg.data|);
            && scan.fault != Corrupt && scan.records == rs
            && (scan.lastGood > 0 ==>
                  scan.lastGood <= |f.seg.data| && Cut(f.seg, scan.lastGood).data == Full(f.(held := rs)))
  {
    hide ScanOf, Encode, EncodeAll, WholeRecords;
    var n := |f.seg.data|;
    ScanPrefix(Header(f), f.held, n);
    assert f.seg.data == Full(f)[..n];
    var scan, rs := ScanOf(f.seg.data), Surviving(f, n);
    if n >= SEGMENT_HEADER_LEN {
      var rest := f.held[|rs|..];
      assert f.held == rs + rest;
      EncodeAllConcat(rs, rest);
      FullLen(f.(held := rs));
      assert f.seg.data[..scan.lastGood] == Full(f)[..scan.lastGood];
    }
  }

  lemma {:induction false} DeliveredOf(disk: seq<File>, snap: nat)
    requires forall i | 0 <= i < |disk| :: FileOk(disk[i]) && Complete(disk[i])
    ensures Delivered(Segments(disk), snap) == Above(HeldAll(disk), snap)
    ensures forall i | 0 <= i < |disk| :: ScanOf(Segments(disk)[i].data).fault == NoFault
  {
    hide ScanOf, Above, Full;
    forall i | 0 <= i < |disk| ensures ScanOf(disk[i].seg.data).fault == NoFault {
      ScanOfFull(disk[i]);
    }
    if disk == [] {
      AboveNone(snap);
    } else {
      DeliveredOf(disk[1..], snap);
      ScanOfFull(disk[0]);
      assert Segments(disk)[1..] == Segments(disk[1..]);
      AboveConcat(disk[0].held, HeldAll(disk[1..]), snap);
    }
  }

  lemma {:induction false} HighestOfRun(log: seq<Record>, lo: nat, hi: nat)
    requires Numbered(log) && lo <= hi <= |log|
    ensures Highest(log[lo..hi], lo) == hi
    decreases hi
  {
    if lo < hi {
      HighestOfRun(log, lo, hi - 1);
      assert log[lo..hi][..hi - lo - 1] == log[lo..hi - 1];
    }
  }

  /** What survives is a run of the log from the snapshot to at least the durable
      LSN. */
  lemma SurvivorsRun(s: State, written: nat)
    requires DiskOk(s, written) && s.disk != []
    ensures var k := s.snap + |Above(Survivors(s.disk), s.snap)|;
            s.durableLSN <= k <= written && Above(Survivors(s.disk), s.snap) == s.log[s.snap..k]
  {
    hide Above, HeldAll, SafeRecords, NamesOk, LinksOk, Surviving, Full;
    var f := LastOf(s.disk);
    SurvivingMonotone(f, f.synced, |f.seg.data|);
    SafeUnfold(s.disk);
    AbovePrefix(SafeRecords(s.disk), Survivors(s.disk), s.snap);
    HeldAllLast(s.disk);
    AbovePrefix(Survivors(s.disk), HeldAll(s.disk), s.snap);
  }

  /** Recovery of a crashed directory never refuses; it applies a run of the log
      from the snapshot on that reaches at least to the durable LSN. */
  lemma ReplayOfCrash(s: State, written: nat) returns (k: nat)
    requires DiskOk(s, written)
    ensures s.durableLSN <= k <= written && s.acked <= k && s.snap <= k
    ensures var r := Recovery(s);
            r.Recovered? && r.applied == s.log[s.snap..k] && r.nextLSN == k + 1
    ensures s.disk == [] ==> Recovery(s).resume == Fresh
    ensures s.disk != [] ==> Recovery(s).resume
                             == At(LastOf(s.disk).seg.first, ScanOf(LastOf(s.disk).seg.data).lastGood)
    ensures s.disk != [] ==> Above(Survivors(s.disk), s.snap) == s.log[s.snap..k]
  {
    hide ScanOf, Above, HeldAll, SafeRecords, NamesOk, LinksOk, Full, Surviving, Delivered, Highest;
    if s.disk == [] {
      NoneSafe(s.snap);
      k := s.snap;
      return;
    }
    var n := |s.disk| - 1;
    var front, last := s.disk[..n], s.disk[n];
    DeliveredOf(front, s.snap);
    ScanOfTorn(last);
    assert Segments(s.disk) == Segments(front) + [last.seg];
    ReplayHealthy(Segments(front), last.seg, s.snap, false);
    AboveConcat(HeldAll(front), Surviving(last, |last.seg.data|), s.snap);
    SurvivorsRun(s, written);
    k := s.snap + |Above(Survivors(s.disk), s.snap)|;
    HighestOfRun(s.log, s.snap, k);
  }

  lemma NoneSafe(snap: nat)
    ensures SafeRecords([]) == [] && Above([], snap) == []
  {
  }

  lemma {:induction false} AboveMember(rs: seq<Record>, i: nat, snap: nat)
    requires i < |rs| && rs[i].lsn > snap
    ensures rs[i] in Above(rs, snap)
  {
    if i > 0 {
      AboveMember(rs[1..], i - 1, snap);
    }
  }

  lemma {:induction false} HeldMember(disk: seq<File>, i: nat, j: nat)
    requires i < |disk| && j < |disk[i].held|
    ensures disk[i].held[j] in HeldAll(disk)
  {
    if i > 0 {
      HeldMember(disk[1..], i - 1, j);
    }
  }

  lemma SurvivingSame(f: File, g: File, n: nat)
    requires f.held == g.held
    ensures Surviving(f, n) == Surviving(g, n)
  {
  }

  /** The files recovery leaves, when it cut past the header. */
  lemma CutLastOk(s: State, written: nat)
    requires DiskOk(s, written) && s.disk != [] && ScanOf(LastOf(s.disk).seg.data).lastGood > 0
    ensures var d := CutLast(s.disk);
            && |d| == |s.disk| && FilesOk(d) && Complete(LastOf(d)) && LastOf(d).link == Durable
            && HeldAll(d) == Survivors(s.disk)
            && (forall i | 0 <= i < |d| :: d[i].link == Durable && d[i].seg.first == s.disk[i].seg.first
                                           && d[i].held <= s.disk[i].held)
  {
    hide ScanOf, HeldAll, SafeRecords, NamesOk, LinksOk, Full, Surviving, LogOk;
    var d := CutLast(s.disk);
    var n := |s.disk| - 1;
    var f, f' := s.disk[n], d[n];
    ScanOfTorn(f);
    SurvivingSame(f, Settle(s.disk)[n], |f.seg.data|);
    FullSame(f.(held := Surviving(f, |f.seg.data|)), f');
    forall i | 0 <= i < n ensures d[i] == s.disk[i].(link := Durable) && FileOk(d[i]) && Complete(d[i]) {
      FullSame(s.disk[i], d[i]);
    }
    HeldAllLast(d);
    SameHeld(d[..n], s.disk[..n]);
  }

  lemma RecoverDisk(s: State, s': State, written: nat, k: nat)
    requires DiskOk(s, written) && s.disk != [] && ScanOf(LastOf(s.disk).seg.data).lastGood > 0
    requires s.durableLSN <= k <= written && Above(Survivors(s.disk), s.snap) == s.log[s.snap..k]
    requires s'.disk == CutLast(s.disk) && s'.log == s.log[..k] && s'.snap == s.snap
    requires s'.durableLSN == k && s'.acked == s.acked
    ensures DiskOk(s', k) && Complete(LastOf(s'.disk)) && LastOf(s'.disk).link == Durable
  {
    hide ScanOf, HeldAll, SafeRecords, Full, Surviving, CutLast, Above, Survivors, FilesOk;
    CutLastOk(s, written);
    var d := s'.disk;
    SafeAll(d);
    assert s'.log[s.snap..k] == s.log[s.snap..k];
    forall i | 0 <= i < |d| ensures NumberedFrom(d[i].held, d[i].seg.first, k) {
      assert NumberedFrom(s.disk[i].held, s.disk[i].seg.first, written);
      forall j | 0 <= j < |d[i].held| ensures d[i].seg.first <= d[i].held[j].lsn <= k {
        assert d[i].held[j] == s.disk[i].held[j];
        HeldBelow(s', i, j, k);
      }
    }
    assert NamesOk(d, k);
  }

  /** A record recovery keeps is numbered within the log it keeps. */
  lemma HeldBelow(s: State, i: nat, j: nat, k: nat)
    requires Numbered(s.log) && s.snap <= k == |s.log| && i < |s.disk| && j < |s.disk[i].held|
    requires Above(HeldAll(s.disk), s.snap) == s.log[s.snap..k]
    ensures s.disk[i].held[j].lsn <= k
  {
    hide HeldAll, Above;
    var x := s.disk[i].held[j];
    if x.lsn > s.snap {
      HeldMember(s.disk, i, j);
      var p :| 0 <= p < |HeldAll(s.disk)| && HeldAll(s.disk)[p] == x;
      AboveMember(HeldAll(s.disk), p, s.snap);
    }
  }

  lemma RecoverKeeps(s: State)
    requires Inv(s) && CrashEnabled(s, Recover) && SafeRecovery(s)
    ensures Inv(CrashTo(s, Recover))
  {
    hide DiskOk, CutLast, Recovery, Above, HeldAll, Survivors, ScanOf, Complete, QueueOk, WrittenCount;
    var s' := CrashTo(s, Recover);
    var w := Reached(s);
    DurableBound(s, w);
    var k := ReplayOfCrash(s, w);
    assert s'.log == s.log[..k];
    RecoverQueue(s', k);
    if s.disk == [] {
      EmptyDisk(s, s', w, k);
    } else {
      RecoverDisk(s, s', w, k);
      NonEmptyCut(s.disk);
    }
  }

  lemma RecoverQueue(s: State, k: nat)
    requires s.queue == [] && s.batch == [] && |s.log| == k && s.nextLSN == k + 1
    requires s.phase == Idle || s.phase == RotateSynced
    ensures QueueOk(s) && WrittenCount(s) == k
  {
  }

  lemma NonEmptyCut(disk: seq<File>)
    requires disk != []
    ensures CutLast(disk) != []
  {
    hide ScanOf, Surviving;
  }

  lemma EmptyDisk(s: State, s': State, written: nat, k: nat)
    requires DiskOk(s, written) && s.disk == [] && s.durableLSN <= k <= written
    requires s'.disk == [] && s'.log == s.log[..k] && s'.snap == s.snap && s'.durableLSN == k && s'.acked == s.acked
    ensures DiskOk(s', k)
  {
    hide Above;
    NoneSafe(s.snap);
  }

  // The theorems

  lemma InitOk()
    ensures Inv(Init())
  {
    NoneSafe(0);
  }

  lemma CreateKeeps(s: State, e: CreateStep)
    requires Inv(s) && CreateEnabled(s, e)
    ensures Inv(CreateTo(s, e))
  {
    hide Inv, CreateEnabled, CreateTo;
    match e
    case CreateFile(now) => CreateFileKeeps(s, now);
    case WriteHeader => WriteHeaderKeeps(s);
    case SyncHeader => SyncHeaderKeeps(s);
    case SyncEntry => SyncEntryKeeps(s);
  }

  lemma CommitKeeps(s: State, e: CommitStep)
    requires Inv(s) && CommitEnabled(s, e)
    ensures Inv(CommitTo(s, e))
  {
    hide Inv, CommitEnabled, CommitTo;
    match e
    case Write => WriteKeeps(s);
    case Sync => SyncKeeps(s);
    case Finish => FinishKeeps(s, e);
    case EndBatch => FinishKeeps(s, e);
  }

  lemma PruneKeeps(s: State, e: PruneStep)
    requires Inv(s) && PruneEnabled(s, e)
    ensures Inv(PruneTo(s, e))
  {
    hide Inv, PruneEnabled, PruneTo;
    match e
    case Checkpoint(lsn) => CheckpointKeeps(s, lsn);
    case Unlink(i) => UnlinkKeeps(s, i);
    case Forget(i) => ForgetKeeps(s, i);
    case Pin => PinKeeps(s);
  }

  lemma FailKeeps(s: State, e: CrashStep)
    requires Inv(s) && CrashEnabled(s, e) && (e == Recover ==> SafeRecovery(s))
    ensures Inv(CrashTo(s, e))
  {
    hide Inv, CrashEnabled, CrashTo, SafeRecovery;
    match e
    case Crash => CrashKeeps(s);
    case Lose(i) => LoseKeeps(s, i);
    case Tear(i, n) => TearKeeps(s, i, n);
    case Recover => RecoverKeeps(s);
  }

  lemma StepKeeps(c: Config, s: State, e: Event)
    requires ValidConfig(c) && Inv(s) && Enabled(c, s, e) && (e == Fail(Recover) ==> SafeRecovery(s))
    ensures Inv(Apply(c, s, e))
  {
    hide Inv, SafeRecovery, SubmitEnabled, SubmitTo, GatherEnabled, GatherTo, CreateEnabled, CreateTo,
         CommitEnabled, CommitTo, PruneEnabled, PruneTo, CrashEnabled, CrashTo;
    match e
    case Submit(r) => SubmitKeeps(s, r);
    case Gather(e) => GatherKeeps(c, s, e);
    case Create(e) => CreateKeeps(s, e);
    case Commit(e) => CommitKeeps(s, e);
    case Prune(e) => PruneKeeps(s, e);
    case Fail(e) => FailKeeps(s, e);
  }

  lemma {:induction false} RunKeeps(c: Config, s: State, events: seq<Event>)
    requires ValidConfig(c) && Inv(s) && Run(c, s, events)
    ensures Inv(After(c, s, events))
    decreases |events|
  {
    hide Inv, Enabled, Apply, SafeRecovery;
    if events != [] {
      StepKeeps(c, s, events[0]);
      RunKeeps(c, Apply(c, s, events[0]), events[1..]);
    }
  }

  /** Acknowledged implies recovered. Over every run of submissions, batches,
      rotations, checkpoints, prunings, crashes and recoveries, whenever the process
      is down recovery succeeds without unsafe-truncate and applies, in LSN order,
      exactly the log from the snapshot to some point at or after every acknowledged
      record; new LSNs continue from there. */
  lemma Durability(c: Config, events: seq<Event>) returns (k: nat)
    requires ValidConfig(c) && Run(c, Init(), events)
    requires After(c, Init(), events).phase == Down
    ensures var s := After(c, Init(), events);
            var r := Recovery(s);
            && r.Recovered?
            && s.acked <= k <= |s.log| && s.snap <= k && r.applied == s.log[s.snap..k]
            && r.nextLSN == k + 1
            && Numbered(s.log)
  {
    hide DiskOk, Enabled, Apply, SafeRecovery, Recovery, PhaseOk;
    InitOk();
    RunKeeps(c, Init(), events);
    var s := After(c, Init(), events);
    DurableBound(s, Reached(s));
    NumberedOf(s, Reached(s));
    k := ReplayOfCrash(s, Reached(s));
  }

  /** No step takes back an acknowledgement or changes an acknowledged record. */
  lemma StepKeepsAcked(c: Config, s: State, e: Event)
    requires ValidConfig(c) && Inv(s) && Enabled(c, s, e) && (e == Fail(Recover) ==> SafeRecovery(s))
    ensures var s' := Apply(c, s, e);
            && s.acked <= |s.log| && s.acked <= s'.acked <= |s'.log|
            && s'.log[..s.acked] == s.log[..s.acked] && s.snap <= s'.snap
  {
    hide Inv, Recovery, SafeRecovery, GatherEnabled, CreateEnabled, CommitEnabled, PruneEnabled, CrashEnabled,
         SubmitEnabled, GatherTo, CreateTo, CommitTo, PruneTo, CrashTo, SubmitTo;
    InvBounds(s);
    match e {
      case Submit(r) => SubmitMoves(s, r);
      case Gather(e) => GatherMoves(c, s, e);
      case Create(e) => CreateMoves(s, e);
      case Commit(e) => CommitMoves(s, e);
      case Prune(e) => PruneMoves(s, e);
      case Fail(e) => CrashMoves(s, e);
    }
  }

  /** What each kind of step does to the log, the snapshot and the acknowledgements. */
  lemma SubmitMoves(s: State, r: Record)
    requires s.acked <= |s.log|
    ensures var s' := SubmitTo(s, r); s'.acked == s.acked && s'.snap == s.snap && s'.log[..s.acked] == s.log[..s.acked]
    ensures |SubmitTo(s, r).log| == |s.log| + 1
  {
  }

  lemma GatherMoves(c: Config, s: State, e: GatherStep)
    requires GatherEnabled(c, s, e)
    ensures var s' := GatherTo(c, s, e); s'.acked == s.acked && s'.snap == s.snap && s'.log == s.log
  {
    hide Fsync;
  }

  lemma CreateMoves(s: State, e: CreateStep)
    requires CreateEnabled(s, e)
    ensures var s' := CreateTo(s, e); s'.acked == s.acked && s'.snap == s.snap && s'.log == s.log
  {
    hide Fsync, WithHeader, EmptyFile;
  }

  lemma CommitMoves(s: State, e: CommitStep)
    requires Inv(s) && CommitEnabled(s, e)
    ensures var s' := CommitTo(s, e); s.acked <= s'.acked <= |s.log| && s'.snap == s.snap && s'.log == s.log
  {
    hide DiskOk, Steady, New, Open, Complete, Full, Fsync, WithBatch, Numbered;
    DurableBound(s, WrittenCount(s));
    if e == Finish {
      NumberedOf(s, WrittenCount(s));
      AckedOne(s, WrittenCount(s));
    }
  }

  lemma PruneMoves(s: State, e: PruneStep)
    requires PruneEnabled(s, e)
    ensures var s' := PruneTo(s, e); s'.acked == s.acked && s.snap <= s'.snap && s'.log == s.log
  {
  }

  lemma CrashMoves(s: State, e: CrashStep)
    requires Inv(s) && CrashEnabled(s, e)
    ensures var s' := CrashTo(s, e);
            && s'.acked == s.acked && s'.snap == s.snap && s.acked <= |s'.log| && s.acked <= |s.log|
            && s'.log[..s.acked] == s.log[..s.acked]
  {
    hide DiskOk, CutLast, Recovery, Reached, QueueOk, PhaseOk;
    InvBounds(s);
    if e == Recover {
      var k := ReplayOfCrash(s, Reached(s));
      DurableBound(s, Reached(s));
    }
  }

  lemma {:induction false} RunKeepsAcked(c: Config, s: State, events: seq<Event>)
    requires ValidConfig(c) && Inv(s) && Run(c, s, events)
    ensures var s' := After(c, s, events);
            && s.acked <= |s.log| && s.acked <= s'.acked <= |s'.log|
            && s'.log[..s.acked] == s.log[..s.acked] && s.snap <= s'.snap
    decreases |events|
  {
    hide Inv, Enabled, Apply, SafeRecovery;
    if events == [] {
      InvBounds(s);
    } else {
      var m := Apply(c, s, events[0]);
      StepKeeps(c, s, events[0]);
      StepKeepsAcked(c, s, events[0]);
      RunKeepsAcked(c, m, events[1..]);
      var s' := After(c, s, events);
      assert s'.log[..s.acked] == s'.log[..m.acked][..s.acked] && m.log[..s.acked] == m.log[..m.acked][..s.acked];
    }
  }

  lemma InvBounds(s: State)
    requires Inv(s)
    ensures s.acked <= |s.log|
  {
    hide DiskOk, PhaseOk;
    DurableBound(s, if s.phase == Down then Reached(s) else WrittenCount(s));
  }

  lemma {:induction false} RunSplit(c: Config, s: State, a: seq<Event>, b: seq<Event>)
    requires Run(c, s, a + b)
    ensures Run(c, s, a) && Run(c, After(c, s, a), b) && After(c, s, a + b) == After(c, After(c, s, a), b)
    decreases |a|
  {
    hide Enabled, Apply, SafeRecovery;
    if a == [] {
      assert a + b == b;
    } else {
      assert (a + b)[1..] == a[1..] + b;
      RunSplit(c, Apply(c, s, a[0]), a[1..], b);
    }
  }

  /** However a run goes on, through any number of crashes, recoveries and
      snapshots, a record acknowledged at some point is, at every later crash, either
      covered by the snapshot or applied by the recovery, unchanged and in its
      place. */
  lemma AcknowledgedIsRecovered(c: Config, early: seq<Event>, late: seq<Event>, i: nat)
    requires ValidConfig(c) && Run(c, Init(), early + late)
    requires After(c, Init(), early + late).phase == Down
    requires Run(c, Init(), early) && i < After(c, Init(), early).acked <= |After(c, Init(), early).log|
    ensures var s := After(c, Init(), early + late);
            var r := Recovery(s);
            && r.Recovered?
            && (i >= s.snap ==> i - s.snap < |r.applied|
                                && r.applied[i - s.snap] == After(c, Init(), early).log[i])
  {
    hide Inv, Enabled, Apply, SafeRecovery, Recovery, Run, After, Numbered;
    var m := After(c, Init(), early);
    InitOk();
    RunSplit(c, Init(), early, late);
    RunKeeps(c, Init(), early);
    RunKeepsAcked(c, m, late);
    var k := Durability(c, early + late);
    var s := After(c, Init(), early + late);
    assert s.log[..m.acked][i] == m.log[..m.acked][i];
  }
}
