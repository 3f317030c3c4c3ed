// The crash-aware label switch of tools/rg40xxv-gpt-label-swap.py on a disk that
// keeps a durable image plus the writes not yet synced.  A command is a list of
// device operations; power loss may come between any two of them and leaves every
// unsynced sector arbitrary.  Hypothesis: an interrupted run ends with power loss,
// so the next run reads the durable image.  Without it a run may start on unsynced
// writes; SafeExactlyIfSecondCopySynced says when that is safe.

module GptSwap {
  import opened GptLayout

  const DISK_SECTORS := 122_101_760

  type Sector = s: Bytes | |s| == SECTOR_SIZE witness Padding() + Padding()[..92]
  type Table = t: Bytes | |t| == TABLE_BYTES witness Padding() + Padding() + Padding()[..184]
  type Image = i: seq<Sector> | |i| == DISK_SECTORS ghost witness BlankDisk()

  function BlankDisk(): (img: seq<Sector>)
    ensures |img| == DISK_SECTORS
  {
    var blank: Sector := Padding() + Padding()[..92];
    seq(DISK_SECTORS, _ => blank)
  }

  // ----- snapshots and their four components -----

  datatype Snapshot = Snapshot(primaryHeader: Sector, primaryTable: Table, backupTable: Table, backupHeader: Sector)

  datatype Part = PrimaryHeader | PrimaryTable | BackupTable | BackupHeader

  function Lba(p: Part): nat {
    match p
    case PrimaryHeader => PRIMARY_HEADER_LBA
    case PrimaryTable => PRIMARY_TABLE_LBA
    case BackupTable => BACKUP_TABLE_LBA
    case BackupHeader => BACKUP_HEADER_LBA
  }

  predicate IsTable(p: Part) { p.PrimaryTable? || p.BackupTable? }

  function Get(s: Snapshot, p: Part): (data: Bytes)
    ensures |data| == if IsTable(p) then TABLE_BYTES else SECTOR_SIZE
  {
    match p
    case PrimaryHeader => s.primaryHeader
    case PrimaryTable => s.primaryTable
    case BackupTable => s.backupTable
    case BackupHeader => s.backupHeader
  }

  function TablePart(backup: bool): Part { if backup then BackupTable else PrimaryTable }
  function HeaderPart(backup: bool): Part { if backup then BackupHeader else PrimaryHeader }

  function ReadPart(img: Image, p: Part): (data: Bytes)
    ensures |data| == if IsTable(p) then TABLE_BYTES else SECTOR_SIZE
  {
    var first: Bytes := img[Lba(p)];
    if IsTable(p) then first + img[Lba(p) + 1] else first
  }

  function ReadSnapshot(img: Image): Snapshot {
    Snapshot(ReadPart(img, PrimaryHeader), ReadPart(img, PrimaryTable),
             ReadPart(img, BackupTable), ReadPart(img, BackupHeader))
  }

  // ----- the device -----

  datatype Device = Device(image: Image, pending: map<nat, Sector>)

  datatype Op = Put(lba: nat, data: Sector) | Sync

  /** What a read returns: the unsynced write if there is one. */
  function View(d: Device): Image {
    var v: seq<Sector> := seq(DISK_SECTORS, i requires 0 <= i < DISK_SECTORS => if i in d.pending then d.pending[i] else d.image[i]);
    v
  }

  function Step(d: Device, op: Op): Device {
    match op
    case Put(lba, data) => d.(pending := d.pending[lba := data])
    case Sync => Device(View(d), map[])
  }

  function Play(d: Device, ops: seq<Op>): Device
    decreases |ops|
  {
    if ops == [] then d else Play(Step(d, ops[0]), ops[1..])
  }

  /** Power loss: synced sectors survive, unsynced ones become whatever `junk` says. */
  function Crash(d: Device, junk: Image): Image {
    var c: seq<Sector> := seq(DISK_SECTORS, i requires 0 <= i < DISK_SECTORS => if i in d.pending then junk[i] else d.image[i]);
    c
  }

  // ----- the writes of a run -----

  /** pwrite_sectors followed by fsync_retry. */
  function StageOps(p: Part, data: Bytes): seq<Op>
    requires |data| == if IsTable(p) then TABLE_BYTES else SECTOR_SIZE
  {
    if IsTable(p) then [Put(Lba(p), data[..SECTOR_SIZE]), Put(Lba(p) + 1, data[SECTOR_SIZE..]), Sync]
    else [Put(Lba(p), data), Sync]
  }

  function Ops(parts: seq<Part>, dest: Snapshot): seq<Op> {
    if parts == [] then [] else StageOps(parts[0], Get(dest, parts[0])) + Ops(parts[1..], dest)
  }

  /** Each copy is written table first, then header. */
  function Order(backupFirst: bool): seq<Part> {
    [TablePart(backupFirst), HeaderPart(backupFirst), TablePart(!backupFirst), HeaderPart(!backupFirst)]
  }

  // ----- the two audited states and the decisions of each command -----

  datatype Label = Stock | Activated

  function Other(l: Label): Label { if l.Stock? then Activated else Stock }

  /** The compiled-in profile: the two complete metadata states. */
  datatype Profile = Profile(crc: Crc, stock: Snapshot, activated: Snapshot) {
    function At(l: Label): Snapshot { if l.Stock? then stock else activated }

    /** expected_snapshot: both copies hold one table, and the headers follow from it. */
    predicate Built() {
      stock == ExpectedSnapshot(crc, stock.primaryTable) && activated == ExpectedSnapshot(crc, activated.primaryTable)
    }

    /** assert_only_names_and_crcs_change, which runs at import, refuses equal components. */
    predicate Distinct() {
      forall p: Part :: Get(stock, p) != Get(activated, p)
    }
  }

  function ExpectedSnapshot(crc: Crc, t: Table): Snapshot {
    Snapshot(HeaderForTable(crc, t, false), t, t, HeaderForTable(crc, t, true))
  }

  datatype Endpoint = BeforeValid | AfterValid | Invalid

  function CopyEndpoint(s: Snapshot, before: Snapshot, after: Snapshot, backup: bool): Endpoint {
    if CopyIs(s, before, backup) then BeforeValid
    else if CopyIs(s, after, backup) then AfterValid
    else Invalid
  }

  /** The primary (or backup) header and table of `s` are byte-exactly those of `e`. */
  predicate CopyIs(s: Snapshot, e: Snapshot, backup: bool) {
    Get(s, HeaderPart(backup)) == Get(e, HeaderPart(backup)) && Get(s, TablePart(backup)) == Get(e, TablePart(backup))
  }

  predicate TopologyOk(s: Snapshot, before: Snapshot, after: Snapshot) {
    !(CopyEndpoint(s, before, after, false).Invalid? && CopyEndpoint(s, before, after, true).Invalid?)
  }

  predicate TransactionComponentsOk(s: Snapshot, before: Snapshot, after: Snapshot) {
    && (forall p: Part :: Get(s, p) == Get(before, p) || Get(s, p) == Get(after, p))
    && (exists backup: bool :: CopyIs(s, before, backup) || CopyIs(s, after, backup))
  }

  datatype Classified = Known(state: Label) | Unknown

  function ClassifyExact(p: Profile, s: Snapshot): Classified {
    if s == p.At(Stock) && BothCopiesValidate(p, s) then Known(Stock)
    else if s == p.At(Activated) && s != p.At(Stock) && BothCopiesValidate(p, s) then Known(Activated)
    else Unknown
  }

  predicate BothCopiesValidate(p: Profile, s: Snapshot) {
    && ValidateGptCopy(p.crc, s.primaryHeader, s.primaryTable, false)
    && ValidateGptCopy(p.crc, s.backupHeader, s.backupTable, true)
  }

  /** activate = Transition(Activated), deactivate = Transition(Stock);
      a rollback bundle names the state before and, implicitly, the other one after. */
  datatype Command = Transition(to: Label) | Rollback(before: Label)

  datatype Verdict = Refuse | NoOp | Write(backupFirst: bool, dest: Snapshot)

  function Decide(p: Profile, cmd: Command, s: Snapshot): Verdict {
    match cmd
    case Transition(to) =>
      (match ClassifyExact(p, s)
       case Unknown => Refuse
       case Known(state) => if state == to then NoOp else Write(true, p.At(to)))
    case Rollback(b) => RollbackVerdict(s, p.At(b), p.At(Other(b)))
  }

  function RollbackVerdict(s: Snapshot, before: Snapshot, after: Snapshot): Verdict {
    var primary := CopyEndpoint(s, before, after, false);
    var backup := CopyEndpoint(s, before, after, true);
    if primary.Invalid? && backup.Invalid? then Refuse
    else if primary.BeforeValid? && backup.BeforeValid? then NoOp
    else Write(!primary.Invalid?, before)
  }

  function Trace(p: Profile, cmd: Command, s: Snapshot): seq<Op> {
    match Decide(p, cmd, s)
    case Write(backupFirst, dest) => Ops(Order(backupFirst), dest)
    case _ => []
  }

  // ----- what is guaranteed -----

  /** Some copy on the disk is byte-exactly the stock or the activated one. */
  predicate Recoverable(p: Profile, img: Image) {
    exists backup: bool, l: Label :: CopyIs(ReadSnapshot(img), p.At(l), backup)
  }

  predicate GptSector(lba: int) {
    1 <= lba <= 3 || DISK_SECTORS - 3 <= lba < DISK_SECTORS
  }

  predicate SameElsewhere(a: Image, b: Image) {
    forall i :: 0 <= i < DISK_SECTORS && !GptSector(i) ==> a[i] == b[i]
  }

  datatype Event = Complete(cmd: Command) | PowerLoss(cmd: Command, instant: nat, junk: Image)

  function Min(a: nat, b: nat): nat { if a < b then a else b }

  /** The device after the first `instant` operations of a run that starts on `img`. */
  function During(p: Profile, img: Image, cmd: Command, instant: nat): Device {
    var t := Trace(p, cmd, ReadSnapshot(img));
    Play(Device(img, map[]), t[..Min(instant, |t|)])
  }

  function Outcome(p: Profile, img: Image, e: Event): Image {
    match e
    case Complete(cmd) => View(Play(Device(img, map[]), Trace(p, cmd, ReadSnapshot(img))))
    case PowerLoss(cmd, instant, junk) => Crash(During(p, img, cmd, instant), junk)
  }

  function After(p: Profile, img: Image, history: seq<Event>): Image
    decreases |history|
  {
    if history == [] then img else After(p, Outcome(p, img, history[0]), history[1..])
  }

  // ----- playing operations -----

  lemma {:induction false} PlayAppend(d: Device, a: seq<Op>, b: seq<Op>)
    ensures Play(d, a + b) == Play(Play(d, a), b)
    decreases |a|
  {
    if a == [] {
      assert a + b == b;
    } else {
      assert (a + b)[1..] == a[1..] + b;
      PlayAppend(Step(d, a[0]), a[1..], b);
    }
  }

  lemma {:induction false} OpsAppend(a: seq<Part>, b: seq<Part>, dest: Snapshot)
    ensures Ops(a + b, dest) == Ops(a, dest) + Ops(b, dest)
  {
    if a == [] {
      assert a + b == b;
    } else {
      assert (a + b)[1..] == a[1..] + b;
      OpsAppend(a[1..], b, dest);
    }
  }

  /** Only sectors of `reach` have been written since the synced image `img`. */
  predicate Within(d: Device, img: Image, reach: set<nat>) {
    forall i: nat :: i < DISK_SECTORS && i !in reach ==> i !in d.pending && d.image[i] == img[i]
  }

  predicate Stays(ops: seq<Op>, reach: set<nat>) {
    forall k :: 0 <= k < |ops| && ops[k].Put? ==> ops[k].lba in reach
  }

  lemma {:induction false} PlayWithin(d: Device, img: Image, reach: set<nat>, ops: seq<Op>)
    requires Within(d, img, reach) && Stays(ops, reach)
    ensures Within(Play(d, ops), img, reach)
    decreases |ops|
  {
    if ops != [] {
      assert Within(Step(d, ops[0]), img, reach);
      PlayWithin(Step(d, ops[0]), img, reach, ops[1..]);
    }
  }

  // ----- whole components -----

  /** One component replaced, everything synced. */
  function WritePart(img: Image, p: Part, data: Bytes): Image
    requires |data| == if IsTable(p) then TABLE_BYTES else SECTOR_SIZE
  {
    if IsTable(p) then
      var lo: Sector := data[..SECTOR_SIZE];
      var hi: Sector := data[SECTOR_SIZE..];
      img[Lba(p) := lo][Lba(p) + 1 := hi]
    else
      var all: Sector := data;
      img[Lba(p) := all]
  }

  function WriteParts(img: Image, parts: seq<Part>, dest: Snapshot): Image
    decreases |parts|
  {
    if parts == [] then img else WriteParts(WritePart(img, parts[0], Get(dest, parts[0])), parts[1..], dest)
  }

  /** A stage ends synced, whatever was unsynced before it. */
  lemma StageOnDevice(d: Device, p: Part, data: Bytes)
    requires |data| == if IsTable(p) then TABLE_BYTES else SECTOR_SIZE
    ensures Play(d, StageOps(p, data)) == Device(WritePart(View(d), p, data), map[])
  {
    var ops := StageOps(p, data);
    var d1 := Step(d, ops[0]);
    var last := if IsTable(p) then Step(d1, ops[1]) else d1;
    assert View(last) == WritePart(View(d), p, data);
    assert ops[1..] == if IsTable(p) then [ops[1], Sync] else [Sync];
    assert [ops[1], Sync][1..] == [Sync];
    assert Play(last, [Sync]) == Step(last, Sync);
  }

  lemma StagePlayed(img: Image, p: Part, data: Bytes)
    requires |data| == if IsTable(p) then TABLE_BYTES else SECTOR_SIZE
    ensures Play(Device(img, map[]), StageOps(p, data)) == Device(WritePart(img, p, data), map[])
  {
    StageOnDevice(Device(img, map[]), p, data);
    assert View(Device(img, map[])) == img;
  }

  lemma {:induction false} PartsPlayed(img: Image, parts: seq<Part>, dest: Snapshot)
    ensures Play(Device(img, map[]), Ops(parts, dest)) == Device(WriteParts(img, parts, dest), map[])
    decreases |parts|
  {
    if parts != [] {
      var p := parts[0];
      StagePlayed(img, p, Get(dest, p));
      PlayAppend(Device(img, map[]), StageOps(p, Get(dest, p)), Ops(parts[1..], dest));
      PartsPlayed(WritePart(img, p, Get(dest, p)), parts[1..], dest);
    }
  }

  /** The four components occupy disjoint sectors. */
  lemma ReadWritten(img: Image, p: Part, data: Bytes, q: Part)
    requires |data| == if IsTable(p) then TABLE_BYTES else SECTOR_SIZE
    ensures ReadPart(WritePart(img, p, data), q) == if p == q then data else ReadPart(img, q)
  {
  }

  lemma {:induction false} ReadAllWritten(img: Image, parts: seq<Part>, dest: Snapshot, q: Part)
    ensures ReadPart(WriteParts(img, parts, dest), q) == if q in parts then Get(dest, q) else ReadPart(img, q)
    decreases |parts|
  {
    if parts != [] {
      ReadWritten(img, parts[0], Get(dest, parts[0]), q);
      ReadAllWritten(WritePart(img, parts[0], Get(dest, parts[0])), parts[1..], dest, q);
    }
  }

  // ----- one run -----

  function CopySectors(backup: bool): set<nat> {
    if backup then {BACKUP_TABLE_LBA, BACKUP_TABLE_LBA + 1, BACKUP_HEADER_LBA} else {1, 2, 3}
  }

  function CopyParts(backup: bool): seq<Part> { [TablePart(backup), HeaderPart(backup)] }

  lemma CopyOps(backup: bool, dest: Snapshot)
    ensures Ops(CopyParts(backup), dest)
         == StageOps(TablePart(backup), Get(dest, TablePart(backup))) + StageOps(HeaderPart(backup), Get(dest, HeaderPart(backup)))
    ensures Stays(Ops(CopyParts(backup), dest), CopySectors(backup))
  {
    assert CopyParts(backup)[1..] == [HeaderPart(backup)];
    assert Ops([HeaderPart(backup)], dest) == StageOps(HeaderPart(backup), Get(dest, HeaderPart(backup)));
  }

  /** The two images hold the same primary (or backup) copy. */
  predicate SameCopy(a: Image, b: Image, backup: bool) {
    ReadPart(a, HeaderPart(backup)) == ReadPart(b, HeaderPart(backup)) && ReadPart(a, TablePart(backup)) == ReadPart(b, TablePart(backup))
  }

  lemma SameCopyReads(a: Image, b: Image, backup: bool, e: Snapshot)
    requires SameCopy(a, b, backup)
    ensures CopyIs(ReadSnapshot(a), e, backup) <==> CopyIs(ReadSnapshot(b), e, backup)
  {
  }

  lemma CrashWithin(img: Image, d: Device, backup: bool, junk: Image)
    requires Within(d, img, CopySectors(backup))
    ensures SameCopy(Crash(d, junk), img, !backup)
    ensures SameElsewhere(Crash(d, junk), img)
  {
    var c := Crash(d, junk);
    forall i: nat | i < DISK_SECTORS && i !in CopySectors(backup) ensures c[i] == img[i] {
    }
  }

  /** While one copy is being written, any crash leaves the other one as it was. */
  lemma OtherCopySurvives(img: Image, backup: bool, dest: Snapshot, k: nat, junk: Image)
    requires k <= |Ops(CopyParts(backup), dest)|
    ensures var c := Crash(Play(Device(img, map[]), Ops(CopyParts(backup), dest)[..k]), junk);
            SameCopy(c, img, !backup) && SameElsewhere(c, img)
  {
    CopyOps(backup, dest);
    PlayWithin(Device(img, map[]), img, CopySectors(backup), Ops(CopyParts(backup), dest)[..k]);
    CrashWithin(img, Play(Device(img, map[]), Ops(CopyParts(backup), dest)[..k]), backup, junk);
  }

  /** Writing a copy to the end makes it exact and leaves the other alone. */
  lemma CopyWritten(img: Image, backup: bool, dest: Snapshot)
    ensures CopyIs(ReadSnapshot(WriteParts(img, CopyParts(backup), dest)), dest, backup)
    ensures SameElsewhere(WriteParts(img, CopyParts(backup), dest), img)
  {
    var w := WriteParts(img, CopyParts(backup), dest);
    ReadAllWritten(img, CopyParts(backup), dest, TablePart(backup));
    ReadAllWritten(img, CopyParts(backup), dest, HeaderPart(backup));
    assert CopyParts(backup)[1..] == [HeaderPart(backup)];
    var t := WritePart(img, TablePart(backup), Get(dest, TablePart(backup)));
    assert w == WritePart(t, HeaderPart(backup), Get(dest, HeaderPart(backup)));
  }

  /** The heart of the argument: the copy not yet written is exact until the first
      one is finished, and then the first one is. */
  lemma RunNeverLosesBoth(img: Image, backupFirst: bool, dest: Snapshot, held: Snapshot, k: nat, junk: Image)
    requires CopyIs(ReadSnapshot(img), held, !backupFirst)
    requires k <= |Ops(Order(backupFirst), dest)|
    ensures var c := Crash(Play(Device(img, map[]), Ops(Order(backupFirst), dest)[..k]), junk);
            && (CopyIs(ReadSnapshot(c), held, !backupFirst) || CopyIs(ReadSnapshot(c), dest, backupFirst))
            && SameElsewhere(c, img)
  {
    var first, second := Ops(CopyParts(backupFirst), dest), Ops(CopyParts(!backupFirst), dest);
    assert Order(backupFirst) == CopyParts(backupFirst) + CopyParts(!backupFirst);
    OpsAppend(CopyParts(backupFirst), CopyParts(!backupFirst), dest);
    var d := Play(Device(img, map[]), (first + second)[..k]);
    if k <= |first| {
      assert (first + second)[..k] == first[..k];
      OtherCopySurvives(img, backupFirst, dest, k, junk);
      SameCopyReads(Crash(d, junk), img, !backupFirst, held);
    } else {
      assert (first + second)[..k] == first + second[..k - |first|];
      PlayAppend(Device(img, map[]), first, second[..k - |first|]);
      PartsPlayed(img, CopyParts(backupFirst), dest);
      CopyWritten(img, backupFirst, dest);
      var half := WriteParts(img, CopyParts(backupFirst), dest);
      OtherCopySurvives(half, !backupFirst, dest, k - |first|, junk);
      SameCopyReads(Crash(d, junk), half, backupFirst, dest);
    }
  }

  /** Every command keeps a recognised copy at every instant of its run. */
  lemma RunKeepsRecoverable(p: Profile, img: Image, cmd: Command, instant: nat, junk: Image)
    requires Recoverable(p, img)
    ensures Recoverable(p, Crash(During(p, img, cmd, instant), junk))
    ensures SameElsewhere(Crash(During(p, img, cmd, instant), junk), img)
  {
    var s := ReadSnapshot(img);
    match Decide(p, cmd, s) {
      case Write(backupFirst, dest) =>
        var l: Label :| CopyIs(s, p.At(l), !backupFirst);
        var k := Min(instant, |Trace(p, cmd, s)|);
        RunNeverLosesBoth(img, backupFirst, dest, p.At(l), k, junk);
        var c := Crash(During(p, img, cmd, instant), junk);
        assert CopyIs(ReadSnapshot(c), p.At(l), !backupFirst) || CopyIs(ReadSnapshot(c), dest, backupFirst);
      case _ =>
        assert Crash(During(p, img, cmd, instant), junk) == img;
    }
  }

  // ----- every sequence of runs -----

  lemma CompleteLeavesParts(p: Profile, img: Image, cmd: Command)
    requires Decide(p, cmd, ReadSnapshot(img)).Write?
    ensures var w := Decide(p, cmd, ReadSnapshot(img));
            Outcome(p, img, Complete(cmd)) == WriteParts(img, Order(w.backupFirst), w.dest)
  {
    var w := Decide(p, cmd, ReadSnapshot(img));
    PartsPlayed(img, Order(w.backupFirst), w.dest);
    var after := WriteParts(img, Order(w.backupFirst), w.dest);
    assert View(Device(after, map[])) == after;
  }

  lemma EventKeepsRecoverable(p: Profile, img: Image, e: Event)
    requires Recoverable(p, img)
    ensures Recoverable(p, Outcome(p, img, e)) && SameElsewhere(Outcome(p, img, e), img)
  {
    match e {
      case PowerLoss(cmd, instant, junk) =>
        RunKeepsRecoverable(p, img, cmd, instant, junk);
      case Complete(cmd) =>
        var t := Trace(p, cmd, ReadSnapshot(img));
        assert t[..|t|] == t;
        RunKeepsRecoverable(p, img, cmd, |t|, img);
        match Decide(p, cmd, ReadSnapshot(img)) {
          case Write(backupFirst, dest) =>
            CompleteLeavesParts(p, img, cmd);
            PartsPlayed(img, Order(backupFirst), dest);
            assert Crash(During(p, img, cmd, |t|), img) == Outcome(p, img, e);
          case _ =>
            assert Outcome(p, img, e) == img;
        }
    }
  }

  lemma {:induction false} HistoryKeepsRecoverable(p: Profile, img: Image, history: seq<Event>)
    requires Recoverable(p, img)
    ensures Recoverable(p, After(p, img, history)) && SameElsewhere(After(p, img, history), img)
    decreases |history|
  {
    if history != [] {
      EventKeepsRecoverable(p, img, history[0]);
      HistoryKeepsRecoverable(p, Outcome(p, img, history[0]), history[1..]);
    }
  }

  /** After any history of completed and interrupted runs, at any instant of the next
      one, the durable image, what a read returns, and every image that power loss
      could leave all hold an exact copy, and no sector outside LBA 1-3 and the last
      three has changed since the beginning. */
  lemma SafeAtEveryInstant(p: Profile, img: Image, history: seq<Event>, cmd: Command, instant: nat, junk: Image)
    requires Recoverable(p, img)
    ensures var d := During(p, After(p, img, history), cmd, instant);
            && Recoverable(p, Crash(d, junk)) && SameElsewhere(Crash(d, junk), img)
            && Recoverable(p, d.image) && SameElsewhere(d.image, img)
            && Recoverable(p, View(d)) && SameElsewhere(View(d), img)
  {
    HistoryKeepsRecoverable(p, img, history);
    var start := After(p, img, history);
    var d := During(p, start, cmd, instant);
    RunKeepsRecoverable(p, start, cmd, instant, junk);
    RunKeepsRecoverable(p, start, cmd, instant, d.image);
    RunKeepsRecoverable(p, start, cmd, instant, View(d));
    assert Crash(d, d.image) == d.image;
    assert Crash(d, View(d)) == View(d);
  }

  // ----- what a completed run achieves -----

  lemma WholeOrderWritten(img: Image, backupFirst: bool, dest: Snapshot)
    ensures ReadSnapshot(WriteParts(img, Order(backupFirst), dest)) == dest
  {
    var w := WriteParts(img, Order(backupFirst), dest);
    ReadAllWritten(img, Order(backupFirst), dest, PrimaryHeader);
    ReadAllWritten(img, Order(backupFirst), dest, PrimaryTable);
    ReadAllWritten(img, Order(backupFirst), dest, BackupTable);
    ReadAllWritten(img, Order(backupFirst), dest, BackupHeader);
    assert HeaderPart(backupFirst) in Order(backupFirst) && HeaderPart(!backupFirst) in Order(backupFirst);
    assert TablePart(backupFirst) in Order(backupFirst) && TablePart(!backupFirst) in Order(backupFirst);
  }

  lemma RollbackNotRefused(p: Profile, img: Image, before: Label)
    requires Recoverable(p, img)
    ensures !Decide(p, Rollback(before), ReadSnapshot(img)).Refuse?
  {
    var backup: bool, l: Label :| CopyIs(ReadSnapshot(img), p.At(l), backup);
    assert l == before || l == Other(before);
  }

  lemma RollbackRestores(p: Profile, img: Image, before: Label)
    requires !Decide(p, Rollback(before), ReadSnapshot(img)).Refuse?
    ensures ReadSnapshot(Outcome(p, img, Complete(Rollback(before)))) == p.At(before)
  {
    var s := ReadSnapshot(img);
    match Decide(p, Rollback(before), s) {
      case Write(backupFirst, dest) =>
        CompleteLeavesParts(p, img, Rollback(before));
        WholeOrderWritten(img, backupFirst, dest);
      case NoOp =>
        assert CopyIs(s, p.At(before), false) && CopyIs(s, p.At(before), true);
        assert Outcome(p, img, Complete(Rollback(before))) == img;
    }
  }

  /** An uninterrupted rollback, from whatever earlier runs left, is never refused and
      restores its before state exactly. */
  lemma RollbackAlwaysRestores(p: Profile, img: Image, history: seq<Event>, before: Label)
    requires Recoverable(p, img)
    ensures var now := After(p, img, history);
            && !Decide(p, Rollback(before), ReadSnapshot(now)).Refuse?
            && ReadSnapshot(Outcome(p, now, Complete(Rollback(before)))) == p.At(before)
  {
    HistoryKeepsRecoverable(p, img, history);
    RollbackNotRefused(p, After(p, img, history), before);
    RollbackRestores(p, After(p, img, history), before);
  }

  lemma AuditedStatesClassify(p: Profile, l: Label)
    requires p.Built() && p.Distinct()
    ensures ClassifyExact(p, p.At(l)) == Known(l)
  {
    var s := p.At(l);
    ValidateExactlyBuiltHeader(p.crc, s.primaryHeader, s.primaryTable, false);
    ValidateExactlyBuiltHeader(p.crc, s.backupHeader, s.backupTable, true);
    assert Get(p.stock, PrimaryTable) != Get(p.activated, PrimaryTable);
  }

  /** activate and deactivate move between the two audited states. */
  lemma TransitionReaches(p: Profile, img: Image, from: Label, to: Label)
    requires p.Built() && p.Distinct()
    requires ReadSnapshot(img) == p.At(from)
    ensures ReadSnapshot(Outcome(p, img, Complete(Transition(to)))) == p.At(to)
    ensures from == to ==> Outcome(p, img, Complete(Transition(to))) == img
  {
    AuditedStatesClassify(p, from);
    if from == to {
      assert Outcome(p, img, Complete(Transition(to))) == img;
    } else {
      CompleteLeavesParts(p, img, Transition(to));
      WholeOrderWritten(img, true, p.At(to));
    }
  }

  /** The checks the tool makes after each synced stage: transition stages look at all
      components, rollback tables at the topology, rollback headers at the new copy. */
  predicate InterimCheck(rollback: bool, s: Snapshot, start: Snapshot, before: Snapshot, after: Snapshot,
                         stage: nat, backupFirst: bool)
    requires 1 <= stage <= 4
  {
    if !rollback then TransactionComponentsOk(s, start, after)
    else if stage == 1 || stage == 3 then TopologyOk(s, before, after)
    else CopyEndpoint(s, before, after, if stage == 2 then backupFirst else !backupFirst).BeforeValid?
  }

  lemma SnapshotAfterParts(img: Image, parts: seq<Part>, dest: Snapshot)
    ensures forall q: Part :: Get(ReadSnapshot(WriteParts(img, parts, dest)), q)
                           == if q in parts then Get(dest, q) else Get(ReadSnapshot(img), q)
  {
    forall q: Part {
      ReadAllWritten(img, parts, dest, q);
    }
  }

  /** Which copies are exact after `stage` stages. */
  lemma StageCopies(img: Image, backupFirst: bool, dest: Snapshot, stage: nat, e: Snapshot)
    requires stage <= 4
    ensures var s := ReadSnapshot(WriteParts(img, Order(backupFirst)[..stage], dest));
            && (stage >= 2 ==> CopyIs(s, dest, backupFirst))
            && (stage >= 4 ==> CopyIs(s, dest, !backupFirst))
            && (stage <= 2 && CopyIs(ReadSnapshot(img), e, !backupFirst) ==> CopyIs(s, e, !backupFirst))
  {
    var parts := Order(backupFirst)[..stage];
    SnapshotAfterParts(img, parts, dest);
    assert stage >= 2 ==> TablePart(backupFirst) == parts[0] && HeaderPart(backupFirst) == parts[1];
    assert stage >= 4 ==> TablePart(!backupFirst) == parts[2] && HeaderPart(!backupFirst) == parts[3];
  }

  /** The tool never trips over its own interim checks. */
  lemma InterimChecksPass(p: Profile, img: Image, cmd: Command, stage: nat)
    requires Decide(p, cmd, ReadSnapshot(img)).Write?
    requires 1 <= stage <= 4
    ensures var w := Decide(p, cmd, ReadSnapshot(img));
            var s := ReadSnapshot(WriteParts(img, Order(w.backupFirst)[..stage], w.dest));
            match cmd
            case Transition(to) => InterimCheck(false, s, ReadSnapshot(img), ReadSnapshot(img), w.dest, stage, w.backupFirst)
            case Rollback(b) => InterimCheck(true, s, ReadSnapshot(img), p.At(b), p.At(Other(b)), stage, w.backupFirst)
  {
    var start := ReadSnapshot(img);
    var w := Decide(p, cmd, start);
    SnapshotAfterParts(img, Order(w.backupFirst)[..stage], w.dest);
    StageCopies(img, w.backupFirst, w.dest, stage, start);
    if cmd.Rollback? {
      StageCopies(img, w.backupFirst, w.dest, stage, p.At(cmd.before));
      StageCopies(img, w.backupFirst, w.dest, stage, p.At(Other(cmd.before)));
    }
  }

  // ----- runs that start on unsynced writes -----

  /** The device after the first `instant` operations of a run on a device as it is: the
      run reads, and decides by, what is cached. */
  function DuringOn(p: Profile, d: Device, cmd: Command, instant: nat): Device {
    var t := Trace(p, cmd, ReadSnapshot(View(d)));
    Play(d, t[..Min(instant, |t|)])
  }

  predicate Unsynced(d: Device, backup: bool) {
    exists i :: i in CopySectors(backup) && i in d.pending
  }

  lemma OrderOps(backupFirst: bool, dest: Snapshot)
    ensures Ops(Order(backupFirst), dest)
         == StageOps(TablePart(backupFirst), Get(dest, TablePart(backupFirst))) + Ops(Order(backupFirst)[1..], dest)
    ensures Stays(StageOps(TablePart(backupFirst), Get(dest, TablePart(backupFirst))), CopySectors(backupFirst))
  {
  }

  /** Until its first sync a run leaves the second copy as it was read, if that was synced. */
  lemma SecondCopyUntouched(d: Device, backupFirst: bool, ops: seq<Op>, junk: Image)
    requires !Unsynced(d, !backupFirst) && Stays(ops, CopySectors(backupFirst))
    ensures SameCopy(Crash(Play(d, ops), junk), View(d), !backupFirst)
  {
    var reach := d.pending.Keys + CopySectors(backupFirst);
    PlayWithin(d, View(d), reach, ops);
    var c := Crash(Play(d, ops), junk);
    forall i: nat | i in CopySectors(!backupFirst) ensures c[i] == View(d)[i] {
      assert i !in d.pending;
    }
  }

  /** From its first sync on, a run is as if everything had been synced before it. */
  lemma SyncedFromFirstStage(d: Device, backupFirst: bool, dest: Snapshot, k: nat)
    requires 3 <= k <= |Ops(Order(backupFirst), dest)|
    ensures Play(d, Ops(Order(backupFirst), dest)[..k]) == Play(Device(View(d), map[]), Ops(Order(backupFirst), dest)[..k])
  {
    OrderOps(backupFirst, dest);
    var table := TablePart(backupFirst);
    var first, rest := StageOps(table, Get(dest, table)), Ops(Order(backupFirst)[1..], dest);
    assert (first + rest)[..k] == first + rest[..k - 3];
    PlayAppend(d, first, rest[..k - 3]);
    PlayAppend(Device(View(d), map[]), first, rest[..k - 3]);
    StageOnDevice(d, table, Get(dest, table));
    StagePlayed(View(d), table, Get(dest, table));
  }

  lemma RunOnSyncedSecondCopy(d: Device, backupFirst: bool, dest: Snapshot, held: Snapshot, k: nat, junk: Image)
    requires !Unsynced(d, !backupFirst) && CopyIs(ReadSnapshot(View(d)), held, !backupFirst)
    requires k <= |Ops(Order(backupFirst), dest)|
    ensures var c := Crash(Play(d, Ops(Order(backupFirst), dest)[..k]), junk);
            CopyIs(ReadSnapshot(c), held, !backupFirst) || CopyIs(ReadSnapshot(c), dest, backupFirst)
  {
    if k >= 3 {
      SyncedFromFirstStage(d, backupFirst, dest, k);
      RunNeverLosesBoth(View(d), backupFirst, dest, held, k, junk);
    } else {
      OrderOps(backupFirst, dest);
      var first := StageOps(TablePart(backupFirst), Get(dest, TablePart(backupFirst)));
      assert Ops(Order(backupFirst), dest)[..k] == first[..k];
      SecondCopyUntouched(d, backupFirst, first[..k], junk);
      SameCopyReads(Crash(Play(d, first[..k]), junk), View(d), !backupFirst, held);
    }
  }

  /** The copy a run writes second was exact when it was read. */
  lemma SecondCopyHeld(p: Profile, cmd: Command, s: Snapshot) returns (held: Label, dest: Label)
    requires Decide(p, cmd, s).Write?
    ensures var w := Decide(p, cmd, s);
            CopyIs(s, p.At(held), !w.backupFirst) && w.dest == p.At(dest)
  {
    match cmd {
      case Transition(to) => held, dest := Other(to), to;
      case Rollback(b) =>
        dest := b;
        held := if CopyIs(s, p.At(b), !Decide(p, cmd, s).backupFirst) then b else Other(b);
    }
  }

  lemma SafeIfSecondCopySynced(p: Profile, d: Device, cmd: Command, instant: nat, junk: Image)
    requires Decide(p, cmd, ReadSnapshot(View(d))).Write?
    requires !Unsynced(d, !Decide(p, cmd, ReadSnapshot(View(d))).backupFirst)
    ensures Recoverable(p, Crash(DuringOn(p, d, cmd, instant), junk))
  {
    var s := ReadSnapshot(View(d));
    var w, t := Decide(p, cmd, s), Trace(p, cmd, s);
    var held, dest := SecondCopyHeld(p, cmd, s);
    RunOnSyncedSecondCopy(d, w.backupFirst, w.dest, p.At(held), Min(instant, |t|), junk);
    var c := Crash(DuringOn(p, d, cmd, instant), junk);
    assert CopyIs(ReadSnapshot(c), p.At(held), !w.backupFirst) || CopyIs(ReadSnapshot(c), p.At(dest), w.backupFirst);
  }

  // ----- and otherwise both copies can be lost -----

  /** What an endpoint holds in one sector of a copy. */
  function SectorOf(e: Snapshot, backup: bool, lba: nat): Sector
    requires lba in CopySectors(backup)
  {
    if lba == Lba(HeaderPart(backup)) then Get(e, HeaderPart(backup))
    else if lba == Lba(TablePart(backup)) then Get(e, TablePart(backup))[..SECTOR_SIZE]
    else Get(e, TablePart(backup))[SECTOR_SIZE..]
  }

  function Unlike(a: Sector, b: Sector): (s: Sector)
    ensures s[0] != a[0] && s[0] != b[0]
  {
    var v: Byte := if a[0] != 0 && b[0] != 0 then 0 else if a[0] != 1 && b[0] != 1 then 1 else 2;
    [v] + Padding() + Padding()[..91]
  }

  lemma ExactCopyHasSectors(c: Image, e: Snapshot, backup: bool, lba: nat)
    requires lba in CopySectors(backup) && CopyIs(ReadSnapshot(c), e, backup)
    ensures c[lba] == SectorOf(e, backup, lba)
  {
    var header, table := HeaderPart(backup), TablePart(backup);
    assert Get(ReadSnapshot(c), header) == ReadPart(c, header) && Get(ReadSnapshot(c), table) == ReadPart(c, table);
    assert ReadPart(c, table)[..SECTOR_SIZE] == c[Lba(table)] && ReadPart(c, table)[SECTOR_SIZE..] == c[Lba(table) + 1];
  }

  /** One sector like neither endpoint's ruins a copy. */
  lemma RuinedCopy(p: Profile, c: Image, backup: bool, lba: nat, l: Label)
    requires lba in CopySectors(backup)
    requires c[lba] == Unlike(SectorOf(p.stock, backup, lba), SectorOf(p.activated, backup, lba))
    ensures !CopyIs(ReadSnapshot(c), p.At(l), backup)
  {
    if CopyIs(ReadSnapshot(c), p.At(l), backup) {
      ExactCopyHasSectors(c, p.At(l), backup, lba);
    }
  }

  function Ruin(p: Profile, backup: bool, lba: nat): Sector
    requires lba in CopySectors(backup)
  {
    Unlike(SectorOf(p.stock, backup, lba), SectorOf(p.activated, backup, lba))
  }

  lemma BothRuined(p: Profile, c: Image, one: nat, two: nat)
    requires one in CopySectors(false) && c[one] == Ruin(p, false, one)
    requires two in CopySectors(true) && c[two] == Ruin(p, true, two)
    ensures !Recoverable(p, c)
  {
    forall l: Label ensures !CopyIs(ReadSnapshot(c), p.At(l), false) && !CopyIs(ReadSnapshot(c), p.At(l), true) {
      RuinedCopy(p, c, false, one, l);
      RuinedCopy(p, c, true, two, l);
    }
  }

  /** A cached sector in each copy is enough to lose both. */
  lemma CachedSectorsLost(p: Profile, d: Device, one: nat, two: nat) returns (junk: Image)
    requires one in CopySectors(false) && one in d.pending && two in CopySectors(true) && two in d.pending
    ensures !Recoverable(p, Crash(d, junk))
  {
    junk := d.image[one := Ruin(p, false, one)][two := Ruin(p, true, two)];
    BothRuined(p, Crash(d, junk), one, two);
  }

  lemma FirstPut(backupFirst: bool, dest: Snapshot)
    ensures var t := Ops(Order(backupFirst), dest);
            |t| > 0 && t[0].Put? && t[0].lba == Lba(TablePart(backupFirst)) && t[0].lba in CopySectors(backupFirst)
  {
    OrderOps(backupFirst, dest);
  }

  /** After the first pwrite both copies have a cached sector. */
  lemma UnsafeAtFirstPut(p: Profile, d: Device, cmd: Command) returns (junk: Image)
    requires Decide(p, cmd, ReadSnapshot(View(d))).Write?
    requires Unsynced(d, !Decide(p, cmd, ReadSnapshot(View(d))).backupFirst)
    ensures !Recoverable(p, Crash(DuringOn(p, d, cmd, 1), junk))
  {
    var w, t := Decide(p, cmd, ReadSnapshot(View(d))), Trace(p, cmd, ReadSnapshot(View(d)));
    FirstPut(w.backupFirst, w.dest);
    assert t[..1] == [t[0]] && [t[0]][1..] == [];
    var e := Step(d, t[0]);
    assert Play(e, []) == e;
    assert DuringOn(p, d, cmd, 1) == e;
    var i :| i in CopySectors(!w.backupFirst) && i in d.pending;
    if w.backupFirst {
      junk := CachedSectorsLost(p, e, i, t[0].lba);
    } else {
      junk := CachedSectorsLost(p, e, t[0].lba, i);
    }
  }

  /** A run that writes, on a device with anything unsynced, is safe at every instant and
      against every power loss if and only if nothing of the copy it writes second is
      unsynced.  A sync before it is enough. */
  lemma SafeExactlyIfSecondCopySynced(p: Profile, d: Device, cmd: Command)
    requires Decide(p, cmd, ReadSnapshot(View(d))).Write?
    ensures (forall instant: nat, junk: Image :: Recoverable(p, Crash(DuringOn(p, d, cmd, instant), junk)))
       <==> !Unsynced(d, !Decide(p, cmd, ReadSnapshot(View(d))).backupFirst)
  {
    if Unsynced(d, !Decide(p, cmd, ReadSnapshot(View(d))).backupFirst) {
      var junk := UnsafeAtFirstPut(p, d, cmd);
    } else {
      forall instant: nat, junk: Image ensures Recoverable(p, Crash(DuringOn(p, d, cmd, instant), junk)) {
        SafeIfSecondCopySynced(p, d, cmd, instant, junk);
      }
    }
  }

  // ----- a run killed instead of losing power -----

  /** An activation whose process dies after its last pwrite but before the last fsync. */
  function Killed(p: Profile, img: Image): Device {
    var t := Trace(p, Transition(Activated), ReadSnapshot(img));
    if t == [] then Device(img, map[]) else Play(Device(img, map[]), t[..|t| - 1])
  }

  lemma LastStageOps(dest: Snapshot)
    ensures Ops(Order(true), dest)
         == Ops([BackupTable, BackupHeader, PrimaryTable], dest) + [Put(PRIMARY_HEADER_LBA, dest.primaryHeader), Sync]
  {
    assert Order(true) == [BackupTable, BackupHeader, PrimaryTable] + [PrimaryHeader];
    OpsAppend([BackupTable, BackupHeader, PrimaryTable], [PrimaryHeader], dest);
    assert [PrimaryHeader][1..] == [];
    assert Ops([PrimaryHeader], dest) == [Put(PRIMARY_HEADER_LBA, dest.primaryHeader), Sync];
  }

  lemma UnsyncedLastStage(img: Image, dest: Snapshot)
    ensures var t := Ops(Order(true), dest);
            && |t| > 0
            && Play(Device(img, map[]), t[..|t| - 1])
            == Device(WriteParts(img, [BackupTable, BackupHeader, PrimaryTable], dest), map[PRIMARY_HEADER_LBA := dest.primaryHeader])
  {
    LastStageOps(dest);
    var done := [BackupTable, BackupHeader, PrimaryTable];
    var put := Put(PRIMARY_HEADER_LBA, dest.primaryHeader);
    var t := Ops(Order(true), dest);
    assert t[..|t| - 1] == Ops(done, dest) + [put];
    PlayAppend(Device(img, map[]), Ops(done, dest), [put]);
    PartsPlayed(img, done, dest);
    var d := Device(WriteParts(img, done, dest), map[]);
    assert [put][1..] == [];
    assert Play(d, [put]) == Step(d, put);
  }

  lemma KilledState(p: Profile, img: Image)
    requires p.Built() && p.Distinct()
    requires ReadSnapshot(img) == p.At(Stock)
    ensures var w := WriteParts(img, [BackupTable, BackupHeader, PrimaryTable], p.activated);
            Killed(p, img) == Device(w, map[PRIMARY_HEADER_LBA := p.activated.primaryHeader])
  {
    AuditedStatesClassify(p, Stock);
    UnsyncedLastStage(img, p.activated);
  }

  lemma KilledLooksActivated(p: Profile, img: Image)
    requires p.Built() && p.Distinct()
    requires ReadSnapshot(img) == p.At(Stock)
    ensures ReadSnapshot(View(Killed(p, img))) == p.activated
  {
    KilledState(p, img);
    var done := [BackupTable, BackupHeader, PrimaryTable];
    var w := WriteParts(img, done, p.activated);
    assert View(Killed(p, img)) == WritePart(w, PrimaryHeader, p.activated.primaryHeader);
    forall q: Part ensures ReadPart(View(Killed(p, img)), q) == Get(p.activated, q) {
      ReadAllWritten(img, done, p.activated, q);
      ReadWritten(w, PrimaryHeader, p.activated.primaryHeader, q);
    }
  }

  /** If the killed run is followed not by power loss but by a rollback, which trusts the
      cached writes, power loss after the rollback's first pwrite can ruin both copies. */
  lemma KillWithoutPowerLossIsUnsafe(p: Profile, img: Image) returns (junk: Image)
    requires p.Built() && p.Distinct()
    requires ReadSnapshot(img) == p.At(Stock)
    ensures !Recoverable(p, Crash(DuringOn(p, Killed(p, img), Rollback(Stock), 1), junk))
  {
    KilledState(p, img);
    KilledLooksActivated(p, img);
    RollbackFromAfter(p);
    assert PRIMARY_HEADER_LBA in CopySectors(false) && PRIMARY_HEADER_LBA in Killed(p, img).pending;
    junk := UnsafeAtFirstPut(p, Killed(p, img), Rollback(Stock));
  }

  lemma RollbackFromAfter(p: Profile)
    requires p.Distinct()
    ensures Decide(p, Rollback(Stock), p.activated) == Write(true, p.stock)
  {
    assert Get(p.stock, PrimaryTable) != Get(p.activated, PrimaryTable);
    assert Get(p.stock, BackupTable) != Get(p.activated, BackupTable);
  }
}
