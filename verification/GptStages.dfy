// ALLOWED_TRANSACTION_BITS: with whole-component writes, the states one rollback
// bundle can reach are exactly the nine the tool lists.

module GptStages {
  import opened GptSwap

  /** One bit per component: false is the bundle's before endpoint, true its after endpoint. */
  datatype Bits = Bits(ph: bool, pt: bool, bt: bool, bh: bool)

  const ALLOWED: set<Bits> := {
    Bits(false, false, false, false), // before
    Bits(false, false, true, false),  // forward-after-backup-table
    Bits(false, false, true, true),   // forward-after-backup-header
    Bits(false, true, true, true),    // forward-after-primary-table
    Bits(true, true, true, true),     // after
    Bits(true, true, false, true),    // rollback-after-backup-table
    Bits(true, true, false, false),   // rollback-after-backup-header
    Bits(true, false, false, false),  // rollback-after-primary-table
    Bits(false, false, false, true)   // rollback-from-forward-after-backup-table
  }

  datatype Stage = Reached(bits: Bits) | Refused

  function TransactionStage(s: Snapshot, before: Snapshot, after: Snapshot): Stage {
    if exists p: Part :: Get(s, p) != Get(before, p) && Get(s, p) != Get(after, p) then Refused
    else
      var bits := Bits(Get(s, PrimaryHeader) != Get(before, PrimaryHeader), Get(s, PrimaryTable) != Get(before, PrimaryTable),
                       Get(s, BackupTable) != Get(before, BackupTable), Get(s, BackupHeader) != Get(before, BackupHeader));
      if bits !in ALLOWED || !TransactionComponentsOk(s, before, after) then Refused else Reached(bits)
  }

  function Bit(b: Bits, p: Part): bool {
    match p
    case PrimaryHeader => b.ph
    case PrimaryTable => b.pt
    case BackupTable => b.bt
    case BackupHeader => b.bh
  }

  /** The disk component by component: each is the endpoint its bit names. */
  predicate Shows(s: Snapshot, b: Bits, before: Snapshot, after: Snapshot) {
    forall p: Part :: Get(s, p) == Get(if Bit(b, p) then after else before, p)
  }

  predicate Differ(before: Snapshot, after: Snapshot) {
    forall p: Part :: Get(before, p) != Get(after, p)
  }

  /** A run of the bundle's own operation, or of its rollback, cut after so many whole stages. */
  datatype WholeRun = Forward(stages: nat) | Backward(stages: nat)

  function CommandOf(before: Label, r: WholeRun): Command {
    if r.Forward? then Transition(Other(before)) else Rollback(before)
  }

  function WholeOutcome(p: Profile, img: Image, cmd: Command, stages: nat): Image {
    match Decide(p, cmd, ReadSnapshot(img))
    case Write(backupFirst, dest) => WriteParts(img, Order(backupFirst)[..Min(stages, 4)], dest)
    case _ => img
  }

  function WholeAfter(p: Profile, img: Image, before: Label, runs: seq<WholeRun>): Image
    decreases |runs|
  {
    if runs == [] then img
    else WholeAfter(p, WholeOutcome(p, img, CommandOf(before, runs[0]), runs[0].stages), before, runs[1..])
  }

  /** Cut after the first parts, a run has made exactly their calls. */
  lemma CutAfter(order: seq<Part>, n: nat, img: Image, dest: Snapshot) returns (instant: nat)
    requires n <= |order|
    ensures instant <= |Ops(order, dest)|
    ensures Play(Device(img, map[]), Ops(order, dest)[..instant]) == Device(WriteParts(img, order[..n], dest), map[])
  {
    assert order == order[..n] + order[n..];
    OpsAppend(order[..n], order[n..], dest);
    instant := |Ops(order[..n], dest)|;
    assert (Ops(order[..n], dest) + Ops(order[n..], dest))[..instant] == Ops(order[..n], dest);
    PartsPlayed(img, order[..n], dest);
  }

  /** Such a cut is one of the instants of the run, with nothing left unsynced. */
  lemma WholeCutIsAnInstant(p: Profile, img: Image, cmd: Command, stages: nat) returns (instant: nat)
    ensures During(p, img, cmd, instant) == Device(WholeOutcome(p, img, cmd, stages), map[])
  {
    instant := 0;
    match Decide(p, cmd, ReadSnapshot(img)) {
      case Write(backupFirst, dest) =>
        instant := CutAfter(Order(backupFirst), Min(stages, 4), img, dest);
      case _ =>
    }
  }

  // ----- the same runs on bits -----

  function SetBits(b: Bits, parts: seq<Part>, v: bool): Bits {
    Bits(if PrimaryHeader in parts then v else b.ph, if PrimaryTable in parts then v else b.pt,
         if BackupTable in parts then v else b.bt, if BackupHeader in parts then v else b.bh)
  }

  function BitsOutcome(b: Bits, r: WholeRun): Bits {
    var n := Min(r.stages, 4);
    match r
    case Forward(_) =>
      if b == Bits(false, false, false, false) then SetBits(b, Order(true)[..n], true) else b
    case Backward(_) =>
      if (b.ph != b.pt && b.bt != b.bh) || b == Bits(false, false, false, false) then b
      else SetBits(b, Order(b.ph == b.pt)[..n], false)
  }

  lemma CopyBits(s: Snapshot, b: Bits, before: Snapshot, after: Snapshot)
    requires Shows(s, b, before, after) && Differ(before, after)
    ensures CopyIs(s, before, false) <==> !b.ph && !b.pt
    ensures CopyIs(s, after, false) <==> b.ph && b.pt
    ensures CopyIs(s, before, true) <==> !b.bh && !b.bt
    ensures CopyIs(s, after, true) <==> b.bh && b.bt
    ensures s == before <==> b == Bits(false, false, false, false)
    ensures s == after <==> b == Bits(true, true, true, true)
  {
    assert Bit(b, PrimaryHeader) == b.ph && Bit(b, PrimaryTable) == b.pt && Bit(b, BackupTable) == b.bt && Bit(b, BackupHeader) == b.bh;
    assert Get(s, PrimaryHeader) == Get(if b.ph then after else before, PrimaryHeader);
    assert Get(s, PrimaryTable) == Get(if b.pt then after else before, PrimaryTable);
    assert Get(s, BackupTable) == Get(if b.bt then after else before, BackupTable);
    assert Get(s, BackupHeader) == Get(if b.bh then after else before, BackupHeader);
    assert s == Snapshot(Get(s, PrimaryHeader), Get(s, PrimaryTable), Get(s, BackupTable), Get(s, BackupHeader));
  }

  lemma PartsBits(img: Image, b: Bits, parts: seq<Part>, v: bool, before: Snapshot, after: Snapshot)
    requires Shows(ReadSnapshot(img), b, before, after)
    ensures Shows(ReadSnapshot(WriteParts(img, parts, if v then after else before)), SetBits(b, parts, v), before, after)
  {
    var t := ReadSnapshot(WriteParts(img, parts, if v then after else before));
    forall q: Part ensures Get(t, q) == Get(if Bit(SetBits(b, parts, v), q) then after else before, q) {
      PartBits(img, b, parts, v, before, after, q);
    }
  }

  lemma PartBits(img: Image, b: Bits, parts: seq<Part>, v: bool, before: Snapshot, after: Snapshot, q: Part)
    requires Shows(ReadSnapshot(img), b, before, after)
    ensures Get(ReadSnapshot(WriteParts(img, parts, if v then after else before)), q)
         == Get(if Bit(SetBits(b, parts, v), q) then after else before, q)
  {
    ReadAllWritten(img, parts, if v then after else before, q);
    assert Get(ReadSnapshot(img), q) == Get(if Bit(b, q) then after else before, q);
    assert Bit(SetBits(b, parts, v), q) == if q in parts then v else Bit(b, q);
  }

  lemma RollbackVerdictBits(s: Snapshot, b: Bits, before: Snapshot, after: Snapshot)
    requires Shows(s, b, before, after) && Differ(before, after)
    ensures RollbackVerdict(s, before, after)
         == if b.ph != b.pt && b.bt != b.bh then Refuse
            else if b == Bits(false, false, false, false) then NoOp
            else Write(b.ph == b.pt, before)
  {
    CopyBits(s, b, before, after);
  }

  lemma ForwardVerdictBits(p: Profile, s: Snapshot, before: Label, b: Bits)
    requires p.Built() && p.Distinct()
    requires Shows(s, b, p.At(before), p.At(Other(before)))
    ensures Decide(p, Transition(Other(before)), s)
         == if b == Bits(false, false, false, false) then Write(true, p.At(Other(before)))
            else if b == Bits(true, true, true, true) then NoOp
            else Refuse
  {
    CopyBits(s, b, p.At(before), p.At(Other(before)));
    AuditedStatesClassify(p, before);
    AuditedStatesClassify(p, Other(before));
  }

  lemma BitsFollowForward(p: Profile, img: Image, before: Label, b: Bits, stages: nat)
    requires p.Built() && p.Distinct()
    requires Shows(ReadSnapshot(img), b, p.At(before), p.At(Other(before)))
    ensures Shows(ReadSnapshot(WholeOutcome(p, img, Transition(Other(before)), stages)), BitsOutcome(b, Forward(stages)),
                  p.At(before), p.At(Other(before)))
  {
    ForwardVerdictBits(p, ReadSnapshot(img), before, b);
    PartsBits(img, b, Order(true)[..Min(stages, 4)], true, p.At(before), p.At(Other(before)));
  }

  lemma BitsFollowBackward(p: Profile, img: Image, before: Label, b: Bits, stages: nat)
    requires p.Distinct()
    requires Shows(ReadSnapshot(img), b, p.At(before), p.At(Other(before)))
    ensures Shows(ReadSnapshot(WholeOutcome(p, img, Rollback(before), stages)), BitsOutcome(b, Backward(stages)),
                  p.At(before), p.At(Other(before)))
  {
    RollbackVerdictBits(ReadSnapshot(img), b, p.At(before), p.At(Other(before)));
    PartsBits(img, b, Order(b.ph == b.pt)[..Min(stages, 4)], false, p.At(before), p.At(Other(before)));
  }

  lemma BitsFollowDisk(p: Profile, img: Image, before: Label, b: Bits, r: WholeRun)
    requires p.Built() && p.Distinct()
    requires Shows(ReadSnapshot(img), b, p.At(before), p.At(Other(before)))
    ensures Shows(ReadSnapshot(WholeOutcome(p, img, CommandOf(before, r), r.stages)), BitsOutcome(b, r),
                  p.At(before), p.At(Other(before)))
  {
    match r {
      case Forward(n) => BitsFollowForward(p, img, before, b, n);
      case Backward(n) => BitsFollowBackward(p, img, before, b, n);
    }
  }

  lemma OrderPrefix(backupFirst: bool, n: nat, q: Part)
    requires n <= 4
    ensures q in Order(backupFirst)[..n] <==>
            (n >= 1 && q == TablePart(backupFirst)) || (n >= 2 && q == HeaderPart(backupFirst)) ||
            (n >= 3 && q == TablePart(!backupFirst)) || (n >= 4 && q == HeaderPart(!backupFirst))
  {
    var o := Order(backupFirst)[..n];
    assert n >= 1 ==> o[0] == TablePart(backupFirst);
    assert n >= 2 ==> o[1] == HeaderPart(backupFirst);
    assert n >= 3 ==> o[2] == TablePart(!backupFirst);
    assert n >= 4 ==> o[3] == HeaderPart(!backupFirst);
  }

  lemma SetBitsPrefix(b: Bits, backupFirst: bool, n: nat, v: bool)
    requires n <= 4
    ensures SetBits(b, Order(backupFirst)[..n], v)
         == if backupFirst
            then Bits(if n >= 4 then v else b.ph, if n >= 3 then v else b.pt, if n >= 1 then v else b.bt, if n >= 2 then v else b.bh)
            else Bits(if n >= 2 then v else b.ph, if n >= 1 then v else b.pt, if n >= 3 then v else b.bt, if n >= 4 then v else b.bh)
  {
    OrderPrefix(backupFirst, n, PrimaryHeader);
    OrderPrefix(backupFirst, n, PrimaryTable);
    OrderPrefix(backupFirst, n, BackupTable);
    OrderPrefix(backupFirst, n, BackupHeader);
  }

  lemma AllowedClosed(b: Bits, r: WholeRun)
    requires b in ALLOWED
    ensures BitsOutcome(b, r) in ALLOWED
  {
    var n := Min(r.stages, 4);
    SetBitsPrefix(b, true, n, true);
    SetBitsPrefix(b, b.ph == b.pt, n, false);
  }

  function BitsAfter(b: Bits, runs: seq<WholeRun>): Bits
    decreases |runs|
  {
    if runs == [] then b else BitsAfter(BitsOutcome(b, runs[0]), runs[1..])
  }

  lemma {:induction false} BitsFollowRuns(p: Profile, img: Image, before: Label, b: Bits, runs: seq<WholeRun>)
    requires p.Built() && p.Distinct()
    requires b in ALLOWED
    requires Shows(ReadSnapshot(img), b, p.At(before), p.At(Other(before)))
    ensures BitsAfter(b, runs) in ALLOWED
    ensures Shows(ReadSnapshot(WholeAfter(p, img, before, runs)), BitsAfter(b, runs), p.At(before), p.At(Other(before)))
    decreases |runs|
  {
    if runs != [] {
      AllowedClosed(b, runs[0]);
      BitsFollowDisk(p, img, before, b, runs[0]);
      BitsFollowRuns(p, WholeOutcome(p, img, CommandOf(before, runs[0]), runs[0].stages), before,
                     BitsOutcome(b, runs[0]), runs[1..]);
    }
  }

  lemma ShownStage(s: Snapshot, b: Bits, before: Snapshot, after: Snapshot)
    requires Shows(s, b, before, after) && Differ(before, after) && b in ALLOWED
    ensures TransactionStage(s, before, after) == Reached(b)
  {
    CopyBits(s, b, before, after);
    assert Bit(b, PrimaryHeader) == b.ph && Bit(b, PrimaryTable) == b.pt && Bit(b, BackupTable) == b.bt && Bit(b, BackupHeader) == b.bh;
  }

  /** Runs that leave a given stage behind. */
  function Witness(b: Bits): seq<WholeRun> {
    if b.ph && b.pt then (if b.bt && b.bh then [Forward(4)] else if b.bh then [Forward(4), Backward(1)] else [Forward(4), Backward(2)])
    else if b.ph then [Forward(4), Backward(3)]
    else if b.pt then [Forward(3)]
    else if b.bt then (if b.bh then [Forward(2)] else [Forward(1)])
    else if b.bh then [Forward(2), Backward(1)]
    else []
  }

  lemma WitnessReaches(b: Bits)
    requires b in ALLOWED
    ensures BitsAfter(Bits(false, false, false, false), Witness(b)) == b
  {
    var z, w := Bits(false, false, false, false), Witness(b);
    if |w| >= 1 {
      var c := BitsOutcome(z, w[0]);
      SetBitsPrefix(z, true, Min(w[0].stages, 4), true);
      assert BitsAfter(z, w) == BitsAfter(c, w[1..]);
      if |w| == 2 {
        SetBitsPrefix(c, c.ph == c.pt, Min(w[1].stages, 4), false);
        assert w[1..] == [w[1]];
        assert BitsAfter(c, [w[1]]) == BitsAfter(BitsOutcome(c, w[1]), [w[1]][1..]);
      }
    }
  }

  function StageAfter(p: Profile, img: Image, before: Label, runs: seq<WholeRun>): Stage {
    TransactionStage(ReadSnapshot(WholeAfter(p, img, before, runs)), p.At(before), p.At(Other(before)))
  }

  lemma RunsReachAllowed(p: Profile, img: Image, before: Label, runs: seq<WholeRun>)
    requires p.Built() && p.Distinct()
    requires ReadSnapshot(img) == p.At(before)
    ensures StageAfter(p, img, before, runs) == Reached(BitsAfter(Bits(false, false, false, false), runs))
    ensures BitsAfter(Bits(false, false, false, false), runs) in ALLOWED
  {
    var z := Bits(false, false, false, false);
    BitsFollowRuns(p, img, before, z, runs);
    ShownStage(ReadSnapshot(WholeAfter(p, img, before, runs)), BitsAfter(z, runs), p.At(before), p.At(Other(before)));
  }

  /** From the before state, any number of whole-stage runs leave one of the nine
      stages, and each of the nine is left by some runs. */
  lemma ExactlyNineStages(p: Profile, img: Image, before: Label, b: Bits)
    requires p.Built() && p.Distinct()
    requires ReadSnapshot(img) == p.At(before)
    ensures forall runs: seq<WholeRun> :: StageAfter(p, img, before, runs).Reached?
    ensures b in ALLOWED <==> exists runs: seq<WholeRun> :: StageAfter(p, img, before, runs) == Reached(b)
  {
    forall runs: seq<WholeRun>
      ensures StageAfter(p, img, before, runs).Reached? && StageAfter(p, img, before, runs).bits in ALLOWED
    {
      RunsReachAllowed(p, img, before, runs);
    }
    if b in ALLOWED {
      RunsReachAllowed(p, img, before, Witness(b));
      WitnessReaches(b);
    }
  }

  lemma ShownRefused(s: Snapshot, b: Bits, before: Snapshot, after: Snapshot)
    requires Shows(s, b, before, after) && Differ(before, after) && b !in ALLOWED
    ensures TransactionStage(s, before, after).Refused?
  {
    assert Bit(b, PrimaryHeader) == b.ph && Bit(b, PrimaryTable) == b.pt && Bit(b, BackupTable) == b.bt && Bit(b, BackupHeader) == b.bh;
  }

  // ----- runs of both bundles -----

  /** The activation bundle has before Stock, the deactivation bundle Activated.  Bits count
      from Stock here, so the deactivation bundle sees them flipped. */
  datatype MixedRun = MixedRun(before: Label, run: WholeRun)

  function Flip(b: Bits): Bits {
    Bits(!b.ph, !b.pt, !b.bt, !b.bh)
  }

  /** What runs of both bundles add to the nine. */
  const TENTH := Bits(true, true, true, false)

  predicate OneOfTen(b: Bits) {
    b in ALLOWED || b == TENTH
  }

  function MixedOutcome(p: Profile, img: Image, r: MixedRun): Image {
    WholeOutcome(p, img, CommandOf(r.before, r.run), r.run.stages)
  }

  function MixedAfter(p: Profile, img: Image, runs: seq<MixedRun>): Image
    decreases |runs|
  {
    if runs == [] then img else MixedAfter(p, MixedOutcome(p, img, runs[0]), runs[1..])
  }

  function MixedBits(b: Bits, r: MixedRun): Bits {
    if r.before.Stock? then BitsOutcome(b, r.run) else Flip(BitsOutcome(Flip(b), r.run))
  }

  function MixedBitsAfter(b: Bits, runs: seq<MixedRun>): Bits
    decreases |runs|
  {
    if runs == [] then b else MixedBitsAfter(MixedBits(b, runs[0]), runs[1..])
  }

  lemma ShowsFlipped(s: Snapshot, b: Bits, before: Snapshot, after: Snapshot)
    requires Shows(s, b, before, after)
    ensures Shows(s, Flip(b), after, before)
  {
    assert forall p: Part :: Bit(Flip(b), p) == !Bit(b, p);
  }

  lemma MixedFollows(p: Profile, img: Image, b: Bits, r: MixedRun)
    requires p.Built() && p.Distinct() && Shows(ReadSnapshot(img), b, p.stock, p.activated)
    ensures Shows(ReadSnapshot(MixedOutcome(p, img, r)), MixedBits(b, r), p.stock, p.activated)
  {
    if r.before.Stock? {
      BitsFollowDisk(p, img, Stock, b, r.run);
    } else {
      ShowsFlipped(ReadSnapshot(img), b, p.stock, p.activated);
      BitsFollowDisk(p, img, Activated, Flip(b), r.run);
      ShowsFlipped(ReadSnapshot(MixedOutcome(p, img, r)), BitsOutcome(Flip(b), r.run), p.activated, p.stock);
    }
  }

  lemma TenClosed(b: Bits, r: WholeRun)
    requires OneOfTen(b)
    ensures OneOfTen(BitsOutcome(b, r))
  {
    if b in ALLOWED {
      AllowedClosed(b, r);
    } else {
      SetBitsPrefix(b, true, Min(r.stages, 4), false);
    }
  }

  lemma MixedClosed(b: Bits, r: MixedRun)
    requires OneOfTen(b)
    ensures OneOfTen(MixedBits(b, r))
  {
    TenClosed(if r.before.Stock? then b else Flip(b), r.run);
  }

  lemma {:induction false} MixedBitsClosed(b: Bits, runs: seq<MixedRun>)
    requires OneOfTen(b)
    ensures OneOfTen(MixedBitsAfter(b, runs))
    decreases |runs|
  {
    if runs != [] {
      MixedClosed(b, runs[0]);
      MixedBitsClosed(MixedBits(b, runs[0]), runs[1..]);
    }
  }

  lemma {:induction false} MixedRunsFollow(p: Profile, img: Image, b: Bits, runs: seq<MixedRun>)
    requires p.Built() && p.Distinct() && Shows(ReadSnapshot(img), b, p.stock, p.activated)
    ensures Shows(ReadSnapshot(MixedAfter(p, img, runs)), MixedBitsAfter(b, runs), p.stock, p.activated)
    decreases |runs|
  {
    if runs != [] {
      MixedFollows(p, img, b, runs[0]);
      MixedRunsFollow(p, MixedOutcome(p, img, runs[0]), MixedBits(b, runs[0]), runs[1..]);
    }
  }

  // ----- each of the ten is reached -----

  function OfActivation(runs: seq<WholeRun>): (r: seq<MixedRun>)
    ensures |r| == |runs| && forall i :: 0 <= i < |runs| ==> r[i] == MixedRun(Stock, runs[i])
  {
    seq(|runs|, i requires 0 <= i < |runs| => MixedRun(Stock, runs[i]))
  }

  lemma {:induction false} ActivationAlone(b: Bits, runs: seq<WholeRun>)
    ensures MixedBitsAfter(b, OfActivation(runs)) == BitsAfter(b, runs)
    decreases |runs|
  {
    if runs != [] {
      assert OfActivation(runs)[1..] == OfActivation(runs[1..]);
      ActivationAlone(BitsOutcome(b, runs[0]), runs[1..]);
    }
  }

  /** From Stock: up, then a deactivation cut after its backup copy, then that one's own
      rollback cut after the backup table. */
  function MixedWitness(b: Bits): seq<MixedRun> {
    if b == TENTH then [MixedRun(Stock, Forward(4)), MixedRun(Activated, Forward(2)), MixedRun(Activated, Backward(1))]
    else OfActivation(Witness(b))
  }

  lemma TenthReached()
    ensures MixedBitsAfter(Bits(false, false, false, false), MixedWitness(TENTH)) == TENTH
  {
    var z, w := Bits(false, false, false, false), MixedWitness(TENTH);
    SetBitsPrefix(z, true, 4, true);
    SetBitsPrefix(z, true, 2, true);
    SetBitsPrefix(Bits(false, false, true, true), true, 1, false);
    var up := Bits(true, true, true, true);
    assert MixedBits(z, w[0]) == up;
    assert MixedBits(up, w[1]) == Bits(true, true, false, false);
    assert MixedBits(Bits(true, true, false, false), w[2]) == TENTH;
    assert w[1..] == [w[1], w[2]] && [w[1], w[2]][1..] == [w[2]] && [w[2]][1..] == [];
    assert MixedBitsAfter(TENTH, []) == TENTH;
    assert MixedBitsAfter(Bits(true, true, false, false), [w[2]]) == TENTH;
  }

  lemma ReachedFromStock(b: Bits)
    requires OneOfTen(b)
    ensures MixedBitsAfter(Bits(false, false, false, false), MixedWitness(b)) == b
  {
    if b == TENTH {
      TenthReached();
    } else {
      WitnessReaches(b);
      ActivationAlone(Bits(false, false, false, false), Witness(b));
    }
  }

  /** From Activated a completed deactivation comes first. */
  lemma ReachedFrom(start: Label, b: Bits) returns (runs: seq<MixedRun>)
    requires OneOfTen(b)
    ensures MixedBitsAfter(StartBits(start), runs) == b
  {
    ReachedFromStock(b);
    if start.Stock? {
      runs := MixedWitness(b);
    } else {
      var down := MixedRun(Activated, Forward(4));
      runs := [down] + MixedWitness(b);
      SetBitsPrefix(Bits(false, false, false, false), true, 4, true);
      assert runs[1..] == MixedWitness(b);
    }
  }

  function StartBits(start: Label): Bits {
    if start.Stock? then Bits(false, false, false, false) else Bits(true, true, true, true)
  }

  lemma StartShows(p: Profile, s: Snapshot, start: Label)
    requires s == p.At(start)
    ensures Shows(s, StartBits(start), p.stock, p.activated)
  {
  }

  // ----- what the two stage tables make of them -----

  lemma TablesRefuse(p: Profile, s: Snapshot, b: Bits)
    requires p.Distinct() && OneOfTen(b) && Shows(s, b, p.stock, p.activated)
    ensures TransactionStage(s, p.stock, p.activated) == if b == TENTH then Refused else Reached(b)
    ensures TransactionStage(s, p.activated, p.stock) == if b == Flip(TENTH) then Refused else Reached(Flip(b))
  {
    if b == TENTH {
      ShownRefused(s, b, p.stock, p.activated);
    } else {
      ShownStage(s, b, p.stock, p.activated);
    }
    ShowsFlipped(s, b, p.stock, p.activated);
    if b == Flip(TENTH) {
      ShownRefused(s, Flip(b), p.activated, p.stock);
    } else {
      ShownStage(s, Flip(b), p.activated, p.stock);
    }
  }

  lemma ShownBitsUnique(s: Snapshot, b: Bits, c: Bits, before: Snapshot, after: Snapshot)
    requires Shows(s, b, before, after) && Shows(s, c, before, after) && Differ(before, after)
    ensures b == c
  {
    CopyBits(s, b, before, after);
    assert Bit(b, PrimaryHeader) == Bit(c, PrimaryHeader) && Bit(b, PrimaryTable) == Bit(c, PrimaryTable);
    assert Bit(b, BackupTable) == Bit(c, BackupTable) && Bit(b, BackupHeader) == Bit(c, BackupHeader);
  }

  lemma MixedRunLeaves(p: Profile, img: Image, start: Label, runs: seq<MixedRun>)
    requires p.Built() && p.Distinct() && ReadSnapshot(img) == p.At(start)
    ensures var s := ReadSnapshot(MixedAfter(p, img, runs));
            var c := MixedBitsAfter(StartBits(start), runs);
            && OneOfTen(c) && Shows(s, c, p.stock, p.activated)
            && TransactionStage(s, p.stock, p.activated) == (if c == TENTH then Refused else Reached(c))
            && TransactionStage(s, p.activated, p.stock) == (if c == Flip(TENTH) then Refused else Reached(Flip(c)))
  {
    StartShows(p, ReadSnapshot(img), start);
    MixedBitsClosed(StartBits(start), runs);
    MixedRunsFollow(p, img, StartBits(start), runs);
    TablesRefuse(p, ReadSnapshot(MixedAfter(p, img, runs)), MixedBitsAfter(StartBits(start), runs));
  }

  /** These runs leave the components as `b` says. */
  predicate Leave(p: Profile, img: Image, runs: seq<MixedRun>, b: Bits) {
    Shows(ReadSnapshot(MixedAfter(p, img, runs)), b, p.stock, p.activated)
  }

  /** The nine stages are those of one bundle.  Whole-stage runs of both bundles, in any
      order and from either state, leave exactly ten combinations: the nine and TENTH.  The
      activation bundle's table refuses TENTH alone, the deactivation bundle's table its
      flip alone (rollback itself goes by the topology and refuses neither). */
  lemma TwoBundlesLeaveTheNine(p: Profile, img: Image, start: Label, b: Bits)
    requires p.Built() && p.Distinct() && ReadSnapshot(img) == p.At(start)
    ensures b in ALLOWED || b == Bits(true, true, true, false) <==> exists runs: seq<MixedRun> :: Leave(p, img, runs, b)
    ensures forall runs: seq<MixedRun> :: Leave(p, img, runs, b) ==>
              var s := ReadSnapshot(MixedAfter(p, img, runs));
              && (TransactionStage(s, p.stock, p.activated).Refused? <==> b == Bits(true, true, true, false))
              && (TransactionStage(s, p.activated, p.stock).Refused? <==> b == Bits(false, false, false, true))
  {
    if OneOfTen(b) {
      var runs := ReachedFrom(start, b);
      MixedRunLeaves(p, img, start, runs);
      assert Leave(p, img, runs, b);
    }
    forall runs: seq<MixedRun> | Leave(p, img, runs, b) ensures b == MixedBitsAfter(StartBits(start), runs) {
      MixedRunLeaves(p, img, start, runs);
      ShownBitsUnique(ReadSnapshot(MixedAfter(p, img, runs)), b, MixedBitsAfter(StartBits(start), runs), p.stock, p.activated);
    }
    forall runs: seq<MixedRun> | Leave(p, img, runs, b)
      ensures OneOfTen(b)
      ensures var s := ReadSnapshot(MixedAfter(p, img, runs));
              && (TransactionStage(s, p.stock, p.activated).Refused? <==> b == Bits(true, true, true, false))
              && (TransactionStage(s, p.activated, p.stock).Refused? <==> b == Bits(false, false, false, true))
    {
      MixedRunLeaves(p, img, start, runs);
    }
  }
}
