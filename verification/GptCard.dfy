// The commands of tools/rg40xxv-gpt-label-swap.py as they run against a card: stage by
// stage, with read-back and interim checks, until the power goes.  `life` is the number
// of device operations left; since it is arbitrary, each method's contract speaks about
// every instant of its run.

module GptCard {
  import opened GptLayout
  import opened GptSwap

  datatype RunResult = PowerLost | Stopped | Unchanged | Committed

  /** `ops` were carried out until they or the budget ran out. */
  predicate Ran(d: Device, budget: nat, ops: seq<Op>, d': Device, left: nat, alive: bool) {
    && d' == Play(d, ops[..Min(budget, |ops|)])
    && left == budget - Min(budget, |ops|)
    && (alive <==> |ops| <= budget)
  }

  lemma RanThen(d: Device, budget: nat, a: seq<Op>, d1: Device, left1: nat, b: seq<Op>, d2: Device, left2: nat, alive: bool)
    requires Ran(d, budget, a, d1, left1, true)
    requires Ran(d1, left1, b, d2, left2, alive)
    ensures Ran(d, budget, a + b, d2, left2, alive)
  {
    var n := Min(left1, |b|);
    assert (a + b)[..Min(budget, |a + b|)] == a + b[..n];
    assert a[..|a|] == a;
    PlayAppend(d, a, b[..n]);
  }

  lemma RanShort(d: Device, budget: nat, a: seq<Op>, b: seq<Op>, d1: Device, left: nat)
    requires Ran(d, budget, a, d1, left, false)
    ensures Ran(d, budget, a + b, d1, left, false)
  {
    assert (a + b)[..Min(budget, |a + b|)] == a[..Min(budget, |a|)];
  }

  function PutOps(p: Part, data: Bytes): seq<Op>
    requires |data| == if IsTable(p) then TABLE_BYTES else SECTOR_SIZE
  {
    if IsTable(p) then [Put(Lba(p), data[..SECTOR_SIZE]), Put(Lba(p) + 1, data[SECTOR_SIZE..])] else [Put(Lba(p), data)]
  }

  lemma RanOneMore(d: Device, budget: nat, parts: seq<Part>, n: nat, dest: Snapshot,
                   d1: Device, left1: nat, d2: Device, left2: nat, alive: bool)
    requires n < |parts|
    requires Ran(d, budget, Ops(parts[..n], dest), d1, left1, true)
    requires Ran(d1, left1, StageOps(parts[n], Get(dest, parts[n])), d2, left2, alive)
    ensures Ran(d, budget, Ops(parts[..n + 1], dest), d2, left2, alive)
    ensures !alive ==> Ran(d, budget, Ops(parts, dest), d2, left2, false)
  {
    OneMorePart(d.image, parts, n, dest);
    RanThen(d, budget, Ops(parts[..n], dest), d1, left1, StageOps(parts[n], Get(dest, parts[n])), d2, left2, alive);
    if !alive {
      assert parts == parts[..n + 1] + parts[n + 1..];
      OpsAppend(parts[..n + 1], parts[n + 1..], dest);
      RanShort(d, budget, Ops(parts[..n + 1], dest), Ops(parts[n + 1..], dest), d2, left2);
    }
  }

  class Card {
    var image: Image
    var pending: map<nat, Sector>
    var life: nat

    constructor (image: Image, life: nat)
      ensures Dev() == Device(image, map[]) && this.life == life
    {
      this.image, this.pending, this.life := image, map[], life;
    }

    function Dev(): Device
      reads this
    {
      Device(image, pending)
    }

    method Pwrite(lba: nat, data: Sector) returns (alive: bool)
      modifies this
      ensures Ran(old(Dev()), old(life), [Put(lba, data)], Dev(), life, alive)
    {
      alive := life > 0;
      if alive {
        pending, life := pending[lba := data], life - 1;
        assert [Put(lba, data)][..1] == [Put(lba, data)];
        assert [Put(lba, data)][1..] == [];
        assert Play(old(Dev()), [Put(lba, data)]) == Step(old(Dev()), Put(lba, data));
      }
    }

    method Fsync() returns (alive: bool)
      modifies this
      ensures Ran(old(Dev()), old(life), [Sync], Dev(), life, alive)
    {
      alive := life > 0;
      if alive {
        image, pending, life := View(Dev()), map[], life - 1;
        assert [Sync][..1] == [Sync];
        assert Play(old(Dev()), [Sync]) == Step(old(Dev()), Sync);
      }
    }

    /** pwrite_sectors: one sector at a time. */
    method PwriteSectors(p: Part, data: Bytes) returns (alive: bool)
      requires |data| == if IsTable(p) then TABLE_BYTES else SECTOR_SIZE
      modifies this
      ensures Ran(old(Dev()), old(life), PutOps(p, data), Dev(), life, alive)
    {
      ghost var ops := PutOps(p, data);
      var relative := 0;
      assert ops[..0] == [];
      while relative < |data|
        invariant 0 <= relative <= |data| && relative % SECTOR_SIZE == 0
        invariant Ran(old(Dev()), old(life), ops[..relative / SECTOR_SIZE], Dev(), life, true)
      {
        label before:
        ghost var k := relative / SECTOR_SIZE;
        var sector: Sector := data[relative..relative + SECTOR_SIZE];
        assert ops[k] == Put(Lba(p) + k, sector);
        alive := Pwrite(Lba(p) + relative / SECTOR_SIZE, sector);
        assert ops[..k + 1] == ops[..k] + [ops[k]];
        RanThen(old(Dev()), old(life), ops[..k], old@before(Dev()), old@before(life), [ops[k]], Dev(), life, alive);
        if !alive {
          assert ops == ops[..k + 1] + ops[k + 1..];
          RanShort(old(Dev()), old(life), ops[..k + 1], ops[k + 1..], Dev(), life);
          return;
        }
        relative := relative + SECTOR_SIZE;
      }
      assert ops[..|ops|] == ops;
      alive := true;
    }

    /** pwrite_sectors, fsync_retry and the read-back comparison. */
    method WriteStage(p: Part, data: Bytes) returns (r: RunResult)
      requires |data| == if IsTable(p) then TABLE_BYTES else SECTOR_SIZE
      requires pending == map[]
      modifies this
      ensures r.PowerLost? || r.Committed?
      ensures Ran(old(Dev()), old(life), StageOps(p, data), Dev(), life, r.Committed?)
      ensures r.Committed? ==> Dev() == Device(WritePart(old(image), p, data), map[])
    {
      assert StageOps(p, data) == PutOps(p, data) + [Sync];
      var alive := PwriteSectors(p, data);
      if !alive {
        RanShort(old(Dev()), old(life), PutOps(p, data), [Sync], Dev(), life);
        return PowerLost;
      }
      label written:
      alive := Fsync();
      RanThen(old(Dev()), old(life), PutOps(p, data), old@written(Dev()), old@written(life), [Sync], Dev(), life, alive);
      if !alive {
        return PowerLost;
      }
      assert StageOps(p, data)[..|StageOps(p, data)|] == StageOps(p, data);
      StagePlayed(old(image), p, data);
      ReadWritten(old(image), p, data, p);
      assert View(Dev()) == image;
      if ReadPart(View(Dev()), p) != data {
        return Stopped;
      }
      return Committed;
    }

    /** write_one_gpt_copy: table, topology check, header, endpoint check. */
    method WriteOneGptCopy(before: Snapshot, after: Snapshot, backup: bool) returns (r: RunResult)
      requires pending == map[]
      requires TopologyOk(ReadSnapshot(WriteParts(image, [TablePart(backup)], before)), before, after)
      modifies this
      ensures r.PowerLost? || r.Committed?
      ensures Ran(old(Dev()), old(life), Ops(CopyParts(backup), before), Dev(), life, r.Committed?)
      ensures r.Committed? ==> Dev() == Device(WriteParts(old(image), CopyParts(backup), before), map[])
    {
      var t, h := TablePart(backup), HeaderPart(backup);
      CopyOps(backup, before);
      ghost var rest := StageOps(h, Get(before, h));
      var lba0 := View(Dev())[0];
      r := WriteStage(t, Get(before, t));
      if !r.Committed? {
        RanShort(old(Dev()), old(life), StageOps(t, Get(before, t)), rest, Dev(), life);
        return;
      }
      label tableDone:
      assert [t][1..] == [];
      assert WriteParts(old(image), [t], before) == image;
      assert View(Dev()) == image;
      if View(Dev())[0] != lba0 || !TopologyOk(ReadSnapshot(View(Dev())), before, after) {
        return Stopped;
      }
      r := WriteStage(h, Get(before, h));
      RanThen(old(Dev()), old(life), StageOps(t, Get(before, t)), old@tableDone(Dev()), old@tableDone(life), rest, Dev(), life, r.Committed?);
      if !r.Committed? {
        return;
      }
      assert CopyParts(backup)[1..] == [h];
      assert WriteParts(old(image), CopyParts(backup), before) == image;
      CopyWritten(old(image), backup, before);
      assert View(Dev()) == image;
      if View(Dev())[0] != lba0 || !CopyEndpoint(ReadSnapshot(View(Dev())), before, after, backup).BeforeValid? {
        return Stopped;
      }
    }
  
    /** write_snapshot_ordered: backup table and header, then primary table and header,
        with the component check after every stage. */
    method WriteSnapshotOrdered(current: Snapshot, dest: Snapshot) returns (r: RunResult)
      requires pending == map[] && ReadSnapshot(image) == current
      modifies this
      ensures r.PowerLost? || r.Committed?
      ensures Ran(old(Dev()), old(life), Ops(Order(true), dest), Dev(), life, r.Committed?)
      ensures r.Committed? ==> Dev() == Device(WriteParts(old(image), Order(true), dest), map[])
    {
      var parts := Order(true);
      var lba0 := View(Dev())[0];
      var n := 0;
      assert parts[..0] == [];
      while n < 4
        invariant 0 <= n <= 4
        invariant Ran(old(Dev()), old(life), Ops(parts[..n], dest), Dev(), life, true)
        invariant Dev() == Device(WriteParts(old(image), parts[..n], dest), map[])
        invariant image[0] == lba0
      {
        label before:
        var p := parts[n];
        r := WriteStage(p, Get(dest, p));
        RanOneMore(old(Dev()), old(life), parts, n, dest, old@before(Dev()), old@before(life), Dev(), life, r.Committed?);
        OneMorePart(old(image), parts, n, dest);
        if !r.Committed? {
          return;
        }
        ForwardStagesPass(old(image), dest, n + 1);
        assert View(Dev()) == image;
        if View(Dev())[0] != lba0 || !TransactionComponentsOk(ReadSnapshot(View(Dev())), current, dest) {
          return Stopped;
        }
        n := n + 1;
      }
      assert parts[..4] == parts;
      r := Committed;
    }

    /** transition_command with --apply: activate or deactivate. */
    method TransitionCommand(p: Profile, to: Label) returns (r: RunResult)
      requires p.Built() && p.Distinct()
      requires pending == map[]
      modifies this
      ensures var w := Decide(p, Transition(to), ReadSnapshot(old(image)));
              && (r.Stopped? <==> w.Refuse?) && (r.Unchanged? <==> w.NoOp?)
      ensures Ran(old(Dev()), old(life), Trace(p, Transition(to), ReadSnapshot(old(image))), Dev(), life, !r.PowerLost?)
      ensures r.Committed? ==> pending == map[] && ReadSnapshot(image) == p.At(to)
    {
      assert View(Dev()) == image;
      var current := ReadSnapshot(View(Dev()));
      match ClassifyExact(p, current) {
        case Unknown => return Stopped;
        case Known(state) =>
          if state == to { return Unchanged; }
      }
      r := WriteSnapshotOrdered(current, p.At(to));
      if r.Committed? {
        WholeOrderWritten(old(image), true, p.At(to));
        AuditedStatesClassify(p, to);
        assert View(Dev()) == image;
        var final := ReadSnapshot(View(Dev()));
        if final != p.At(to) || ClassifyExact(p, final) != Known(to) {
          return Stopped;
        }
      }
    }

    /** The two write_one_gpt_copy calls of rollback_command. */
    method RewriteBothCopies(before: Snapshot, after: Snapshot, first: bool) returns (r: RunResult)
      requires pending == map[]
      requires RollbackVerdict(ReadSnapshot(image), before, after) == Write(first, before)
      modifies this
      ensures r.PowerLost? || r.Committed?
      ensures Ran(old(Dev()), old(life), Ops(Order(first), before), Dev(), life, r.Committed?)
      ensures r.Committed? ==> Dev() == Device(WriteParts(old(image), Order(first), before), map[])
    {
      ghost var ops1, ops2 := Ops(CopyParts(first), before), Ops(CopyParts(!first), before);
      assert Order(first) == CopyParts(first) + CopyParts(!first);
      OpsAppend(CopyParts(first), CopyParts(!first), before);
      RollbackStagesPass(image, before, after);
      r := WriteOneGptCopy(before, after, first);
      if !r.Committed? {
        RanShort(old(Dev()), old(life), ops1, ops2, Dev(), life);
        return;
      }
      label half:
      WritePartsAppend(old(image), CopyParts(first), CopyParts(!first), before);
      r := WriteOneGptCopy(before, after, !first);
      RanThen(old(Dev()), old(life), ops1, old@half(Dev()), old@half(life), ops2, Dev(), life, r.Committed?);
    }

    /** rollback_command with --apply and the bundle whose before state is `b`. */
    method RollbackCommand(p: Profile, b: Label) returns (r: RunResult)
      requires p.Built() && p.Distinct()
      requires pending == map[]
      modifies this
      ensures var w := Decide(p, Rollback(b), ReadSnapshot(old(image)));
              && (r.Stopped? <==> w.Refuse?) && (r.Unchanged? <==> w.NoOp?)
      ensures Ran(old(Dev()), old(life), Trace(p, Rollback(b), ReadSnapshot(old(image))), Dev(), life, !r.PowerLost?)
      ensures r.Committed? ==> pending == map[] && ReadSnapshot(image) == p.At(b)
    {
      assert View(Dev()) == image;
      var before, after := p.At(b), p.At(Other(b));
      var w := RollbackVerdict(ReadSnapshot(View(Dev())), before, after);
      if w.Refuse? { return Stopped; }
      if w.NoOp? { return Unchanged; }
      r := RewriteBothCopies(before, after, w.backupFirst);
      if r.Committed? {
        WholeOrderWritten(old(image), w.backupFirst, before);
        AuditedStatesClassify(p, b);
        assert View(Dev()) == image;
        var final := ReadSnapshot(View(Dev()));
        if final != before || ClassifyExact(p, final) != Known(b) {
          return Stopped;
        }
      }
    }
  }

  lemma {:induction false} WritePartsAppend(img: Image, a: seq<Part>, b: seq<Part>, dest: Snapshot)
    ensures WriteParts(img, a + b, dest) == WriteParts(WriteParts(img, a, dest), b, dest)
    decreases |a|
  {
    if a == [] {
      assert a + b == b;
    } else {
      assert (a + b)[1..] == a[1..] + b;
      WritePartsAppend(WritePart(img, a[0], Get(dest, a[0])), a[1..], b, dest);
    }
  }

  lemma OneMorePart(img: Image, parts: seq<Part>, n: nat, dest: Snapshot)
    requires n < |parts|
    ensures Ops(parts[..n + 1], dest) == Ops(parts[..n], dest) + StageOps(parts[n], Get(dest, parts[n]))
    ensures WriteParts(img, parts[..n + 1], dest) == WritePart(WriteParts(img, parts[..n], dest), parts[n], Get(dest, parts[n]))
  {
    var p := parts[n];
    assert parts[..n + 1] == parts[..n] + [p];
    OpsAppend(parts[..n], [p], dest);
    WritePartsAppend(img, parts[..n], [p], dest);
    assert [p][1..] == [];
    assert Ops([p], dest) == StageOps(p, Get(dest, p)) + Ops([], dest);
    assert WriteParts(WriteParts(img, parts[..n], dest), [p], dest)
        == WriteParts(WritePart(WriteParts(img, parts[..n], dest), p, Get(dest, p)), [], dest);
  }

  lemma ForwardStagesPass(img: Image, dest: Snapshot, stage: nat)
    requires 1 <= stage <= 4
    ensures TransactionComponentsOk(ReadSnapshot(WriteParts(img, Order(true)[..stage], dest)), ReadSnapshot(img), dest)
  {
    SnapshotAfterParts(img, Order(true)[..stage], dest);
    StageCopies(img, true, dest, stage, ReadSnapshot(img));
  }

  lemma RollbackStagesPass(img: Image, before: Snapshot, after: Snapshot)
    requires RollbackVerdict(ReadSnapshot(img), before, after).Write?
    ensures var first := RollbackVerdict(ReadSnapshot(img), before, after).backupFirst;
            && TopologyOk(ReadSnapshot(WriteParts(img, [TablePart(first)], before)), before, after)
            && TopologyOk(ReadSnapshot(WriteParts(WriteParts(img, CopyParts(first), before), [TablePart(!first)], before)), before, after)
  {
    var first := RollbackVerdict(ReadSnapshot(img), before, after).backupFirst;
    assert Order(first)[..1] == [TablePart(first)];
    StageCopies(img, first, before, 1, before);
    StageCopies(img, first, before, 1, after);
    assert Order(first)[..3] == CopyParts(first) + [TablePart(!first)];
    WritePartsAppend(img, CopyParts(first), [TablePart(!first)], before);
    StageCopies(img, first, before, 3, before);
  }
}
