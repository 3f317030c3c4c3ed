// cover_cache.c as it runs: fields and slot arrays updated in place.  Each method is one
// atomic region and is proved to be the corresponding step of the transition system, so
// what CoverCacheSafety says about every interleaving holds of these methods.

module CoverCacheThreads {
  import opened Options
  import opened CoverCache

  /** current_visible_ids: walk the five offsets, skipping repetitions. */
  method ComputeVisibleIds(visible: seq<nat>, index: nat) returns (ids: seq<nat>)
    ensures ids == CurrentVisibleIds(visible, index)
    ensures Distinct(ids) && |ids| <= SLOTS
  {
    ids := [];
    for priority := 0 to SLOTS
      invariant ids == VisiblePrefix(visible, index, priority)
    {
      if visible != [] {
        var position: int := index + PRIORITY_OFFSETS[priority];
        var count := |visible|;
        while position < 0
          invariant Wrap(position, count) == Wrap(index + PRIORITY_OFFSETS[priority], count)
        {
          position := position + count;
        }
        var game := visible[position % count];
        var duplicate := false;
        for i := 0 to |ids|
          invariant duplicate <==> game in ids[..i]
        {
          if ids[i] == game { duplicate := true; }
        }
        assert ids[..|ids|] == ids;
        if !duplicate { ids := ids + [game]; }
      }
    }
    VisibleIdsBounded(visible, index, SLOTS);
  }

  /** Of the slots `a`, the first `i` have become those of `b` and what they lost has been freed. */
  ghost predicate Moved(a: seq<Job>, b: seq<Job>, cur: seq<Job>, log0: seq<nat>, log: seq<nat>, i: nat) {
    && |a| == |b| && i <= |a|
    && cur == b[..i] + a[i..]
    && log == log0 + Lost(a[..i], b[..i])
  }

  lemma MoveBegins(a: seq<Job>, b: seq<Job>, log: seq<nat>)
    requires |a| == |b|
    ensures Moved(a, b, a, log, log, 0)
  {
  }

  lemma MoveAdvances(a: seq<Job>, b: seq<Job>, cur: seq<Job>, log0: seq<nat>, log: seq<nat>, i: nat)
    requires Moved(a, b, cur, log0, log, i) && i < |a|
    ensures i < |cur| && cur[i] == a[i]
    ensures Moved(a, b, cur[i := b[i]], log0, log + (if b[i].surface.None? then Ids(a[i].surface) else []), i + 1)
  {
    assert a[..i + 1][..i] == a[..i] && b[..i + 1][..i] == b[..i];
  }

  lemma MoveEnds(a: seq<Job>, b: seq<Job>, cur: seq<Job>, log0: seq<nat>, log: seq<nat>)
    requires Moved(a, b, cur, log0, log, |a|)
    ensures cur == b && log == log0 + Lost(a, b)
  {
    assert a[..|a|] == a && b[..|a|] == b;
  }

  class CacheObject {
    const jobs: array<Job>
    const items: array<Item>
    var workerIds: seq<nat>
    var gen: nat
    var running: bool
    var worker: WorkerAt
    var ids: seq<nat>
    var tick: nat
    var ui: UiAt
    var textureBytes: nat
    var creates: nat
    var destroys: nat
    var evictions: nat
    var made: nat
    var freed: seq<nat>

    ghost predicate Valid()
      reads this
    {
      jobs.Length == SLOTS && items.Length == SLOTS
    }

    ghost function Abs(): Cache
      reads this, jobs, items
      requires Valid()
    {
      Cache(jobs[..], workerIds, gen, running, worker, items[..], ids, tick, ui, textureBytes, creates, destroys, evictions, made, freed)
    }

    constructor ()
      ensures Valid() && Abs() == Init() && fresh(jobs) && fresh(items)
    {
      jobs := new Job[SLOTS](_ => NO_JOB);
      items := new Item[SLOTS](_ => NO_ITEM);
      workerIds, gen, running, worker := [], 0, true, Waiting;
      ids, tick, ui := [], 0, Free;
      textureBytes, creates, destroys, evictions := 0, 0, 0, 0;
      made, freed := 0, [];
      new;
      assert jobs[..] == Init().jobs && items[..] == Init().items;
    }

    /** The worker's search for the next job. */
    method WorkerPick()
      requires Valid() && worker.Waiting? && running
      modifies this, jobs
      ensures Valid() && Abs() == Pick(old(Abs()))
    {
      var best: Option<nat> := None;
      for i := 0 to SLOTS
        invariant best == NextJob(jobs[..i], gen)
      {
        assert jobs[..i + 1][..i] == jobs[..i];
        if Runnable(jobs[i], gen) && (best.None? || jobs[i].priority < jobs[best.value].priority) {
          best := Some(i);
        }
      }
      assert jobs[..SLOTS] == jobs[..];
      if best.Some? {
        var k := best.value;
        worker := Decoding(k, jobs[k].game, jobs[k].gen, jobs[k].path);
        jobs[k] := jobs[k].(loading := true);
      }
    }

    /** The worker back under the mutex with what it decoded. */
    method WorkerFinish()
      requires Valid() && worker.Decoded? && worker.slot < SLOTS
      modifies this, jobs
      ensures Valid() && Abs() == Finish(old(Abs()))
    {
      var k := worker.slot;
      if jobs[k].occupied && jobs[k].game == worker.game && jobs[k].gen == worker.gen {
        if jobs[k].cancelled || worker.gen != gen || worker.game !in workerIds {
          freed := freed + Ids(worker.surface);
          jobs[k] := NO_JOB;
        } else {
          jobs[k] := jobs[k].(surface := worker.surface, loading := false, ready := true);
        }
      } else {
        freed := freed + Ids(worker.surface);
      }
      worker := Waiting;
    }

    method ClearSlot(i: nat)
      requires Valid() && i < SLOTS
      modifies this`freed, jobs
      ensures jobs[..] == old(jobs[..])[i := NO_JOB] && freed == old(freed) + Ids(old(jobs[i]).surface)
    {
      if jobs[i].surface.Some? { freed := freed + [jobs[i].surface.value.id]; } else { assert freed + [] == freed; }
      jobs[i] := NO_JOB;
    }

    method RefreshSlot(i: nat)
      requires Valid() && i < SLOTS
      modifies this`freed, jobs
      ensures jobs[..] == old(jobs[..])[i := RefreshJob(old(jobs[i]), gen, ids)]
      ensures freed == old(freed) + (if jobs[i].surface.None? then Ids(old(jobs[i]).surface) else [])
    {
      var j := jobs[i];
      if !j.occupied { return; }
      if j.gen != gen {
        if j.loading { jobs[i] := j.(cancelled := true); } else { ClearSlot(i); }
      } else if j.game in ids {
        jobs[i] := j.(priority := Rank(ids, j.game));
      } else if !j.loading {
        ClearSlot(i);
      }
    }

    method RefreshSlots()
      requires Valid()
      modifies this`freed, jobs
      ensures jobs[..] == RefreshJobs(old(jobs[..]), gen, ids)
      ensures freed == old(freed) + Lost(old(jobs[..]), jobs[..])
    {
      ghost var a, b := jobs[..], RefreshJobs(jobs[..], gen, ids);
      MoveBegins(a, b, freed);
      for i := 0 to jobs.Length
        invariant Moved(a, b, jobs[..], old(freed), freed, i)
      {
        MoveAdvances(a, b, jobs[..], old(freed), freed, i);
        RefreshSlot(i);
      }
      MoveEnds(a, b, jobs[..], old(freed), freed);
    }

    method RefreshWorkerVisible()
      requires Valid() && ui.Free?
      modifies this, jobs
      ensures Valid() && Abs() == Refresh(old(Abs()))
    {
      if workerIds != ids { gen := gen + 1; }
      workerIds := ids;
      RefreshSlots();
    }

    method SweepSlot(i: nat)
      requires Valid() && i < SLOTS
      modifies this`freed, jobs
      ensures jobs[..] == old(jobs[..])[i := SweepJob(old(jobs[i]), ids)]
      ensures freed == old(freed) + (if jobs[i].surface.None? then Ids(old(jobs[i]).surface) else [])
    {
      if jobs[i].occupied && jobs[i].ready && jobs[i].game !in ids {
        ClearSlot(i);
      }
    }

    /** Drop ready jobs that went off screen. */
    method SweepSlots()
      requires Valid()
      modifies this`freed, jobs
      ensures jobs[..] == SweepJobs(old(jobs[..]), ids)
      ensures freed == old(freed) + Lost(old(jobs[..]), jobs[..])
    {
      ghost var a, b := jobs[..], SweepJobs(jobs[..], ids);
      MoveBegins(a, b, freed);
      for i := 0 to jobs.Length
        invariant Moved(a, b, jobs[..], old(freed), freed, i)
      {
        MoveAdvances(a, b, jobs[..], old(freed), freed, i);
        SweepSlot(i);
      }
      MoveEnds(a, b, jobs[..], old(freed), freed);
    }

    method FindBestReady() returns (best: Option<nat>)
      requires Valid()
      ensures best == BestReady(jobs[..], ids)
    {
      best := None;
      for i := 0 to SLOTS
        invariant best == BestReady(jobs[..i], ids)
      {
        assert jobs[..i + 1][..i] == jobs[..i];
        if Collectable(jobs[i], ids) && (best.None? || Rank(ids, jobs[i].game) < Rank(ids, jobs[best.value].game)) {
          best := Some(i);
        }
      }
      assert jobs[..SLOTS] == jobs[..];
    }

    method CollectReady() returns (collected: bool)
      requires Valid() && ui.Free?
      modifies this, jobs
      ensures Valid() && Abs() == Collect(old(Abs()))
      ensures collected <==> ui.Holding?
    {
      SweepSlots();
      var best := FindBestReady();
      collected := best.Some?;
      if collected {
        ui := Holding(jobs[best.value].game, jobs[best.value].surface);
        jobs[best.value] := NO_JOB;
      }
    }

    method FindItemSlot(g: nat) returns (r: Option<nat>)
      requires Valid()
      ensures r == FindItem(items[..], g)
    {
      r := None;
      for i := 0 to SLOTS
        invariant r == FindItem(items[..i], g)
      {
        assert items[..i + 1][..i] == items[..i];
        if r.None? && items[i].occupied && items[i].game == g { r := Some(i); }
      }
      assert items[..SLOTS] == items[..];
    }

    method FindReplacement() returns (r: Option<nat>)
      requires Valid()
      ensures r == ReplacementItem(items[..], ids)
    {
      r := None;
      for i := 0 to SLOTS
        invariant r == ReplacementItem(items[..i], ids)
      {
        assert items[..i + 1][..i] == items[..i];
        if r.Some? && !items[r.value].occupied {
        } else if !items[i].occupied {
          r := Some(i);
        } else if items[i].game !in ids && (r.None? || items[i].lastUsed < items[r.value].lastUsed) {
          r := Some(i);
        }
      }
      assert items[..SLOTS] == items[..];
    }

    method StoreSurface(textureOk: bool)
      requires Valid() && ui.Holding?
      modifies this, items
      ensures Valid() && Abs() == Store(old(Abs()), textureOk)
    {
      var g, surface := ui.game, ui.surface;
      ui := Free;
      freed := freed + Ids(surface);
      if g in ids && (surface.None? || textureOk) {
        UploadTexture(g, surface);
      }
    }

    method UploadTexture(g: nat, surface: Option<Surface>)
      requires Valid()
      modifies this, items
      ensures Valid() && Abs() == Upload(old(Abs()), g, surface)
    {
      if surface.Some? { creates := creates + 1; }
      var slot := FindItemSlot(g);
      if slot.None? { slot := FindReplacement(); }
      if slot.Some? {
        PlaceTexture(slot.value, g, surface);
      } else if surface.Some? {
        destroys := destroys + 1;
      }
    }

    method PlaceTexture(k: nat, g: nat, surface: Option<Surface>)
      requires Valid() && k < SLOTS
      modifies this, items
      ensures Valid() && Abs() == Place(old(Abs()), k, g, surface)
    {
      var textures := if surface.Some? then 1 else 0;
      var bytes := if surface.Some? then surface.value.bytes else 0;
      if items[k].occupied && items[k].game in ids {
        evictions := evictions + 1;
        destroys := destroys + textures;
        return;
      }
      var retained := if textureBytes >= items[k].bytes then textureBytes - items[k].bytes else 0;
      if retained + bytes > CACHE_MAX_BYTES {
        destroys := destroys + textures;
        return;
      }
      if items[k].texture {
        destroys := destroys + 1;
        textureBytes := retained;
      }
      tick := tick + 1;
      items[k] := Item(true, g, surface.Some?, bytes, tick);
      textureBytes := textureBytes + bytes;
    }

    method RequestGame(priority: nat, path: string)
      requires Valid() && ui.Free? && priority < |ids|
      modifies jobs
      ensures Valid() && Abs() == Request(old(Abs()), priority, path)
    {
      var g := ids[priority];
      var item := FindItemSlot(g);
      if item.Some? { return; }
      var found: Option<nat>, free: Option<nat> := None, None;
      for i := 0 to SLOTS
        modifies {}
        invariant found == FindJob(jobs[..i], gen, g) && free == FreeSlot(jobs[..i])
      {
        assert jobs[..i + 1][..i] == jobs[..i];
        if found.None? && Queued(jobs[i], gen, g) { found := Some(i); }
        if free.None? && !jobs[i].occupied { free := Some(i); }
      }
      assert jobs[..SLOTS] == jobs[..];
      if found.Some? {
        jobs[found.value] := jobs[found.value].(priority := priority);
      } else if free.Some? {
        jobs[free.value] := jobs[free.value].(occupied := true, game := g, priority := priority, gen := gen, path := path);
      }
    }
  }
}
