// What becomes of a requested cover: shown if it is still wanted when its decode is done,
// freed if the selection has moved on.

module CoverCacheDelivery {
  import opened Options
  import opened CoverCache
  import opened CoverCacheSafety
  import opened CoverCacheSizes

  // ----- which games are wanted -----

  /** The game at a distance from the selection, around the ends of the list. */
  function Around(visible: seq<nat>, index: nat, offset: int): nat
    requires visible != []
  {
    visible[(index + offset) % |visible|]
  }

  lemma {:induction false} WrapIsModulo(position: int, count: nat)
    requires count > 0
    ensures Wrap(position, count) == position % count
    decreases if position < 0 then -position else 0
  {
    if position < 0 {
      WrapIsModulo(position + count, count);
      ModuloShift(position, count);
    }
  }

  lemma ModuloShift(a: int, n: nat)
    requires n > 0
    ensures (a + n) % n == a % n
  {
    var q, r := a / n, a % n;
    assert a + n == n * (q + 1) + r;
    ModuloUnique(a + n, n, q + 1, r);
  }

  lemma ModuloUnique(a: int, n: nat, q: int, r: int)
    requires n > 0 && a == n * q + r && 0 <= r < n
    ensures a % n == r
  {
    NoMultiple(a / n - q, n, r - a % n);
  }

  lemma NoMultiple(d: int, n: nat, x: int)
    requires n * d == x && x < n && 0 < x + n
    ensures d == 0
  {
  }

  /** The games asked for: the selected one, then the nearest, left before right. */
  function Nearest(visible: seq<nat>, index: nat): (r: seq<nat>)
    requires visible != []
    ensures |r| == SLOTS
  {
    [Around(visible, index, 0), Around(visible, index, -1), Around(visible, index, 1),
     Around(visible, index, -2), Around(visible, index, 2)]
  }

  lemma NearestAt(visible: seq<nat>, index: nat, n: nat)
    requires visible != [] && n < SLOTS
    ensures VisiblePrefix(visible, index, n + 1) == AddId(VisiblePrefix(visible, index, n), Some(Nearest(visible, index)[n]))
  {
    WrapIsModulo(index + PRIORITY_OFFSETS[n], |visible|);
  }

  /** Adding entry n of a list to those before it, unless it is among them. */
  lemma Added(ids: seq<nat>, near: seq<nat>, n: nat)
    requires n < |near| && forall x: nat :: x in ids <==> x in near[..n]
    requires (Distinct(near) ==> ids == near[..n]) && (n == 0 ==> ids == [])
    ensures var more := AddId(ids, Some(near[n]));
            && (forall x: nat :: x in more <==> x in near[..n + 1])
            && (Distinct(near) ==> more == near[..n + 1])
            && ids <= more && (n == 0 ==> more == [near[0]])
  {
    assert near[..n + 1] == near[..n] + [near[n]];
  }

  lemma {:induction false} PrefixOfNearest(visible: seq<nat>, index: nat, n: nat)
    requires visible != [] && n <= SLOTS
    ensures var ids, near := VisiblePrefix(visible, index, n), Nearest(visible, index);
            && (forall x: nat :: x in ids <==> x in near[..n])
            && (Distinct(near) ==> ids == near[..n])
            && (n > 0 ==> ids != [] && ids[0] == near[0])
    decreases n
  {
    if n > 0 {
      PrefixOfNearest(visible, index, n - 1);
      NearestAt(visible, index, n - 1);
      Added(VisiblePrefix(visible, index, n - 1), Nearest(visible, index), n - 1);
    }
  }

  /** The games wanted are those at most two places from the selection, around the ends of
      the list; the selected one comes first, and if the five are different they come
      nearest first, left before right. */
  lemma WantedExactly(visible: seq<nat>, index: nat, g: nat)
    requires visible != []
    ensures var ids := CurrentVisibleIds(visible, index);
            && (g in ids <==> exists offset :: -2 <= offset <= 2 && Around(visible, index, offset) == g)
            && ids != [] && ids[0] == Around(visible, index, 0)
            && (Distinct(Nearest(visible, index)) ==> ids == Nearest(visible, index))
  {
    PrefixOfNearest(visible, index, SLOTS);
    var near := Nearest(visible, index);
    assert near[..SLOTS] == near;
    if g in near {
      var i :| 0 <= i < SLOTS && near[i] == g;
      assert Around(visible, index, PRIORITY_OFFSETS[i]) == g;
    }
    forall offset | -2 <= offset <= 2 ensures Around(visible, index, offset) in near {
    }
  }

  // ----- a cover on its own -----

  predicate NoJobs(jobs: seq<Job>) {
    |jobs| == SLOTS && forall i :: 0 <= i < SLOTS ==> jobs[i] == NO_JOB
  }

  predicate OnlyJob(jobs: seq<Job>, k: nat, j: Job) {
    |jobs| == SLOTS && k < SLOTS && jobs[k] == j && forall i :: 0 <= i < SLOTS && i != k ==> jobs[i] == NO_JOB
  }

  lemma {:induction false} NothingLost(a: seq<Job>, b: seq<Job>)
    requires |a| == |b| && forall i :: 0 <= i < |a| ==> a[i].surface.None?
    ensures Lost(a, b) == []
  {
    if a != [] {
      NothingLost(a[..|a| - 1], b[..|b| - 1]);
    }
  }

  lemma RefreshesIdle(s: Cache)
    requires s.ui.Free? && NoJobs(s.jobs)
    ensures var t := Refresh(s);
            NoJobs(t.jobs) && t == s.(workerIds := s.ids, gen := t.gen, jobs := t.jobs)
  {
    var jobs := RefreshJobs(s.jobs, Refresh(s).gen, s.ids);
    NothingLost(s.jobs, jobs);
    assert s.freed + [] == s.freed;
  }

  lemma RequestsAlone(s: Cache, p: nat, path: string) returns (k: nat, j: Job)
    requires s.ui.Free? && NoJobs(s.jobs) && p < |s.ids| && !HasItem(s.items, s.ids[p])
    ensures var t := Request(s, p, path);
            && OnlyJob(t.jobs, k, j) && t == s.(jobs := t.jobs)
            && Runnable(j, s.gen) && j.game == s.ids[p] && j.surface.None?
  {
    k := FreeSlot(s.jobs).value;
    j := NO_JOB.(occupied := true, game := s.ids[p], priority := p, gen := s.gen, path := path);
  }

  lemma PicksAlone(s: Cache, k: nat, j: Job)
    requires s.worker.Waiting? && s.running && OnlyJob(s.jobs, k, j) && Runnable(j, s.gen)
    ensures var t := Pick(s);
            && OnlyJob(t.jobs, k, j.(loading := true)) && t == s.(jobs := t.jobs, worker := t.worker)
            && t.worker == Decoding(k, j.game, s.gen, j.path)
  {
    assert Runnable(s.jobs[k], s.gen);
  }

  /** A decode that is still wanted is delivered: its slot is ready and holds the surface. */
  lemma DeliversAlone(s: Cache, k: nat, j: Job)
    requires s.worker.Decoded? && s.worker.slot == k && s.worker.game == j.game && s.worker.gen == j.gen == s.gen
    requires OnlyJob(s.jobs, k, j) && j.occupied && !j.cancelled && j.game in s.workerIds
    ensures var t := Finish(s);
            && OnlyJob(t.jobs, k, j.(surface := s.worker.surface, loading := false, ready := true))
            && t == s.(jobs := t.jobs, worker := Waiting)
  {
  }

  lemma CollectsAlone(s: Cache, k: nat, j: Job)
    requires s.ui.Free? && OnlyJob(s.jobs, k, j) && j.occupied && j.ready && j.game in s.ids
    ensures var t := Collect(s);
            && t.ui == Holding(j.game, j.surface) && t.ids == s.ids
  {
    var swept := SweepJobs(s.jobs, s.ids);
    assert Collectable(swept[k], s.ids);
    assert !Collectable(NO_JOB, s.ids);
  }

  /** Asked for, picked up and decoded. */
  function AskedAndDecoded(s: Cache, p: nat, path: string, bytes: nat): Cache {
    Next(Next(Next(Next(s, RefreshStep), RequestStep(p, path)), PickStep), DecodeStep(Some(bytes)))
  }

  /** Nothing is going on, and a visible game has no cover. */
  predicate Quiet(s: Cache, p: nat) {
    && s.ui.Free? && s.worker.Waiting? && s.running && p < |s.ids| && !HasItem(s.items, s.ids[p])
    && forall i :: 0 <= i < |s.jobs| ==> !s.jobs[i].occupied
  }

  lemma DecodesAlone(s: Cache, p: nat, path: string, bytes: nat) returns (k: nat, j: Job)
    requires Inv(s) && Quiet(s, p)
    ensures var t := AskedAndDecoded(s, p, path, bytes);
            && AloneAndDecoded(t, k, j) && j.game == s.ids[p] && t.worker.surface == Some(Surface(s.made, bytes))
            && t.items == s.items && t.freed == s.freed
  {
    assert NoJobs(s.jobs);
    RefreshesIdle(s);
    var a := Refresh(s);
    k, j := RequestsAlone(a, p, path);
    PicksAlone(Request(a, p, path), k, j);
    j := j.(loading := true);
  }

  lemma DecodingKeeps(s: Cache, p: nat, path: string, bytes: nat)
    requires Inv(s)
    ensures Inv(AskedAndDecoded(s, p, path, bytes))
    ensures AllSmall(s) && bytes <= THUMBNAIL_MAX_BYTES ==> AllSmall(AskedAndDecoded(s, p, path, bytes))
  {
    var a := Next(s, RefreshStep);
    var b := Next(a, RequestStep(p, path));
    var c := Next(b, PickStep);
    StepKeeps(s, RefreshStep);
    StepKeeps(a, RequestStep(p, path));
    StepKeeps(b, PickStep);
    StepKeeps(c, DecodeStep(Some(bytes)));
    if AllSmall(s) && bytes <= THUMBNAIL_MAX_BYTES {
      StepStaysSmall(s, RefreshStep);
      StepStaysSmall(a, RequestStep(p, path));
      StepStaysSmall(b, PickStep);
      StepStaysSmall(c, DecodeStep(Some(bytes)));
    }
  }

  /** Taken over by the interface and uploaded. */
  function Showing(s: Cache): Cache {
    Next(Next(Next(s, FinishStep), CollectStep), StoreStep(true))
  }

  /** The one job is decoded and wanted. */
  predicate AloneAndDecoded(s: Cache, k: nat, j: Job) {
    && OnlyJob(s.jobs, k, j) && j.occupied && j.loading && !j.cancelled && j.surface.None? && j.gen == s.gen
    && s.worker.Decoded? && s.worker.slot == k && s.worker.game == j.game && s.worker.gen == s.gen
    && s.ui.Free? && s.ids == s.workerIds && j.game in s.ids
  }

  lemma ArrivesFrom(s: Cache, k: nat, j: Job)
    requires Inv(s) && AllSmall(s) && AloneAndDecoded(s, k, j)
    ensures HasItem(Showing(s).items, j.game)
  {
    DeliversAlone(s, k, j);
    var u := Next(s, FinishStep);
    StepKeeps(s, FinishStep);
    StepStaysSmall(s, FinishStep);
    CollectsAlone(u, k, u.jobs[k]);
    StepKeeps(u, CollectStep);
    StepStaysSmall(u, CollectStep);
    StoredIsCached(Next(u, CollectStep));
  }

  /** From any state a run leaves quiet: a visible game without a cover gets one, if it is
      asked for, decoded within the permitted size, and the selection stays. */
  lemma CoverArrives(start: Cache, steps: seq<Step>, p: nat, path: string, bytes: nat)
    requires start == Init() && SmallDecodes(steps) && bytes <= THUMBNAIL_MAX_BYTES
    requires Quiet(Run(start, steps), p)
    ensures var s := Run(start, steps);
            HasItem(Showing(AskedAndDecoded(s, p, path, bytes)).items, s.ids[p])
  {
    var s := Run(start, steps);
    ReachableOk(s);
    RunStaysSmall(start, steps);
    var k, j := DecodesAlone(s, p, path, bytes);
    DecodingKeeps(s, p, path, bytes);
    ArrivesFrom(AskedAndDecoded(s, p, path, bytes), k, j);
  }

  /** The selection moves on before the decode is done. */
  function MovedOn(s: Cache, visible: seq<nat>, index: nat): Cache {
    Next(Next(Next(s, Navigate(visible, index)), RefreshStep), FinishStep)
  }

  lemma DropsFrom(s: Cache, k: nat, j: Job, visible: seq<nat>, index: nat)
    requires Inv(s) && AloneAndDecoded(s, k, j) && j.game !in CurrentVisibleIds(visible, index)
    ensures var t := MovedOn(s, visible, index);
            t.freed == s.freed + Ids(s.worker.surface) && t.items == s.items && NoJobs(t.jobs)
  {
    var n := Next(s, Navigate(visible, index));
    StepKeeps(s, Navigate(visible, index));
    OutdatedIsCancelled(n);
    var r := Refresh(n);
    NothingLost(n.jobs, r.jobs);
    assert n.freed + [] == n.freed;
    StepKeeps(n, RefreshStep);
    FinishesCancelled(r);
  }

  lemma FinishesCancelled(s: Cache)
    requires SharedOk(s) && s.worker.Decoded? && s.worker.slot < |s.jobs| && s.jobs[s.worker.slot].cancelled
    ensures var t := Finish(s);
            t == s.(jobs := s.jobs[s.worker.slot := NO_JOB], freed := s.freed + Ids(s.worker.surface), worker := Waiting)
  {
  }

  /** If it moves away from the game, the surface is freed and the game has no cover. */
  lemma CoverIsDropped(s: Cache, p: nat, path: string, bytes: nat, visible: seq<nat>, index: nat)
    requires Reachable(s) && Quiet(s, p) && s.ids[p] !in CurrentVisibleIds(visible, index)
    ensures var t := MovedOn(AskedAndDecoded(s, p, path, bytes), visible, index);
            t.freed == s.freed + [s.made] && !HasItem(t.items, s.ids[p]) && NoJobs(t.jobs)
  {
    ReachableOk(s);
    var k, j := DecodesAlone(s, p, path, bytes);
    DecodingKeeps(s, p, path, bytes);
    DropsFrom(AskedAndDecoded(s, p, path, bytes), k, j, visible, index);
  }

  // ----- among other work -----

  /** A refresh that finds other games wanted cancels the decode under way. */
  lemma OutdatedIsCancelled(s: Cache)
    requires Inv(s) && s.ui.Free? && s.worker.Decoded? && s.ids != s.workerIds
    ensures var t := Refresh(s);
            && t.worker == s.worker && s.worker.slot < |t.jobs| && t.jobs[s.worker.slot].cancelled && t.jobs[s.worker.slot].loading
            && forall i :: 0 <= i < |t.jobs| ==> (t.jobs[i] == NO_JOB || i == s.worker.slot)
  {
    var jobs := RefreshJobs(s.jobs, s.gen + 1, s.ids);
    forall i | 0 <= i < |jobs| && i != s.worker.slot ensures jobs[i] == NO_JOB {
      assert JobOk(s.jobs[i], s.gen);
    }
    assert JobOk(s.jobs[s.worker.slot], s.gen);
  }

  /** After a refresh every job is wanted, ranked by its place around the selection, or is
      being decoded. */
  lemma RefreshedIsWanted(s: Cache, i: nat)
    requires Reachable(s) && s.ui.Free? && i < |s.jobs|
    ensures var j := Refresh(s).jobs[i];
            j.occupied ==> j.loading || (j.game in s.ids && j.priority < |s.ids| && s.ids[j.priority] == j.game && j.gen == Refresh(s).gen)
  {
    var gen := Refresh(s).gen;
    assert Refresh(s).jobs[i] == RefreshJob(s.jobs[i], gen, s.ids);
  }

  /** After a collect no finished job is left over that is not wanted. */
  lemma CollectedIsWanted(s: Cache, i: nat)
    requires s.ui.Free? && i < |s.jobs|
    ensures |Collect(s).jobs| == |s.jobs|
    ensures Collect(s).jobs[i].occupied && Collect(s).jobs[i].ready ==> Collect(s).jobs[i].game in s.ids
  {
    var swept := SweepJobs(s.jobs, s.ids);
    assert swept[i] == SweepJob(s.jobs[i], s.ids);
  }

  predicate UiSteps(steps: seq<Step>) {
    forall i :: 0 <= i < |steps| ==> UiStep(steps[i])
  }

  lemma UiLeavesWorker(s: Cache, t: Step)
    requires UiStep(t) && s.worker.Decoded?
    ensures Next(s, t).worker == s.worker
  {
    if t.StoreStep? {
      StoreLeavesSlots(s, t.textureOk);
    }
  }

  /** Cancelled once, a decode stays cancelled whatever the interface does. */
  lemma {:induction false} StaysCancelled(s: Cache, steps: seq<Step>)
    requires Inv(s) && s.worker.Decoded? && s.worker.slot < |s.jobs| && s.jobs[s.worker.slot].cancelled && UiSteps(steps)
    ensures var t := Run(s, steps);
            Inv(t) && t.worker == s.worker && s.worker.slot < |t.jobs| && t.jobs[s.worker.slot].cancelled
    decreases |steps|
  {
    if steps != [] {
      UiLeavesWorker(s, steps[0]);
      LoadingKept(s, steps[0], s.worker.slot);
      StepKeeps(s, steps[0]);
      StaysCancelled(Next(s, steps[0]), steps[1..]);
    }
  }

  /** In any interleaving: once a refresh has seen other games wanted, the decode under way
      is thrown away, even if the selection comes back before it is done. */
  lemma OutdatedIsDropped(s: Cache, steps: seq<Step>)
    requires Reachable(s) && s.ui.Free? && s.worker.Decoded? && s.ids != s.workerIds && UiSteps(steps)
    ensures var t := Run(Refresh(s), steps);
            && s.worker.slot < |Finish(t).jobs| && Finish(t).jobs[s.worker.slot] == NO_JOB
            && Finish(t).freed == t.freed + Ids(s.worker.surface) && Finish(t).worker.Waiting?
  {
    ReachableOk(s);
    OutdatedIsCancelled(s);
    StepKeeps(s, RefreshStep);
    StaysCancelled(Refresh(s), steps);
  }

  predicate SelectionStays(steps: seq<Step>) {
    UiSteps(steps) && forall i :: 0 <= i < |steps| ==> !steps[i].Navigate?
  }

  predicate Wanted(s: Cache, w: WorkerAt) {
    && s.worker == w && w.Decoded? && w.slot < |s.jobs| && s.ids == s.workerIds && w.game in s.ids
    && s.jobs[w.slot].loading && !s.jobs[w.slot].cancelled && w.gen == s.gen
  }

  lemma StepStaysWanted(s: Cache, t: Step)
    requires Inv(s) && Wanted(s, s.worker) && UiStep(t) && !t.Navigate?
    ensures Wanted(Next(s, t), s.worker) && Next(s, t).gen == s.gen
  {
    UiLeavesWorker(s, t);
    LoadingKept(s, t, s.worker.slot);
    match t {
      case StoreStep(ok) => StoreLeavesSlots(s, ok);
      case RefreshStep =>
        if s.ui.Free? {
          assert Refresh(s).jobs[s.worker.slot] == RefreshJob(s.jobs[s.worker.slot], s.gen, s.ids);
        }
      case CollectStep => CollectLoading(s, s.worker.slot);
      case RequestStep(p, path) => RequestLoading(s, p, path, s.worker.slot);
      case _ =>
    }
  }

  lemma {:induction false} RunStaysWanted(s: Cache, steps: seq<Step>)
    requires Inv(s) && Wanted(s, s.worker) && SelectionStays(steps)
    ensures Inv(Run(s, steps)) && Wanted(Run(s, steps), s.worker)
    decreases |steps|
  {
    if steps != [] {
      StepStaysWanted(s, steps[0]);
      StepKeeps(s, steps[0]);
      RunStaysWanted(Next(s, steps[0]), steps[1..]);
    }
  }

  /** In any interleaving: as long as the selection stays, the decode of a wanted game is
      delivered; its slot is ready with the surface, and nothing is freed for it. */
  lemma WantedIsDelivered(s: Cache, steps: seq<Step>)
    requires Reachable(s) && s.worker.Decoded? && s.ids == s.workerIds && s.worker.game in s.ids
    requires s.worker.slot < |s.jobs| && !s.jobs[s.worker.slot].cancelled && SelectionStays(steps)
    ensures var t := Run(s, steps);
            && s.worker.slot < |Finish(t).jobs| && Finish(t).freed == t.freed
            && Finish(t).jobs[s.worker.slot].ready && Finish(t).jobs[s.worker.slot].game == s.worker.game
            && Finish(t).jobs[s.worker.slot].surface == s.worker.surface
  {
    ReachableOk(s);
    assert JobOk(s.jobs[s.worker.slot], s.gen);
    RunStaysWanted(s, steps);
  }
}
