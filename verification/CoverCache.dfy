// The cover cache of components/rg40xxv-shell/src/cover_cache.c as an interleaved
// transition system.  The UI thread and one decode worker share five job slots; the
// atomic steps are the regions that hold the mutex (and, for the item table, the code
// that only the UI thread runs).  SDL surfaces carry identities so that every one can
// be accounted for.  Generations are unbounded here.

module CoverCache {
  import opened Options

  const SLOTS := 5
  const THUMBNAIL_MAX_BYTES := 160 * 232 * 4
  const CACHE_MAX_BYTES := THUMBNAIL_MAX_BYTES * 5

  datatype Surface = Surface(id: nat, bytes: nat)

  datatype Job = Job(occupied: bool, game: nat, priority: nat, gen: nat, path: string, surface: Option<Surface>,
                     loading: bool, ready: bool, cancelled: bool)

  datatype Item = Item(occupied: bool, game: nat, texture: bool, bytes: nat, lastUsed: nat)

  /** memset(job, 0, sizeof(*job)) and memset(item, 0, sizeof(*item)) */
  const NO_JOB := Job(false, 0, 0, 0, "", None, false, false, false)
  const NO_ITEM := Item(false, 0, false, 0, 0)

  /** Where the worker is: waiting for work, decoding without the mutex, or back with a result. */
  datatype WorkerAt = Waiting | Decoding(slot: nat, game: nat, gen: nat, path: string)
                    | Decoded(slot: nat, game: nat, gen: nat, surface: Option<Surface>) | Exited

  /** Where the UI thread is: between calls, holding a collected decode, waiting for the worker, or done. */
  datatype UiAt = Free | Holding(game: nat, surface: Option<Surface>) | Stopping | Destroyed

  datatype Cache = Cache(
    jobs: seq<Job>, workerIds: seq<nat>, gen: nat, running: bool, worker: WorkerAt,
    items: seq<Item>, ids: seq<nat>, tick: nat, ui: UiAt,
    textureBytes: nat, creates: nat, destroys: nat, evictions: nat,
    made: nat, freed: seq<nat>)

  function Init(): Cache {
    Cache([NO_JOB, NO_JOB, NO_JOB, NO_JOB, NO_JOB], [], 0, true, Waiting,
          [NO_ITEM, NO_ITEM, NO_ITEM, NO_ITEM, NO_ITEM], [], 0, Free, 0, 0, 0, 0, 0, [])
  }

  // ----- visible ids -----

  const PRIORITY_OFFSETS: seq<int> := [0, -1, 1, -2, 2]

  function VisibleGameId(visible: seq<nat>, index: nat, offset: int): Option<nat> {
    if visible == [] then None else Some(visible[Wrap(index + offset, |visible|)])
  }

  function Wrap(position: int, count: nat): (r: nat)
    requires count > 0
    ensures r < count
    decreases if position < 0 then -position else 0
  {
    if position < 0 then Wrap(position + count, count) else position % count
  }

  function AddId(ids: seq<nat>, g: Option<nat>): seq<nat> {
    if g.None? || g.value in ids then ids else ids + [g.value]
  }

  /** The games around the selection, nearest first, without repetition. */
  function CurrentVisibleIds(visible: seq<nat>, index: nat): seq<nat> {
    VisiblePrefix(visible, index, SLOTS)
  }

  function VisiblePrefix(visible: seq<nat>, index: nat, n: nat): seq<nat>
    requires n <= SLOTS
  {
    if n == 0 then [] else AddId(VisiblePrefix(visible, index, n - 1), VisibleGameId(visible, index, PRIORITY_OFFSETS[n - 1]))
  }

  predicate Distinct(ids: seq<nat>) {
    forall i, j :: 0 <= i < j < |ids| ==> ids[i] != ids[j]
  }

  lemma {:induction false} VisibleIdsBounded(visible: seq<nat>, index: nat, n: nat)
    requires n <= SLOTS
    ensures Distinct(VisiblePrefix(visible, index, n)) && |VisiblePrefix(visible, index, n)| <= n
  {
    if n > 0 {
      VisibleIdsBounded(visible, index, n - 1);
    }
  }

  /** visible_priority: the position of `g`, or |ids| for SIZE_MAX. */
  function Rank(ids: seq<nat>, g: nat): (r: nat)
    ensures r <= |ids|
    ensures r < |ids| <==> g in ids
    ensures r < |ids| ==> ids[r] == g
  {
    if ids == [] then 0 else if ids[0] == g then 0 else 1 + Rank(ids[1..], g)
  }

  // ----- worker steps -----

  predicate Runnable(j: Job, gen: nat) {
    j.occupied && !j.loading && !j.ready && !j.cancelled && j.gen == gen
  }

  /** The runnable job of least priority value, the first of equals. */
  function NextJob(jobs: seq<Job>, gen: nat): (r: Option<nat>)
    ensures r.None? <==> forall i :: 0 <= i < |jobs| ==> !Runnable(jobs[i], gen)
    ensures r.Some? ==> r.value < |jobs| && Runnable(jobs[r.value], gen)
    ensures r.Some? ==> forall i :: 0 <= i < |jobs| && Runnable(jobs[i], gen) ==> jobs[r.value].priority <= jobs[i].priority
    ensures r.Some? ==> forall i :: 0 <= i < r.value && Runnable(jobs[i], gen) ==> jobs[r.value].priority < jobs[i].priority
  {
    if jobs == [] then None
    else
      var n := |jobs| - 1;
      var best := NextJob(jobs[..n], gen);
      if Runnable(jobs[n], gen) && (best.None? || jobs[n].priority < jobs[best.value].priority) then Some(n) else best
  }

  function Pick(s: Cache): Cache {
    if !s.worker.Waiting? || !s.running then s
    else match NextJob(s.jobs, s.gen)
         case None => s
         case Some(k) =>
           var j := s.jobs[k];
           s.(jobs := s.jobs[k := j.(loading := true)], worker := Decoding(k, j.game, j.gen, j.path))
  }

  /** load_cover_bounded: no surface, or a new one of the given size. */
  function Decode(s: Cache, bytes: Option<nat>): Cache {
    match s.worker
    case Decoding(k, game, gen, _) =>
      (match bytes
       case None => s.(worker := Decoded(k, game, gen, None))
       case Some(b) => s.(worker := Decoded(k, game, gen, Some(Surface(s.made, b))), made := s.made + 1))
    case _ => s
  }

  function Ids(o: Option<Surface>): seq<nat> {
    if o.Some? then [o.value.id] else []
  }

  function Finish(s: Cache): Cache {
    match s.worker
    case Decoded(k, game, gen, surface) =>
      if k < |s.jobs| && s.jobs[k].occupied && s.jobs[k].game == game && s.jobs[k].gen == gen then
        if s.jobs[k].cancelled || gen != s.gen || game !in s.workerIds then
          s.(jobs := s.jobs[k := NO_JOB], freed := s.freed + Ids(surface), worker := Waiting)
        else
          s.(jobs := s.jobs[k := s.jobs[k].(surface := surface, loading := false, ready := true)], worker := Waiting)
      else s.(freed := s.freed + Ids(surface), worker := Waiting)
    case _ => s
  }

  // ----- UI steps -----

  function RefreshJob(j: Job, gen: nat, ids: seq<nat>): Job {
    if !j.occupied then j
    else if j.gen != gen then (if j.loading then j.(cancelled := true) else NO_JOB)
    else if j.game in ids then j.(priority := Rank(ids, j.game))
    else if j.loading then j
    else NO_JOB
  }

  function RefreshJobs(jobs: seq<Job>, gen: nat, ids: seq<nat>): (r: seq<Job>)
    ensures |r| == |jobs| && forall i :: 0 <= i < |jobs| ==> r[i] == RefreshJob(jobs[i], gen, ids)
  {
    if jobs == [] then [] else RefreshJobs(jobs[..|jobs| - 1], gen, ids) + [RefreshJob(jobs[|jobs| - 1], gen, ids)]
  }

  /** Surfaces freed by going from `a` to `b` slot by slot, in order. */
  function Lost(a: seq<Job>, b: seq<Job>): seq<nat>
    requires |a| == |b|
  {
    if a == [] then []
    else var n := |a| - 1;
         Lost(a[..n], b[..n]) + (if b[n].surface.None? then Ids(a[n].surface) else [])
  }

  function Refresh(s: Cache): Cache {
    if !s.ui.Free? then s
    else
      var gen := if s.workerIds != s.ids then s.gen + 1 else s.gen;
      var jobs := RefreshJobs(s.jobs, gen, s.ids);
      s.(jobs := jobs, workerIds := s.ids, gen := gen, freed := s.freed + Lost(s.jobs, jobs))
  }

  function SweepJob(j: Job, ids: seq<nat>): Job {
    if j.occupied && j.ready && j.game !in ids then NO_JOB else j
  }

  function SweepJobs(jobs: seq<Job>, ids: seq<nat>): (r: seq<Job>)
    ensures |r| == |jobs| && forall i :: 0 <= i < |jobs| ==> r[i] == SweepJob(jobs[i], ids)
  {
    if jobs == [] then [] else SweepJobs(jobs[..|jobs| - 1], ids) + [SweepJob(jobs[|jobs| - 1], ids)]
  }

  predicate Collectable(j: Job, ids: seq<nat>) {
    j.occupied && j.ready && j.game in ids
  }

  /** The ready job that comes first in `ids`. */
  function BestReady(jobs: seq<Job>, ids: seq<nat>): (r: Option<nat>)
    ensures r.None? <==> forall i :: 0 <= i < |jobs| ==> !Collectable(jobs[i], ids)
    ensures r.Some? ==> r.value < |jobs| && Collectable(jobs[r.value], ids)
    ensures r.Some? ==> forall i :: 0 <= i < |jobs| && Collectable(jobs[i], ids) ==>
              Rank(ids, jobs[r.value].game) <= Rank(ids, jobs[i].game)
  {
    if jobs == [] then None
    else
      var n := |jobs| - 1;
      var best := BestReady(jobs[..n], ids);
      if Collectable(jobs[n], ids) && (best.None? || Rank(ids, jobs[n].game) < Rank(ids, jobs[best.value].game))
      then Some(n) else best
  }

  function Collect(s: Cache): Cache {
    if !s.ui.Free? then s
    else
      var swept := SweepJobs(s.jobs, s.ids);
      var freed := s.freed + Lost(s.jobs, swept);
      match BestReady(swept, s.ids)
      case None => s.(jobs := swept, freed := freed)
      case Some(k) =>
        s.(jobs := swept[k := NO_JOB], freed := freed, ui := Holding(swept[k].game, swept[k].surface))
  }

  function FindItem(items: seq<Item>, g: nat): (r: Option<nat>)
    ensures r.None? <==> forall i :: 0 <= i < |items| ==> !(items[i].occupied && items[i].game == g)
    ensures r.Some? ==> r.value < |items| && items[r.value].occupied && items[r.value].game == g
  {
    if items == [] then None
    else match FindItem(items[..|items| - 1], g)
         case Some(k) => Some(k)
         case None => if items[|items| - 1].occupied && items[|items| - 1].game == g then Some(|items| - 1) else None
  }

  /** A free slot, else the least recently used item that is not on screen. */
  function ReplacementItem(items: seq<Item>, ids: seq<nat>): (r: Option<nat>)
    ensures r.None? <==> forall i :: 0 <= i < |items| ==> items[i].occupied && items[i].game in ids
    ensures r.Some? ==> r.value < |items| && (!items[r.value].occupied || items[r.value].game !in ids)
    ensures r.Some? && items[r.value].occupied ==>
              forall i :: 0 <= i < |items| ==> items[i].occupied && (items[i].game in ids || items[r.value].lastUsed <= items[i].lastUsed)
  {
    if items == [] then None
    else
      var n := |items| - 1;
      var best := ReplacementItem(items[..n], ids);
      if best.Some? && !items[best.value].occupied then best
      else if !items[n].occupied then Some(n)
      else if items[n].game in ids then best
      else if best.None? || items[n].lastUsed < items[best.value].lastUsed then Some(n)
      else best
  }

  function Textures(surface: Option<Surface>): nat { if surface.Some? then 1 else 0 }
  function Bytes(surface: Option<Surface>): nat { if surface.Some? then surface.value.bytes else 0 }

  function Store(s: Cache, textureOk: bool): Cache {
    if !s.ui.Holding? then s
    else
      var g, surface := s.ui.game, s.ui.surface;
      var done := s.(ui := Free, freed := s.freed + Ids(surface));
      if g !in s.ids || (surface.Some? && !textureOk) then done else Upload(done, g, surface)
  }

  /** The texture exists; find it a slot that is not on screen. */
  function Upload(s: Cache, g: nat, surface: Option<Surface>): Cache {
    var made := s.(creates := s.creates + Textures(surface));
    var found := FindItem(s.items, g);
    var slot := if found.Some? then found else ReplacementItem(s.items, s.ids);
    if slot.None? then Discard(made, surface) else Place(made, slot.value, g, surface)
  }

  function Discard(s: Cache, surface: Option<Surface>): Cache {
    s.(destroys := s.destroys + Textures(surface))
  }

  function Retained(s: Cache, k: nat): nat
    requires k < |s.items|
  {
    if s.textureBytes >= s.items[k].bytes then s.textureBytes - s.items[k].bytes else 0
  }

  function Place(s: Cache, k: nat, g: nat, surface: Option<Surface>): Cache
    requires k < |s.items|
  {
    if s.items[k].occupied && s.items[k].game in s.ids then Discard(s, surface).(evictions := s.evictions + 1)
    else if Retained(s, k) + Bytes(surface) > CACHE_MAX_BYTES then Discard(s, surface)
    else s.(items := s.items[k := Item(true, g, surface.Some?, Bytes(surface), s.tick + 1)],
            tick := s.tick + 1,
            destroys := s.destroys + (if s.items[k].texture then 1 else 0),
            textureBytes := (if s.items[k].texture then Retained(s, k) else s.textureBytes) + Bytes(surface))
  }

  predicate Queued(j: Job, gen: nat, g: nat) {
    j.occupied && !j.cancelled && j.gen == gen && j.game == g
  }

  function FindJob(jobs: seq<Job>, gen: nat, g: nat): (r: Option<nat>)
    ensures r.None? <==> forall i :: 0 <= i < |jobs| ==> !Queued(jobs[i], gen, g)
    ensures r.Some? ==> r.value < |jobs| && Queued(jobs[r.value], gen, g)
  {
    if jobs == [] then None
    else match FindJob(jobs[..|jobs| - 1], gen, g)
         case Some(k) => Some(k)
         case None => if Queued(jobs[|jobs| - 1], gen, g) then Some(|jobs| - 1) else None
  }

  function FreeSlot(jobs: seq<Job>): (r: Option<nat>)
    ensures r.None? <==> forall i :: 0 <= i < |jobs| ==> jobs[i].occupied
    ensures r.Some? ==> r.value < |jobs| && !jobs[r.value].occupied
  {
    if jobs == [] then None
    else match FreeSlot(jobs[..|jobs| - 1])
         case Some(k) => Some(k)
         case None => if jobs[|jobs| - 1].occupied then None else Some(|jobs| - 1)
  }

  /** request_game for the `priority`-th visible game; `path` was copied by the UI thread. */
  function Request(s: Cache, priority: nat, path: string): Cache {
    if !s.ui.Free? || priority >= |s.ids| || FindItem(s.items, s.ids[priority]).Some? then s
    else
      var g := s.ids[priority];
      match FindJob(s.jobs, s.gen, g)
      case Some(k) => s.(jobs := s.jobs[k := s.jobs[k].(priority := priority)])
      case None =>
        match FreeSlot(s.jobs)
        case None => s
        case Some(k) =>
          s.(jobs := s.jobs[k := s.jobs[k].(occupied := true, game := g, priority := priority, gen := s.gen, path := path)])
  }

  /** A cache hit refreshes the item's last use. */
  function Touch(s: Cache, g: nat): Cache {
    match FindItem(s.items, g)
    case Some(k) =>
      if s.ui.Free? then s.(items := s.items[k := s.items[k].(lastUsed := s.tick + 1)], tick := s.tick + 1) else s
    case None => s
  }

  function LiveTextures(items: seq<Item>): nat {
    if items == [] then 0 else LiveTextures(items[..|items| - 1]) + (if items[|items| - 1].texture then 1 else 0)
  }

  /** destroy_item_texture item by item: each takes its bytes off the total. */
  function Drained(total: nat, items: seq<Item>): nat {
    if items == [] then total
    else
      var left := Drained(total, items[..|items| - 1]);
      var last := items[|items| - 1];
      if !last.texture then left else if left >= last.bytes then left - last.bytes else 0
  }

  /** The last part of cover_cache_destroy, after the worker has been joined. */
  function Destroy(s: Cache): Cache {
    if !(s.ui.Stopping? && s.worker.Exited?) then s
    else
      s.(jobs := [NO_JOB, NO_JOB, NO_JOB, NO_JOB, NO_JOB], items := [NO_ITEM, NO_ITEM, NO_ITEM, NO_ITEM, NO_ITEM],
         freed := s.freed + Held(s.jobs), destroys := s.destroys + LiveTextures(s.items), textureBytes := Drained(s.textureBytes, s.items),
         tick := 0, ui := Destroyed)
  }

  // ----- all interleavings -----

  datatype Step =
    | Navigate(visible: seq<nat>, index: nat) | RefreshStep | CollectStep | StoreStep(textureOk: bool)
    | RequestStep(priority: nat, path: string) | TouchStep(game: nat) | StopStep | DestroyStep
    | PickStep | DecodeStep(bytes: Option<nat>) | FinishStep | ExitStep

  predicate UiStep(t: Step) { !(t.PickStep? || t.DecodeStep? || t.FinishStep? || t.ExitStep?) }

  function Next(s: Cache, t: Step): Cache {
    match t
    case Navigate(visible, index) => if s.ui.Free? then s.(ids := CurrentVisibleIds(visible, index)) else s
    case RefreshStep => Refresh(s)
    case CollectStep => Collect(s)
    case StoreStep(ok) => Store(s, ok)
    case RequestStep(priority, path) => Request(s, priority, path)
    case TouchStep(g) => Touch(s, g)
    case StopStep => if s.ui.Free? then s.(running := false, ui := Stopping) else s
    case DestroyStep => Destroy(s)
    case PickStep => Pick(s)
    case DecodeStep(b) => Decode(s, b)
    case FinishStep => Finish(s)
    case ExitStep => if s.worker.Waiting? && !s.running then s.(worker := Exited) else s
  }

  function Run(s: Cache, steps: seq<Step>): Cache
    decreases |steps|
  {
    if steps == [] then s else Run(Next(s, steps[0]), steps[1..])
  }

  function Held(jobs: seq<Job>): seq<nat> {
    if jobs == [] then [] else Held(jobs[..|jobs| - 1]) + Ids(jobs[|jobs| - 1].surface)
  }
}
