// What every interleaving of the cover cache keeps.

module CoverCacheSafety {
  import opened Options
  import opened CoverCache

  // ----- the invariant -----

  /** A job wanted by the current generation. */
  predicate Live(j: Job) { j.occupied && !j.cancelled }

  /** A slot is empty, of the current generation, or a cancelled decode of an older one. */
  predicate JobOk(j: Job, gen: nat) {
    && (!j.occupied ==> j == NO_JOB)
    && (j.occupied ==> if j.cancelled then j.loading && j.gen < gen else j.gen == gen)
    && (j.ready ==> !j.loading)
    && (j.surface.Some? ==> j.ready)
  }

  predicate JobsOk(jobs: seq<Job>, gen: nat) {
    && |jobs| == SLOTS
    && (forall i :: 0 <= i < |jobs| ==> JobOk(jobs[i], gen))
    && (forall i, j :: 0 <= i < j < |jobs| && Live(jobs[i]) && Live(jobs[j]) ==> jobs[i].game != jobs[j].game)
  }

  /** The slot the worker is decoding is exactly the loading one. */
  predicate WorkerOk(jobs: seq<Job>, w: WorkerAt) {
    if w.Decoding? || w.Decoded? then
      && w.slot < |jobs|
      && jobs[w.slot].occupied && jobs[w.slot].game == w.game && jobs[w.slot].gen == w.gen
      && (w.Decoding? ==> jobs[w.slot].path == w.path)
      && (forall i :: 0 <= i < |jobs| ==> (jobs[i].loading <==> i == w.slot))
    else forall i :: 0 <= i < |jobs| ==> !jobs[i].loading
  }

  predicate HasItem(items: seq<Item>, g: nat) {
    exists i :: 0 <= i < |items| && items[i].occupied && items[i].game == g
  }

  predicate HasLiveJob(jobs: seq<Job>, g: nat) {
    exists i :: 0 <= i < |jobs| && Live(jobs[i]) && jobs[i].game == g
  }

  predicate ItemsOk(items: seq<Item>) {
    && |items| == SLOTS
    && (forall i :: 0 <= i < |items| ==> (!items[i].occupied ==> items[i] == NO_ITEM) && (!items[i].texture ==> items[i].bytes == 0))
    && (forall i, j :: 0 <= i < j < |items| && items[i].occupied && items[j].occupied ==> items[i].game != items[j].game)
  }

  /** A game is cached, or on its way, or neither; never two of these. */
  predicate OncePerGame(s: Cache) {
    && (forall i :: 0 <= i < |s.jobs| && Live(s.jobs[i]) ==> !HasItem(s.items, s.jobs[i].game))
    && (s.ui.Holding? ==> !HasItem(s.items, s.ui.game) && !HasLiveJob(s.jobs, s.ui.game))
  }

  function SumBytes(items: seq<Item>): nat {
    if items == [] then 0 else SumBytes(items[..|items| - 1]) + items[|items| - 1].bytes
  }

  predicate TexturesOk(s: Cache) {
    && s.textureBytes == SumBytes(s.items) && s.textureBytes <= CACHE_MAX_BYTES
    && s.creates == s.destroys + LiveTextures(s.items)
  }

  function Count(log: seq<nat>, id: nat): nat {
    if log == [] then 0 else Count(log[..|log| - 1], id) + (if log[|log| - 1] == id then 1 else 0)
  }

  lemma {:induction false} CountAppend(a: seq<nat>, b: seq<nat>, id: nat)
    ensures Count(a + b, id) == Count(a, id) + Count(b, id)
  {
    if b == [] {
      assert a + b == a;
    } else {
      assert (a + b)[..|a + b| - 1] == a + b[..|b| - 1];
      CountAppend(a, b[..|b| - 1], id);
    }
  }

  function Of(o: Option<Surface>, id: nat): nat { if o.Some? && o.value.id == id then 1 else 0 }

  lemma CountIds(log: seq<nat>, o: Option<Surface>, id: nat)
    ensures Count(log + Ids(o), id) == Count(log, id) + Of(o, id)
  {
    CountAppend(log, Ids(o), id);
    if o.Some? {
      assert Ids(o)[..0] == [];
    }
  }

  /** How many slots hold surface `id`. */
  function HeldCount(jobs: seq<Job>, id: nat): nat {
    if jobs == [] then 0 else HeldCount(jobs[..|jobs| - 1], id) + Of(jobs[|jobs| - 1].surface, id)
  }

  /** How often surface `id` is in somebody's hands or has been freed. */
  function Uses(s: Cache, id: nat): nat {
    HeldCount(s.jobs, id) + (if s.worker.Decoded? then Of(s.worker.surface, id) else 0)
                          + (if s.ui.Holding? then Of(s.ui.surface, id) else 0) + Count(s.freed, id)
  }

  /** Each surface ever decoded is freed once or held once. */
  ghost predicate SurfacesOk(s: Cache) {
    forall id: nat :: Uses(s, id) == if id < s.made then 1 else 0
  }

  predicate SharedOk(s: Cache) {
    && JobsOk(s.jobs, s.gen) && WorkerOk(s.jobs, s.worker)
    && Distinct(s.ids) && |s.ids| <= SLOTS
    && (s.worker.Exited? ==> !s.running)
    && (s.ui.Stopping? || s.ui.Destroyed? ==> !s.running)
    && (s.ui.Destroyed? ==> s.worker.Exited? && s.jobs == Init().jobs && s.items == Init().items)
  }

  predicate GamesOk(s: Cache) {
    ItemsOk(s.items) && OncePerGame(s) && s.evictions == 0
  }

  ghost predicate Inv(s: Cache) {
    SharedOk(s) && GamesOk(s) && TexturesOk(s) && SurfacesOk(s)
  }

  // ----- sums over slots -----

  lemma {:induction false} HeldUpdate(jobs: seq<Job>, k: nat, j: Job, id: nat)
    requires k < |jobs|
    ensures HeldCount(jobs[k := j], id) + Of(jobs[k].surface, id) == HeldCount(jobs, id) + Of(j.surface, id)
  {
    var n := |jobs| - 1;
    if k < n {
      HeldUpdate(jobs[..n], k, j, id);
      assert jobs[k := j][..n] == jobs[..n][k := j];
    } else {
      assert jobs[k := j][..n] == jobs[..n];
    }
  }

  lemma {:induction false} HeldIsCounted(jobs: seq<Job>, id: nat)
    ensures Count(Held(jobs), id) == HeldCount(jobs, id)
  {
    if jobs != [] {
      HeldIsCounted(jobs[..|jobs| - 1], id);
      CountIds(Held(jobs[..|jobs| - 1]), jobs[|jobs| - 1].surface, id);
    }
  }

  /** Going from `a` to `b`, each slot keeps its surface or loses it. */
  lemma {:induction false} HeldLost(a: seq<Job>, b: seq<Job>, id: nat)
    requires |a| == |b|
    requires forall i :: 0 <= i < |a| ==> b[i].surface == a[i].surface || b[i].surface.None?
    ensures HeldCount(a, id) == HeldCount(b, id) + Count(Lost(a, b), id)
  {
    if a != [] {
      var n := |a| - 1;
      HeldLost(a[..n], b[..n], id);
      CountIds(Lost(a[..n], b[..n]), a[n].surface, id);
      assert Lost(a[..n], b[..n]) + [] == Lost(a[..n], b[..n]);
    }
  }

  lemma {:induction false} ItemUpdate(items: seq<Item>, k: nat, x: Item)
    requires k < |items|
    ensures SumBytes(items[k := x]) + items[k].bytes == SumBytes(items) + x.bytes
    ensures LiveTextures(items[k := x]) + (if items[k].texture then 1 else 0) == LiveTextures(items) + (if x.texture then 1 else 0)
  {
    var n := |items| - 1;
    if k < n {
      ItemUpdate(items[..n], k, x);
      assert items[k := x][..n] == items[..n][k := x];
    } else {
      assert items[k := x][..n] == items[..n];
    }
  }

  // ----- slots stay well-formed -----

  lemma SlotUpdated(jobs: seq<Job>, gen: nat, k: nat, j: Job)
    requires JobsOk(jobs, gen) && k < |jobs| && JobOk(j, gen)
    requires Live(j) ==> forall i :: 0 <= i < |jobs| && i != k && Live(jobs[i]) ==> jobs[i].game != j.game
    ensures JobsOk(jobs[k := j], gen)
  {
  }

  lemma PickShared(s: Cache)
    requires SharedOk(s)
    ensures SharedOk(Pick(s))
  {
    var r := NextJob(s.jobs, s.gen);
    if s.worker.Waiting? && s.running && r.Some? {
      SlotUpdated(s.jobs, s.gen, r.value, s.jobs[r.value].(loading := true));
    }
  }

  /** The slot is still the worker's when it comes back, so its last branch is dead. */
  lemma FinishShared(s: Cache)
    requires SharedOk(s)
    ensures SharedOk(Finish(s))
  {
    if s.worker.Decoded? {
      var k := s.worker.slot;
      SlotUpdated(s.jobs, s.gen, k, NO_JOB);
      if !s.jobs[k].cancelled {
        SlotUpdated(s.jobs, s.gen, k, s.jobs[k].(surface := s.worker.surface, loading := false, ready := true));
      }
    }
  }

  lemma RefreshedOk(jobs: seq<Job>, gen: nat, gen': nat, ids: seq<nat>, w: WorkerAt)
    requires JobsOk(jobs, gen) && WorkerOk(jobs, w) && gen <= gen'
    ensures JobsOk(RefreshJobs(jobs, gen', ids), gen') && WorkerOk(RefreshJobs(jobs, gen', ids), w)
  {
    var r := RefreshJobs(jobs, gen', ids);
    assert forall i :: 0 <= i < SLOTS ==> JobOk(r[i], gen') && r[i].loading == jobs[i].loading;
    assert forall i :: 0 <= i < SLOTS && Live(r[i]) ==> Live(jobs[i]) && r[i].game == jobs[i].game;
  }

  lemma RefreshShared(s: Cache)
    requires SharedOk(s)
    ensures SharedOk(Refresh(s))
  {
    if s.ui.Free? {
      RefreshedOk(s.jobs, s.gen, Refresh(s).gen, s.ids, s.worker);
    }
  }

  lemma SweptOk(jobs: seq<Job>, gen: nat, ids: seq<nat>, w: WorkerAt)
    requires JobsOk(jobs, gen) && WorkerOk(jobs, w)
    ensures JobsOk(SweepJobs(jobs, ids), gen) && WorkerOk(SweepJobs(jobs, ids), w)
  {
    var r := SweepJobs(jobs, ids);
    assert forall i :: 0 <= i < SLOTS ==> JobOk(r[i], gen) && (Live(r[i]) ==> r[i] == jobs[i]);
    assert forall i :: 0 <= i < SLOTS && jobs[i].loading ==> r[i] == jobs[i];
  }

  lemma CollectShared(s: Cache)
    requires SharedOk(s)
    ensures SharedOk(Collect(s))
  {
    if s.ui.Free? {
      SweptOk(s.jobs, s.gen, s.ids, s.worker);
      var swept := SweepJobs(s.jobs, s.ids);
      var best := BestReady(swept, s.ids);
      if best.Some? {
        SlotUpdated(swept, s.gen, best.value, NO_JOB);
      }
    }
  }

  lemma RequestShared(s: Cache, priority: nat, path: string)
    requires SharedOk(s)
    ensures SharedOk(Request(s, priority, path))
  {
    if s.ui.Free? && priority < |s.ids| {
      var g := s.ids[priority];
      var found, free := FindJob(s.jobs, s.gen, g), FreeSlot(s.jobs);
      if found.Some? {
        SlotUpdated(s.jobs, s.gen, found.value, s.jobs[found.value].(priority := priority));
      } else if free.Some? {
        var k := free.value;
        var j := s.jobs[k].(occupied := true, game := g, priority := priority, gen := s.gen, path := path);
        assert forall i :: 0 <= i < |s.jobs| ==> !Queued(s.jobs[i], s.gen, g);
        SlotUpdated(s.jobs, s.gen, k, j);
      }
    }
  }

  lemma SharedKept(s: Cache, t: Step)
    requires SharedOk(s)
    ensures SharedOk(Next(s, t))
  {
    match t {
      case Navigate(visible, index) => VisibleIdsBounded(visible, index, SLOTS);
      case RefreshStep => RefreshShared(s);
      case CollectStep => CollectShared(s);
      case RequestStep(priority, path) => RequestShared(s, priority, path);
      case PickStep => PickShared(s);
      case FinishStep => FinishShared(s);
      case _ => SlotsAlone(s, t);
    }
  }

  /** Whatever a store decides, the slots stay and the collected surface is freed once. */
  lemma StoreLeavesSlots(s: Cache, textureOk: bool)
    ensures var r := Store(s, textureOk);
            && r.jobs == s.jobs && r.gen == s.gen && r.worker == s.worker && r.ids == s.ids && r.running == s.running && r.made == s.made
            && (if s.ui.Holding? then r.ui == Free && r.freed == s.freed + Ids(s.ui.surface) else r == s)
  {
  }

  lemma DestroyShared(s: Cache)
    requires SharedOk(s)
    ensures SharedOk(Destroy(s))
  {
  }

  lemma SlotsAlone(s: Cache, t: Step)
    requires SharedOk(s)
    requires t.StoreStep? || t.TouchStep? || t.StopStep? || t.DestroyStep? || t.DecodeStep? || t.ExitStep?
    ensures SharedOk(Next(s, t))
  {
    match t {
      case StoreStep(ok) => StoreLeavesSlots(s, ok);
      case DestroyStep => DestroyShared(s);
      case TouchStep(g) => assert Touch(s, g).jobs == s.jobs;
      case _ =>
    }
  }

  // ----- a game is cached or on its way, never both -----

  lemma RefreshGames(s: Cache)
    requires SharedOk(s) && GamesOk(s)
    ensures GamesOk(Refresh(s))
  {
    if s.ui.Free? {
      var r := Refresh(s);
      assert forall i :: 0 <= i < SLOTS ==> r.jobs[i] == RefreshJob(s.jobs[i], r.gen, s.ids);
      assert forall i :: 0 <= i < SLOTS && Live(r.jobs[i]) ==> Live(s.jobs[i]) && r.jobs[i].game == s.jobs[i].game;
    }
  }

  lemma CollectGames(s: Cache)
    requires SharedOk(s) && GamesOk(s)
    ensures GamesOk(Collect(s))
  {
    if s.ui.Free? {
      var swept := SweepJobs(s.jobs, s.ids);
      assert forall i :: 0 <= i < SLOTS && Live(swept[i]) ==> swept[i] == s.jobs[i];
      var best := BestReady(swept, s.ids);
      if best.Some? {
        assert Live(s.jobs[best.value]);
      }
    }
  }

  lemma RequestGames(s: Cache, priority: nat, path: string)
    requires SharedOk(s) && GamesOk(s)
    ensures GamesOk(Request(s, priority, path))
  {
    if s.ui.Free? && priority < |s.ids| {
      var r := Request(s, priority, path);
      assert FindItem(s.items, s.ids[priority]).None? ==> !HasItem(s.items, s.ids[priority]);
      assert forall i :: 0 <= i < SLOTS && Live(r.jobs[i]) && !Live(s.jobs[i]) ==> !HasItem(s.items, r.jobs[i].game);
    }
  }

  // Five visible items would be five distinct visible games other than `g`.

  function Games(items: seq<Item>): (r: seq<nat>)
    ensures |r| == |items| && forall i :: 0 <= i < |items| ==> r[i] == items[i].game
  {
    if items == [] then [] else Games(items[..|items| - 1]) + [items[|items| - 1].game]
  }

  function SetOf(ids: seq<nat>): set<nat> { set x | x in ids }

  lemma {:induction false} DistinctCount(ids: seq<nat>)
    requires Distinct(ids)
    ensures |SetOf(ids)| == |ids|
  {
    if ids != [] {
      var n := |ids| - 1;
      DistinctCount(ids[..n]);
      assert SetOf(ids) == SetOf(ids[..n]) + {ids[n]};
      assert ids[n] !in SetOf(ids[..n]);
    }
  }

  lemma SubsetCount(a: set<nat>, b: set<nat>)
    requires a <= b
    ensures |a| <= |b|
  {
    assert b == a + (b - a);
  }

  /** replacement_item finds a free or off-screen slot for a visible game without an item. */
  lemma ReplacementExists(items: seq<Item>, ids: seq<nat>, g: nat)
    requires ItemsOk(items) && Distinct(ids) && |ids| <= SLOTS
    requires g in ids && !HasItem(items, g)
    ensures ReplacementItem(items, ids).Some?
  {
    if ReplacementItem(items, ids).None? {
      var games := Games(items);
      assert Distinct(games);
      DistinctCount(games);
      DistinctCount(ids);
      assert forall i :: 0 <= i < |games| ==> items[i].occupied && games[i] in ids && games[i] != g;
      assert g !in SetOf(games) && SetOf(games) + {g} <= SetOf(ids);
      SubsetCount(SetOf(games) + {g}, SetOf(ids));
      assert false;
    }
  }

  /** Only the replaced slot changes, and it is not on screen. */
  lemma PlaceItems(s: Cache, k: nat, g: nat, surface: Option<Surface>)
    requires ItemsOk(s.items) && k < SLOTS && !HasItem(s.items, g)
    requires !s.items[k].occupied || s.items[k].game !in s.ids
    ensures var r := Place(s, k, g, surface);
            && r.evictions == s.evictions && ItemsOk(r.items)
            && (forall h: nat :: h != g && HasItem(r.items, h) ==> HasItem(s.items, h))
  {
    var r := Place(s, k, g, surface);
    forall h: nat | h != g && HasItem(r.items, h) ensures HasItem(s.items, h) {
      var i :| 0 <= i < |r.items| && r.items[i].occupied && r.items[i].game == h;
      assert s.items[i].occupied && s.items[i].game == h;
    }
  }

  /** A visible game without an item always gets a slot: the other two ways out are dead. */
  lemma UploadPlaces(s: Cache, g: nat, surface: Option<Surface>)
    requires ItemsOk(s.items) && Distinct(s.ids) && |s.ids| <= SLOTS
    requires g in s.ids && !HasItem(s.items, g)
    ensures var slot := ReplacementItem(s.items, s.ids);
            && slot.Some? && (!s.items[slot.value].occupied || s.items[slot.value].game !in s.ids)
            && Upload(s, g, surface) == Place(s.(creates := s.creates + Textures(surface)), slot.value, g, surface)
  {
    assert FindItem(s.items, g).None?;
    ReplacementExists(s.items, s.ids, g);
  }

  lemma StoreItems(s: Cache, textureOk: bool)
    requires ItemsOk(s.items) && Distinct(s.ids) && |s.ids| <= SLOTS
    requires s.ui.Holding? && !HasItem(s.items, s.ui.game)
    ensures var r := Store(s, textureOk);
            && r.evictions == s.evictions && ItemsOk(r.items)
            && (forall h: nat :: h != s.ui.game && HasItem(r.items, h) ==> HasItem(s.items, h))
  {
    var g, surface := s.ui.game, s.ui.surface;
    if g in s.ids {
      var done := s.(ui := Free, freed := s.freed + Ids(surface));
      UploadPlaces(done, g, surface);
      PlaceItems(done.(creates := done.creates + Textures(surface)), ReplacementItem(s.items, s.ids).value, g, surface);
    }
  }

  lemma StoreGames(s: Cache, textureOk: bool)
    requires SharedOk(s) && GamesOk(s)
    ensures GamesOk(Store(s, textureOk))
  {
    if s.ui.Holding? {
      StoreItems(s, textureOk);
      StoreLeavesSlots(s, textureOk);
    }
  }

  lemma TouchGames(s: Cache, g: nat)
    requires GamesOk(s)
    ensures GamesOk(Touch(s, g))
  {
    var r := Touch(s, g);
    assert forall i :: 0 <= i < SLOTS ==> r.items[i].occupied == s.items[i].occupied && r.items[i].game == s.items[i].game;
  }

  lemma WorkerGames(s: Cache, t: Step)
    requires SharedOk(s) && GamesOk(s)
    requires !UiStep(t)
    ensures GamesOk(Next(s, t))
  {
    var r := Next(s, t);
    assert forall i :: 0 <= i < SLOTS && Live(r.jobs[i]) ==> Live(s.jobs[i]) && r.jobs[i].game == s.jobs[i].game;
  }

  lemma GamesKept(s: Cache, t: Step)
    requires SharedOk(s) && GamesOk(s)
    ensures GamesOk(Next(s, t))
  {
    match t {
      case RefreshStep => RefreshGames(s);
      case CollectStep => CollectGames(s);
      case StoreStep(ok) => StoreGames(s, ok);
      case RequestStep(priority, path) => RequestGames(s, priority, path);
      case TouchStep(g) => TouchGames(s, g);
      case Navigate(_, _) =>
      case StopStep =>
      case DestroyStep =>
      case _ => WorkerGames(s, t);
    }
  }

  // ----- textures -----

  lemma PlaceTextures(s: Cache, k: nat, g: nat, surface: Option<Surface>)
    requires ItemsOk(s.items) && k < SLOTS
    requires s.textureBytes == SumBytes(s.items) <= CACHE_MAX_BYTES
    requires s.creates == s.destroys + LiveTextures(s.items) + Textures(surface)
    ensures TexturesOk(Place(s, k, g, surface))
  {
    ItemUpdate(s.items, k, Item(true, g, surface.Some?, Bytes(surface), s.tick + 1));
    ItemUpdate(s.items, k, NO_ITEM);
  }

  lemma StoreTextures(s: Cache, textureOk: bool)
    requires SharedOk(s) && GamesOk(s) && TexturesOk(s)
    ensures TexturesOk(Store(s, textureOk))
  {
    if s.ui.Holding? && s.ui.game in s.ids {
      var g, surface := s.ui.game, s.ui.surface;
      var done := s.(ui := Free, freed := s.freed + Ids(surface));
      UploadPlaces(done, g, surface);
      PlaceTextures(done.(creates := done.creates + Textures(surface)), ReplacementItem(s.items, s.ids).value, g, surface);
    }
  }

  lemma TouchTextures(s: Cache, g: nat)
    requires TexturesOk(s)
    ensures TexturesOk(Touch(s, g))
  {
    var r := FindItem(s.items, g);
    if r.Some? {
      ItemUpdate(s.items, r.value, s.items[r.value].(lastUsed := s.tick + 1));
    }
  }

  lemma {:induction false} NoTextures(items: seq<Item>)
    requires forall i :: 0 <= i < |items| ==> items[i] == NO_ITEM
    ensures SumBytes(items) == 0 && LiveTextures(items) == 0
  {
    if items != [] {
      NoTextures(items[..|items| - 1]);
    }
  }

  lemma {:induction false} DrainedExactly(total: nat, items: seq<Item>)
    requires total >= SumBytes(items) && forall i :: 0 <= i < |items| ==> !items[i].texture ==> items[i].bytes == 0
    ensures Drained(total, items) == total - SumBytes(items)
  {
    if items != [] {
      DrainedExactly(total, items[..|items| - 1]);
    }
  }

  lemma TexturesKept(s: Cache, t: Step)
    requires SharedOk(s) && GamesOk(s) && TexturesOk(s)
    ensures TexturesOk(Next(s, t))
  {
    match t {
      case StoreStep(ok) => StoreTextures(s, ok);
      case TouchStep(g) => TouchTextures(s, g);
      case DestroyStep => NoTextures(Init().items); DrainedExactly(s.textureBytes, s.items);
      case _ => assert Next(s, t).items == s.items;
    }
  }

  lemma {:induction false} SumBounded(items: seq<Item>, bound: nat)
    requires forall i :: 0 <= i < |items| ==> items[i].bytes <= bound
    ensures SumBytes(items) <= |items| * bound
  {
    if items != [] {
      SumBounded(items[..|items| - 1], bound);
    }
  }

  lemma BudgetNeverBinds(items: seq<Item>, k: nat, bytes: nat)
    requires |items| == SLOTS && k < SLOTS && bytes <= THUMBNAIL_MAX_BYTES
    requires forall i :: 0 <= i < |items| ==> items[i].bytes <= THUMBNAIL_MAX_BYTES
    ensures SumBytes(items) - items[k].bytes + bytes <= CACHE_MAX_BYTES
  {
    ItemUpdate(items, k, NO_ITEM.(bytes := bytes));
    SumBounded(items[k := NO_ITEM.(bytes := bytes)], THUMBNAIL_MAX_BYTES);
  }

  // ----- surfaces -----

  lemma RefreshSurfaces(s: Cache, id: nat)
    ensures Uses(Refresh(s), id) == Uses(s, id)
  {
    var jobs := Refresh(s).jobs;
    if s.ui.Free? {
      HeldLost(s.jobs, jobs, id);
      CountAppend(s.freed, Lost(s.jobs, jobs), id);
    }
  }

  /** Sweeping frees exactly what it takes out of the slots. */
  lemma SweptSurfaces(jobs: seq<Job>, swept: seq<Job>, freed: seq<nat>, id: nat)
    requires |jobs| == |swept|
    requires forall i :: 0 <= i < |jobs| ==> swept[i].surface == jobs[i].surface || swept[i].surface.None?
    ensures HeldCount(swept, id) + Count(freed + Lost(jobs, swept), id) == HeldCount(jobs, id) + Count(freed, id)
  {
    HeldLost(jobs, swept, id);
    CountAppend(freed, Lost(jobs, swept), id);
  }

  lemma CollectSurfaces(s: Cache, id: nat)
    ensures Uses(Collect(s), id) == Uses(s, id)
  {
    if s.ui.Free? {
      var swept := SweepJobs(s.jobs, s.ids);
      SweptSurfaces(s.jobs, swept, s.freed, id);
      var best := BestReady(swept, s.ids);
      if best.Some? {
        HeldUpdate(swept, best.value, NO_JOB, id);
      }
    }
  }

  lemma StoreSurfaces(s: Cache, textureOk: bool, id: nat)
    ensures Uses(Store(s, textureOk), id) == Uses(s, id)
  {
    StoreLeavesSlots(s, textureOk);
    if s.ui.Holding? {
      CountIds(s.freed, s.ui.surface, id);
    }
  }

  lemma RequestSurfaces(s: Cache, priority: nat, path: string, id: nat)
    ensures Uses(Request(s, priority, path), id) == Uses(s, id)
  {
    if s.ui.Free? && priority < |s.ids| {
      var g := s.ids[priority];
      var found, free := FindJob(s.jobs, s.gen, g), FreeSlot(s.jobs);
      if found.Some? {
        HeldUpdate(s.jobs, found.value, s.jobs[found.value].(priority := priority), id);
      } else if free.Some? {
        HeldUpdate(s.jobs, free.value, s.jobs[free.value].(occupied := true, game := g, priority := priority, gen := s.gen, path := path), id);
      }
    }
  }

  lemma PickSurfaces(s: Cache, id: nat)
    ensures Uses(Pick(s), id) == Uses(s, id)
  {
    var r := NextJob(s.jobs, s.gen);
    if r.Some? {
      HeldUpdate(s.jobs, r.value, s.jobs[r.value].(loading := true), id);
    }
  }

  predicate WorkerSlotEmpty(s: Cache) {
    s.worker.Decoded? ==> s.worker.slot < |s.jobs| && s.jobs[s.worker.slot].surface.None?
  }

  /** What became of the decoded surface: freed, or left in the worker's slot. */
  predicate Delivered(s: Cache, t: Cache)
    requires WorkerSlotEmpty(s) && s.worker.Decoded?
  {
    var k, surface := s.worker.slot, s.worker.surface;
    && t.ui == s.ui && !t.worker.Decoded? && |t.jobs| == |s.jobs| && t.jobs == s.jobs[k := t.jobs[k]]
    && (|| (t.jobs[k].surface.None? && t.freed == s.freed + Ids(surface))
        || (t.jobs[k].surface == surface && t.freed == s.freed))
  }

  lemma FinishDelivers(s: Cache)
    requires WorkerSlotEmpty(s) && s.worker.Decoded?
    ensures Delivered(s, Finish(s))
  {
    var k := s.worker.slot;
    assert s.jobs == s.jobs[k := s.jobs[k]];
  }

  lemma DeliveredSurfaces(s: Cache, t: Cache, id: nat)
    requires WorkerSlotEmpty(s) && s.worker.Decoded? && Delivered(s, t)
    ensures Uses(t, id) == Uses(s, id)
  {
    CountIds(s.freed, s.worker.surface, id);
    HeldUpdate(s.jobs, s.worker.slot, t.jobs[s.worker.slot], id);
  }

  lemma FinishSurfaces(s: Cache, id: nat)
    requires WorkerSlotEmpty(s)
    ensures Uses(Finish(s), id) == Uses(s, id)
  {
    if s.worker.Decoded? {
      FinishDelivers(s);
      DeliveredSurfaces(s, Finish(s), id);
    }
  }

  lemma {:induction false} NoSurfaces(jobs: seq<Job>, id: nat)
    requires forall i :: 0 <= i < |jobs| ==> jobs[i].surface.None?
    ensures HeldCount(jobs, id) == 0
  {
    if jobs != [] {
      NoSurfaces(jobs[..|jobs| - 1], id);
    }
  }

  lemma DestroySurfaces(s: Cache, id: nat)
    ensures Uses(Destroy(s), id) == Uses(s, id)
  {
    NoSurfaces(Init().jobs, id);
    HeldIsCounted(s.jobs, id);
    CountAppend(s.freed, Held(s.jobs), id);
  }

  lemma DecodeSurfaces(s: Cache, bytes: Option<nat>, id: nat)
    ensures Uses(Decode(s, bytes), id) == Uses(s, id) + if s.worker.Decoding? && bytes.Some? && id == s.made then 1 else 0
  {
  }

  lemma SurfaceKept(s: Cache, t: Step, id: nat)
    requires WorkerSlotEmpty(s)
    requires Uses(s, id) == if id < s.made then 1 else 0
    ensures Uses(Next(s, t), id) == if id < Next(s, t).made then 1 else 0
  {
    match t {
      case RefreshStep => RefreshSurfaces(s, id);
      case CollectStep => CollectSurfaces(s, id);
      case StoreStep(ok) => StoreSurfaces(s, ok, id); StoreLeavesSlots(s, ok);
      case RequestStep(priority, path) => RequestSurfaces(s, priority, path, id);
      case PickStep => PickSurfaces(s, id);
      case DecodeStep(bytes) => DecodeSurfaces(s, bytes, id);
      case FinishStep => FinishSurfaces(s, id);
      case DestroyStep => DestroySurfaces(s, id);
      case _ =>
    }
  }

  // ----- main results -----

  lemma InitOk(s: Cache)
    requires s == Init()
    ensures Inv(s)
  {
    NoTextures(s.items);
    forall id: nat ensures Uses(s, id) == 0 {
      NoSurfaces(s.jobs, id);
    }
  }

  lemma StepKeeps(s: Cache, t: Step)
    requires Inv(s)
    ensures Inv(Next(s, t))
  {
    SharedKept(s, t);
    GamesKept(s, t);
    TexturesKept(s, t);
    forall id: nat ensures Uses(Next(s, t), id) == if id < Next(s, t).made then 1 else 0 {
      SurfaceKept(s, t, id);
    }
  }

  lemma {:induction false} RunKeeps(s: Cache, steps: seq<Step>)
    requires Inv(s)
    ensures Inv(Run(s, steps))
    decreases |steps|
  {
    if steps != [] {
      StepKeeps(s, steps[0]);
      RunKeeps(Next(s, steps[0]), steps[1..]);
    }
  }

  /** Some interleaving of UI and worker steps leads from the initial state to `s`. */
  ghost predicate Reachable(s: Cache) {
    exists start: Cache, steps: seq<Step> :: start == Init() && Run(start, steps) == s
  }

  lemma ReachableOk(s: Cache)
    requires Reachable(s)
    ensures Inv(s)
  {
    var start: Cache, steps: seq<Step> :| start == Init() && Run(start, steps) == s;
    InitOk(start);
    RunKeeps(start, steps);
  }

  /** Under every interleaving: at most one wanted job per game and none for a cached one,
      no visible eviction, exact texture accounting, and each surface freed or held once. */
  lemma EveryInterleaving(s: Cache)
    requires Reachable(s)
    ensures forall i, j :: 0 <= i < j < |s.jobs| && Live(s.jobs[i]) && Live(s.jobs[j]) ==> s.jobs[i].game != s.jobs[j].game
    ensures forall i :: 0 <= i < |s.jobs| && Live(s.jobs[i]) ==> s.jobs[i].gen == s.gen && !HasItem(s.items, s.jobs[i].game)
    ensures s.evictions == 0
    ensures s.textureBytes == SumBytes(s.items) <= CACHE_MAX_BYTES
    ensures s.creates - s.destroys == LiveTextures(s.items)
    ensures forall id: nat :: Uses(s, id) == if id < s.made then 1 else 0
  {
    ReachableOk(s);
  }

  /** No UI step clears, reuses or rewrites a slot that is being decoded. */
  lemma LoadingSlotIsTheWorkers(s: Cache, t: Step, i: nat)
    requires Reachable(s) && UiStep(t)
    requires i < |s.jobs| && s.jobs[i].loading
    ensures |Next(s, t).jobs| == |s.jobs|
    ensures var a, b := s.jobs[i], Next(s, t).jobs[i];
            b == a.(priority := b.priority, cancelled := b.cancelled) && (a.cancelled ==> b.cancelled)
    ensures (s.worker.Decoding? || s.worker.Decoded?) && s.worker.slot == i
  {
    ReachableOk(s);
    LoadingKept(s, t, i);
  }

  lemma LoadingKept(s: Cache, t: Step, i: nat)
    requires SharedOk(s) && UiStep(t)
    requires i < SLOTS && s.jobs[i].loading
    ensures |Next(s, t).jobs| == SLOTS
    ensures var a, b := s.jobs[i], Next(s, t).jobs[i];
            b == a.(priority := b.priority, cancelled := b.cancelled) && (a.cancelled ==> b.cancelled)
  {
    match t {
      case StoreStep(ok) => StoreLeavesSlots(s, ok);
      case CollectStep => CollectLoading(s, i);
      case RequestStep(priority, path) => RequestLoading(s, priority, path, i);
      case RefreshStep => assert s.ui.Free? ==> Refresh(s).jobs[i] == RefreshJob(s.jobs[i], Refresh(s).gen, s.ids);
      case TouchStep(g) => assert Touch(s, g).jobs == s.jobs;
      case _ =>
    }
  }

  lemma CollectLoading(s: Cache, i: nat)
    requires JobsOk(s.jobs, s.gen) && i < SLOTS && s.jobs[i].loading
    ensures |Collect(s).jobs| == SLOTS && Collect(s).jobs[i] == s.jobs[i]
  {
    var swept := SweepJobs(s.jobs, s.ids);
    assert swept[i] == s.jobs[i] && !Collectable(swept[i], s.ids);
  }

  lemma RequestLoading(s: Cache, priority: nat, path: string, i: nat)
    requires JobsOk(s.jobs, s.gen) && i < SLOTS && s.jobs[i].loading
    ensures var r := Request(s, priority, path);
            |r.jobs| == SLOTS && r.jobs[i] == s.jobs[i].(priority := r.jobs[i].priority)
  {
    assert s.jobs[i].occupied;
  }

  /** After shutdown nothing is left: every surface was freed once and every texture destroyed. */
  lemma ShutdownLeavesNothing(s: Cache)
    requires Reachable(s) && s.ui.Destroyed?
    ensures s.creates == s.destroys && s.textureBytes == 0
    ensures forall id: nat :: Count(s.freed, id) == if id < s.made then 1 else 0
  {
    ReachableOk(s);
    NoTextures(s.items);
    forall id: nat ensures Count(s.freed, id) == if id < s.made then 1 else 0 {
      NoSurfaces(s.jobs, id);
      assert Uses(s, id) == Count(s.freed, id);
    }
  }
}
