// What the bound on decoded thumbnails means for the cover cache.

module CoverCacheSizes {
  import opened Options
  import opened CoverCache
  import opened CoverCacheSafety

  /** Every decode of the run yields a thumbnail of the permitted size or none. */
  predicate SmallDecodes(steps: seq<Step>) {
    forall i :: 0 <= i < |steps| && steps[i].DecodeStep? && steps[i].bytes.Some? ==> steps[i].bytes.value <= THUMBNAIL_MAX_BYTES
  }

  predicate Small(surface: Option<Surface>) {
    Bytes(surface) <= THUMBNAIL_MAX_BYTES
  }

  predicate SmallJobs(jobs: seq<Job>) {
    forall i :: 0 <= i < |jobs| ==> Small(jobs[i].surface)
  }

  predicate SmallItems(items: seq<Item>) {
    forall i :: 0 <= i < |items| ==> items[i].bytes <= THUMBNAIL_MAX_BYTES
  }

  /** Whoever holds a surface holds a small one, and every item is small. */
  predicate AllSmall(s: Cache) {
    && SmallJobs(s.jobs) && SmallItems(s.items)
    && (s.worker.Decoded? ==> Small(s.worker.surface)) && (s.ui.Holding? ==> Small(s.ui.surface))
  }

  lemma StoreStaysSmall(s: Cache, textureOk: bool)
    requires AllSmall(s)
    ensures AllSmall(Store(s, textureOk))
  {
    StoreLeavesSlots(s, textureOk);
  }

  lemma RequestStaysSmall(s: Cache, priority: nat, path: string)
    requires AllSmall(s)
    ensures AllSmall(Request(s, priority, path))
  {
  }

  lemma CollectStaysSmall(s: Cache)
    requires AllSmall(s)
    ensures AllSmall(Collect(s))
  {
    var swept := SweepJobs(s.jobs, s.ids);
    assert SmallJobs(swept);
  }

  lemma RefreshStaysSmall(s: Cache)
    requires AllSmall(s)
    ensures AllSmall(Refresh(s))
  {
  }

  lemma TouchStaysSmall(s: Cache, g: nat)
    requires AllSmall(s)
    ensures AllSmall(Touch(s, g))
  {
  }

  lemma WorkerStaysSmall(s: Cache)
    requires AllSmall(s)
    ensures AllSmall(Pick(s)) && AllSmall(Finish(s))
  {
  }

  lemma StepStaysSmall(s: Cache, t: Step)
    requires AllSmall(s) && (t.DecodeStep? && t.bytes.Some? ==> t.bytes.value <= THUMBNAIL_MAX_BYTES)
    ensures AllSmall(Next(s, t))
  {
    match t {
      case StoreStep(ok) => StoreStaysSmall(s, ok);
      case RequestStep(priority, path) => RequestStaysSmall(s, priority, path);
      case CollectStep => CollectStaysSmall(s);
      case RefreshStep => RefreshStaysSmall(s);
      case PickStep => WorkerStaysSmall(s);
      case FinishStep => WorkerStaysSmall(s);
      case TouchStep(g) => TouchStaysSmall(s, g);
      case _ =>
    }
  }

  lemma {:induction false} RunStaysSmall(s: Cache, steps: seq<Step>)
    requires AllSmall(s) && SmallDecodes(steps)
    ensures AllSmall(Run(s, steps))
    decreases |steps|
  {
    if steps != [] {
      StepStaysSmall(s, steps[0]);
      RunStaysSmall(Next(s, steps[0]), steps[1..]);
    }
  }

  /** In a run whose decodes are of the permitted size, storing a visible game always caches
      it: no slot is missing and the byte budget never turns it away. */
  lemma StoreCaches(start: Cache, steps: seq<Step>)
    requires start == Init() && SmallDecodes(steps)
    requires Run(start, steps).ui.Holding? && Run(start, steps).ui.game in Run(start, steps).ids
    ensures HasItem(Store(Run(start, steps), true).items, Run(start, steps).ui.game)
  {
    var s := Run(start, steps);
    RunStaysSmall(start, steps);
    ReachableOk(s);
    StoredIsCached(s);
  }

  lemma StoredIsCached(s: Cache)
    requires Inv(s) && AllSmall(s) && s.ui.Holding? && s.ui.game in s.ids
    ensures HasItem(Store(s, true).items, s.ui.game)
  {
    var g, surface := s.ui.game, s.ui.surface;
    var done := s.(ui := Free, freed := s.freed + Ids(surface));
    UploadPlaces(done, g, surface);
    var k := ReplacementItem(s.items, s.ids).value;
    BudgetNeverBinds(s.items, k, Bytes(surface));
    ItemUpdate(s.items, k, NO_ITEM);
    assert Store(s, true) == Place(done.(creates := done.creates + Textures(surface)), k, g, surface);
    assert Store(s, true).items[k].occupied && Store(s, true).items[k].game == g;
  }
}
