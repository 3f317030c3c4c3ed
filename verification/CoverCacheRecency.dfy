// Which cover gives way: never one used more recently than another that could.

module CoverCacheRecency {
  import opened Options
  import opened CoverCache
  import opened CoverCacheSafety

  /** No item was used later than now. */
  predicate NoneLater(s: Cache) {
    forall i :: 0 <= i < |s.items| ==> s.items[i].lastUsed <= s.tick
  }

  lemma StoreTicks(s: Cache, textureOk: bool)
    requires NoneLater(s)
    ensures NoneLater(Store(s, textureOk))
  {
  }

  lemma StepTicks(s: Cache, t: Step)
    requires NoneLater(s)
    ensures NoneLater(Next(s, t))
  {
    match t {
      case StoreStep(ok) => StoreTicks(s, ok);
      case TouchStep(g) => TouchTicks(s, g);
      case _ => assert Next(s, t).items == s.items || t.DestroyStep?;
    }
  }

  lemma TouchTicks(s: Cache, g: nat)
    requires NoneLater(s)
    ensures NoneLater(Touch(s, g))
  {
  }

  lemma {:induction false} RunTicks(s: Cache, steps: seq<Step>)
    requires NoneLater(s)
    ensures NoneLater(Run(s, steps))
    decreases |steps|
  {
    if steps != [] {
      StepTicks(s, steps[0]);
      RunTicks(Next(s, steps[0]), steps[1..]);
    }
  }

  lemma ReachableTicks(s: Cache)
    requires Reachable(s)
    ensures NoneLater(s)
  {
    var start: Cache, steps: seq<Step> :| start == Init() && Run(start, steps) == s;
    RunTicks(start, steps);
  }

  /** The slot of the game was used after every other. */
  predicate MostRecent(items: seq<Item>, g: nat, k: nat) {
    && k < |items| && items[k].occupied && items[k].game == g
    && forall i :: 0 <= i < |items| && i != k ==> items[i].lastUsed < items[k].lastUsed
  }

  /** In every run, a cover that is looked at, or just stored, becomes the most recent. */
  lemma UsedIsMostRecent(s: Cache, g: nat) returns (k: nat)
    requires Reachable(s) && s.ui.Free? && HasItem(s.items, g)
    ensures MostRecent(Next(s, TouchStep(g)).items, g, k)
  {
    ReachableTicks(s);
    k := FindItem(s.items, g).value;
  }

  lemma StoredIsMostRecent(s: Cache, g: nat) returns (k: nat)
    requires Reachable(s) && s.ui.Holding? && s.ui.game == g
    requires HasItem(Next(s, StoreStep(true)).items, g)
    ensures MostRecent(Next(s, StoreStep(true)).items, g, k)
  {
    ReachableTicks(s);
    ReachableOk(s);
    var t := Next(s, StoreStep(true));
    if g in s.ids {
      var done := s.(ui := Free, freed := s.freed + Ids(s.ui.surface));
      UploadPlaces(done, g, s.ui.surface);
      k := ReplacementItem(s.items, s.ids).value;
      PlacedIsMostRecent(done.(creates := done.creates + Textures(s.ui.surface)), k, g, s.ui.surface);
      assert t.items != s.items;
    } else {
      assert false;
    }
  }

  lemma PlacedIsMostRecent(s: Cache, k: nat, g: nat, surface: Option<Surface>)
    requires NoneLater(s) && k < |s.items|
    ensures var t := Place(s, k, g, surface);
            t.items == s.items || MostRecent(t.items, g, k)
  {
  }

  /** And the most recent one gives way only if all the others are on screen. */
  lemma MostRecentStays(items: seq<Item>, ids: seq<nat>, g: nat, k: nat, i: nat)
    requires MostRecent(items, g, k) && i < |items| && i != k && (!items[i].occupied || items[i].game !in ids)
    ensures ReplacementItem(items, ids) != Some(k)
  {
  }
}
