// When a refresh fails: exactly when the games to be kept are more than the table holds.

module CatalogLimits {
  import opened Options
  import opened CatalogIncremental
  import opened CatalogRefresh

  /** The games of a platform are those games that name it, as often as they stand there. */
  lemma {:induction false} GamesOfExactly(games: seq<Game>, system: string, g: Game)
    ensures multiset(GamesOf(games, system))[g] == if g.system == system then multiset(games)[g] else 0
    decreases |games|
  {
    if games != [] {
      var n := |games| - 1;
      assert games == games[..n] + [games[n]];
      GamesOfExactly(games[..n], system, g);
    }
  }

  /** How many games of one platform are to be kept: what the scan found, if it was scanned
      anew, and otherwise what was there. */
  function ToKeepOf(prior: Catalog, directories: seq<Directory>, attempts: seq<Attempt>, k: nat): nat
    requires |directories| == |attempts| && k < |directories|
  {
    |ShareOfGames(prior, directories[k], attempts[k], Rescanned(prior, directories, attempts, k))|
  }

  function EachToKeep(prior: Catalog, directories: seq<Directory>, attempts: seq<Attempt>): (r: seq<nat>)
    requires |directories| == |attempts|
    ensures |r| == |directories| && forall k :: 0 <= k < |r| ==> r[k] == ToKeepOf(prior, directories, attempts, k)
  {
    seq(|directories|, k requires 0 <= k < |directories| => ToKeepOf(prior, directories, attempts, k))
  }

  function Sum(counts: seq<nat>): nat {
    if counts == [] then 0 else Sum(counts[..|counts| - 1]) + counts[|counts| - 1]
  }

  /** How many games the pass is to keep. */
  function ToKeep(prior: Catalog, directories: seq<Directory>, attempts: seq<Attempt>): nat
    requires |directories| == |attempts|
  {
    Sum(EachToKeep(prior, directories, attempts))
  }

  lemma SameToKeep(prior: Catalog, directories: seq<Directory>, attempts: seq<Attempt>, k: nat)
    requires |directories| == |attempts| > 0 && k < |directories| - 1
    ensures ToKeepOf(prior, directories[..|directories| - 1], attempts[..|directories| - 1], k) == ToKeepOf(prior, directories, attempts, k)
  {
    PrefixRescanned(prior, directories, attempts, k);
  }

  lemma ToKeepOfPrefix(prior: Catalog, directories: seq<Directory>, attempts: seq<Attempt>)
    requires |directories| == |attempts| > 0
    ensures var n := |directories| - 1;
            ToKeep(prior, directories, attempts) == ToKeep(prior, directories[..n], attempts[..n]) + ToKeepOf(prior, directories, attempts, n)
  {
    var n := |directories| - 1;
    var all, front := EachToKeep(prior, directories, attempts), EachToKeep(prior, directories[..n], attempts[..n]);
    forall k | 0 <= k < n ensures front[k] == all[k] {
      SameToKeep(prior, directories, attempts, k);
    }
    assert all[..n] == front;
  }

  lemma VisitFails(prior: Catalog, p: Progress, d: Directory, a: Attempt)
    requires !p.failed
    ensures var share := ShareOfGames(prior, d, a, !Fresh(prior, d) && Succeeds(a) && !p.blocked);
            && (Visit(prior, p, d, a).failed <==> |p.games| + |share| > 65536)
            && (!Visit(prior, p, d, a).failed ==> |Visit(prior, p, d, a).games| == |p.games| + |share|)
  {
  }

  /** The last visit of a pass adds what is to be kept of its directory. */
  lemma LastVisit(prior: Catalog, directories: seq<Directory>, attempts: seq<Attempt>, p: Progress)
    requires |directories| == |attempts| > 0 && !p.failed
    requires p == Walk(prior, directories[..|directories| - 1], attempts[..|directories| - 1])
    ensures var v, more := Walk(prior, directories, attempts), ToKeepOf(prior, directories, attempts, |directories| - 1);
            (v.failed <==> |p.games| + more > 65536) && (!v.failed ==> |v.games| == |p.games| + more)
  {
    var n := |directories| - 1;
    BlockedFlag(prior, directories[..n], attempts[..n]);
    BlockedStep(prior, directories, attempts);
    VisitFails(prior, p, directories[n], attempts[n]);
  }

  lemma {:induction false} WalkFailsExactly(prior: Catalog, directories: seq<Directory>, attempts: seq<Attempt>)
    requires |directories| == |attempts|
    ensures var p, total := Walk(prior, directories, attempts), ToKeep(prior, directories, attempts);
            (p.failed <==> total > 65536) && (!p.failed ==> |p.games| == total)
    decreases |directories|
  {
    if directories != [] {
      var n := |directories| - 1;
      var p := Walk(prior, directories[..n], attempts[..n]);
      WalkFailsExactly(prior, directories[..n], attempts[..n]);
      ToKeepOfPrefix(prior, directories, attempts);
      if !p.failed {
        LastVisit(prior, directories, attempts, p);
      }
    }
  }

  /** A refresh fails if and only if it is not warm and the games to keep are more than
      65536; otherwise it keeps exactly that many. */
  lemma FailsExactly(prior: Catalog, complete: bool, directories: seq<Directory>, attempts: seq<Attempt>)
    requires |directories| == |attempts|
    ensures var o, total := Refresh(prior, complete, directories, attempts), ToKeep(prior, directories, attempts);
            var warm := complete && WarmUnchanged(prior, directories);
            && (o.result.Failed? <==> !warm && total > 65536)
            && (!warm && !o.result.Failed? ==> |o.catalog.games| == total)
            && (o.result.Failed? ==> o.catalog == Catalog([], [], []) && !o.complete)
  {
    WalkFailsExactly(prior, directories, attempts);
  }
}
