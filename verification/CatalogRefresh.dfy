// What an incremental refresh promises, against a full scan.

module CatalogRefresh {
  import opened Options
  import opened CatalogIncremental

  // ----- games of a platform -----

  lemma {:induction false} GamesOfConcat(a: seq<Game>, b: seq<Game>, system: string)
    ensures GamesOf(a + b, system) == GamesOf(a, system) + GamesOf(b, system)
    decreases |b|
  {
    if b == [] {
      assert a + b == a;
    } else {
      var n := |b| - 1;
      GamesOfConcat(a, b[..n], system);
      assert (a + b)[..|a + b| - 1] == a + b[..n];
    }
  }

  lemma {:induction false} GamesOfFrom(games: seq<Game>, name: string, system: string)
    requires AllFrom(games, name)
    ensures GamesOf(games, system) == if system == name then games else []
    decreases |games|
  {
    if games != [] {
      var n := |games| - 1;
      GamesOfFrom(games[..n], name, system);
      assert games == games[..n] + [games[n]];
    }
  }

  lemma {:induction false} GamesOfAreFrom(games: seq<Game>, system: string)
    ensures AllFrom(GamesOf(games, system), system)
    decreases |games|
  {
    if games != [] {
      GamesOfAreFrom(games[..|games| - 1], system);
    }
  }

  lemma {:induction false} NoGamesOf(games: seq<Game>, system: string)
    requires forall i :: 0 <= i < |games| ==> games[i].system != system
    ensures GamesOf(games, system) == []
    decreases |games|
  {
    if games != [] {
      NoGamesOf(games[..|games| - 1], system);
    }
  }

  lemma {:induction false} OwnGamesOf(games: seq<Game>, i: nat)
    requires i < |games|
    ensures GamesOf(games, games[i].system) != []
    decreases |games|
  {
    if i < |games| - 1 {
      OwnGamesOf(games[..|games| - 1], i);
    }
  }

  // ----- records -----

  lemma {:induction false} FindRecordConcat(a: seq<Record>, b: seq<Record>, name: string)
    ensures FindRecord(a + b, name) == if FindRecord(a, name).Some? then FindRecord(a, name) else FindRecord(b, name)
    decreases |a|
  {
    if a == [] {
      assert a + b == b;
    } else {
      FindRecordConcat(a[1..], b, name);
      assert (a + b)[1..] == a[1..] + b;
    }
  }

  lemma {:induction false} FindRecordAt(records: seq<Record>, i: nat)
    requires DistinctRecords(records) && i < |records|
    ensures FindRecord(records, records[i].name) == Some(records[i])
    decreases |records|
  {
    if i > 0 {
      FindRecordAt(records[1..], i - 1);
    }
  }

  lemma FindRecordIff(records: seq<Record>, name: string)
    ensures FindRecord(records, name).Some? <==> HasRecord(records, name)
  {
  }

  // ----- the share of each directory -----

  /** Whether the pass has been blocked by one of the first n directories. */
  predicate BlockedBy(prior: Catalog, directories: seq<Directory>, attempts: seq<Attempt>, n: nat)
    requires |directories| == |attempts| && n <= |directories|
  {
    exists i :: 0 <= i < n && !Fresh(prior, directories[i]) && !Succeeds(attempts[i])
  }

  predicate Rescanned(prior: Catalog, directories: seq<Directory>, attempts: seq<Attempt>, k: nat)
    requires |directories| == |attempts| && k < |directories|
  {
    !Fresh(prior, directories[k]) && Succeeds(attempts[k]) && !BlockedBy(prior, directories, attempts, k)
  }

  function ShareOfGames(prior: Catalog, d: Directory, a: Attempt, rescanned: bool): seq<Game>
    requires rescanned ==> Succeeds(a)
  {
    if rescanned then GamesOf(a.games.value, d.name) else GamesOf(prior.games, d.name)
  }

  function ShareOfRecord(prior: Catalog, d: Directory, a: Attempt, rescanned: bool): Option<Record> {
    if rescanned then Some(Record(d.name, d.meta, a.entries)) else FindRecord(prior.records, d.name)
  }

  lemma BlockedStep(prior: Catalog, directories: seq<Directory>, attempts: seq<Attempt>)
    requires |directories| == |attempts| > 0
    ensures var n := |directories| - 1;
            && BlockedBy(prior, directories[..n], attempts[..n], n) == BlockedBy(prior, directories, attempts, n)
            && BlockedBy(prior, directories, attempts, n + 1)
            == (BlockedBy(prior, directories, attempts, n) || (!Fresh(prior, directories[n]) && !Succeeds(attempts[n])))
  {
    var n := |directories| - 1;
    assert forall i :: 0 <= i < n ==> directories[..n][i] == directories[i] && attempts[..n][i] == attempts[i];
  }

  /** The blocked flag says what it should. */
  lemma {:induction false} BlockedFlag(prior: Catalog, directories: seq<Directory>, attempts: seq<Attempt>)
    requires |directories| == |attempts| && !Walk(prior, directories, attempts).failed
    ensures Walk(prior, directories, attempts).blocked == BlockedBy(prior, directories, attempts, |directories|)
    decreases |directories|
  {
    if directories != [] {
      var n := |directories| - 1;
      BlockedFlag(prior, directories[..n], attempts[..n]);
      BlockedStep(prior, directories, attempts);
    }
  }

  /** One visit adds the directory's share. */
  lemma VisitAdds(prior: Catalog, p: Progress, d: Directory, a: Attempt)
    requires !Visit(prior, p, d, a).failed
    ensures var rescanned := !Fresh(prior, d) && Succeeds(a) && !p.blocked;
            var v := Visit(prior, p, d, a);
            && !p.failed && v.games == p.games + ShareOfGames(prior, d, a, rescanned)
            && v.records == p.records + RecordsOf(ShareOfRecord(prior, d, a, rescanned))
  {
  }

  lemma ShareIsOwn(prior: Catalog, d: Directory, a: Attempt, rescanned: bool, name: string)
    requires rescanned ==> Succeeds(a)
    ensures var share := ShareOfGames(prior, d, a, rescanned);
            && GamesOf(share, name) == (if name == d.name then share else [])
            && FindRecord(RecordsOf(ShareOfRecord(prior, d, a, rescanned)), name)
            == (if name == d.name then ShareOfRecord(prior, d, a, rescanned) else None)
  {
    var share := ShareOfGames(prior, d, a, rescanned);
    GamesOfAreFrom(if rescanned then a.games.value else prior.games, d.name);
    GamesOfFrom(share, d.name, name);
  }

  predicate Named(directories: seq<Directory>, name: string) {
    exists i :: 0 <= i < |directories| && directories[i].name == name
  }

  /** Nothing is kept for a platform that is not there any more. */
  lemma {:induction false} NothingElsewhere(prior: Catalog, directories: seq<Directory>, attempts: seq<Attempt>, name: string)
    requires |directories| == |attempts| && !Walk(prior, directories, attempts).failed && !Named(directories, name)
    ensures var p := Walk(prior, directories, attempts);
            GamesOf(p.games, name) == [] && FindRecord(p.records, name) == None
    decreases |directories|
  {
    if directories != [] {
      var n := |directories| - 1;
      var p, d, a := Walk(prior, directories[..n], attempts[..n]), directories[n], attempts[n];
      VisitAdds(prior, p, d, a);
      assert forall i :: 0 <= i < n ==> directories[..n][i].name == directories[i].name;
      NothingElsewhere(prior, directories[..n], attempts[..n], name);
      AddShare(prior, p, d, a, !Fresh(prior, d) && Succeeds(a) && !p.blocked, name);
    }
  }

  lemma AddShare(prior: Catalog, p: Progress, d: Directory, a: Attempt, rescanned: bool, name: string)
    requires rescanned ==> Succeeds(a)
    ensures var share, record := ShareOfGames(prior, d, a, rescanned), ShareOfRecord(prior, d, a, rescanned);
            && GamesOf(p.games + share, name) == GamesOf(p.games, name) + (if name == d.name then share else [])
            && FindRecord(p.records + RecordsOf(record), name)
            == if FindRecord(p.records, name).Some? then FindRecord(p.records, name) else if name == d.name then record else None
  {
    var share, record := ShareOfGames(prior, d, a, rescanned), ShareOfRecord(prior, d, a, rescanned);
    GamesOfConcat(p.games, share, name);
    FindRecordConcat(p.records, RecordsOf(record), name);
    ShareIsOwn(prior, d, a, rescanned, name);
  }

  predicate HasShare(p: Progress, prior: Catalog, d: Directory, a: Attempt, rescanned: bool)
    requires rescanned ==> Succeeds(a)
  {
    && GamesOf(p.games, d.name) == ShareOfGames(prior, d, a, rescanned)
    && FindRecord(p.records, d.name) == ShareOfRecord(prior, d, a, rescanned)
  }

  lemma LastHasItsShare(prior: Catalog, directories: seq<Directory>, attempts: seq<Attempt>)
    requires |directories| == |attempts| > 0 && !Walk(prior, directories, attempts).failed && DistinctDirectories(directories)
    ensures var n := |directories| - 1;
            HasShare(Walk(prior, directories, attempts), prior, directories[n], attempts[n], Rescanned(prior, directories, attempts, n))
  {
    var n := |directories| - 1;
    var p, d, a := Walk(prior, directories[..n], attempts[..n]), directories[n], attempts[n];
    VisitAdds(prior, p, d, a);
    BlockedFlag(prior, directories[..n], attempts[..n]);
    BlockedStep(prior, directories, attempts);
    AddShare(prior, p, d, a, !Fresh(prior, d) && Succeeds(a) && !p.blocked, d.name);
    assert forall i :: 0 <= i < n ==> directories[..n][i].name == directories[i].name;
    NothingElsewhere(prior, directories[..n], attempts[..n], d.name);
  }

  /** A later visit leaves the share of an earlier directory alone. */
  lemma ShareStays(prior: Catalog, p: Progress, d: Directory, a: Attempt, other: Directory, b: Attempt, rescanned: bool)
    requires !Visit(prior, p, d, a).failed && other.name != d.name && (rescanned ==> Succeeds(b))
    requires HasShare(p, prior, other, b, rescanned)
    ensures HasShare(Visit(prior, p, d, a), prior, other, b, rescanned)
  {
    VisitAdds(prior, p, d, a);
    AddShare(prior, p, d, a, !Fresh(prior, d) && Succeeds(a) && !p.blocked, other.name);
  }

  /** After the pass each directory has its share, no more and no less. */
  lemma {:induction false} EachHasItsShare(prior: Catalog, directories: seq<Directory>, attempts: seq<Attempt>, k: nat)
    requires |directories| == |attempts| && !Walk(prior, directories, attempts).failed
    requires DistinctDirectories(directories) && k < |directories|
    ensures HasShare(Walk(prior, directories, attempts), prior, directories[k], attempts[k], Rescanned(prior, directories, attempts, k))
    decreases |directories|
  {
    var n := |directories| - 1;
    if k == n {
      LastHasItsShare(prior, directories, attempts);
    } else {
      var p := Walk(prior, directories[..n], attempts[..n]);
      VisitAdds(prior, p, directories[n], attempts[n]);
      EachHasItsShare(prior, directories[..n], attempts[..n], k);
      PrefixRescanned(prior, directories, attempts, k);
      ShareStays(prior, p, directories[n], attempts[n], directories[k], attempts[k], Rescanned(prior, directories, attempts, k));
    }
  }

  lemma PrefixRescanned(prior: Catalog, directories: seq<Directory>, attempts: seq<Attempt>, k: nat)
    requires |directories| == |attempts| && k < |directories| - 1
    ensures var n := |directories| - 1;
            Rescanned(prior, directories[..n], attempts[..n], k) == Rescanned(prior, directories, attempts, k)
  {
    var n := |directories| - 1;
    assert forall i :: 0 <= i < n ==> directories[..n][i] == directories[i] && attempts[..n][i] == attempts[i];
  }

  // ----- what the catalog then says -----

  /** The directory's games and record are exactly as they were. */
  predicate AsBefore(prior: Catalog, c: Catalog, d: Directory) {
    GamesOf(c.games, d.name) == GamesOf(prior.games, d.name) && FindRecord(c.records, d.name) == FindRecord(prior.records, d.name)
  }

  lemma FreshTellsTruth(truth: Truth, c: Catalog, d: Directory)
    requires Truthful(truth, c) && Fresh(c, d)
    ensures GamesOf(c.games, d.name) == Scanned(truth, d)
  {
    var r := FindRecord(c.records, d.name).value;
    var i :| 0 <= i < |c.records| && c.records[i] == r;
  }

  /** The catalog the pass builds. */
  function Built(p: Progress): Catalog {
    Catalog(p.games, p.records, p.cursor)
  }

  lemma ShareTellsTruth(truth: Truth, prior: Catalog, directories: seq<Directory>, attempts: seq<Attempt>, k: nat)
    requires |directories| == |attempts| && !Walk(prior, directories, attempts).failed && DistinctDirectories(directories)
    requires Truthful(truth, prior) && Honest(truth, directories, attempts) && TruthNamed(truth) && k < |directories|
    ensures var c := Built(Walk(prior, directories, attempts));
            && (Fresh(c, directories[k]) <==> Fresh(prior, directories[k]) || Rescanned(prior, directories, attempts, k))
            && (Fresh(c, directories[k]) ==> GamesOf(c.games, directories[k].name) == Scanned(truth, directories[k]))
            && (!Fresh(c, directories[k]) ==> AsBefore(prior, c, directories[k]))
  {
    var d := directories[k];
    EachHasItsShare(prior, directories, attempts, k);
    if Rescanned(prior, directories, attempts, k) {
      assert AllFrom(truth(d.name, d.meta), d.name);
      GamesOfFrom(attempts[k].games.value, d.name, d.name);
    } else if Fresh(prior, d) {
      FreshTellsTruth(truth, prior, d);
    }
  }

  // ----- truth is kept -----

  lemma {:induction false} WalkRecordsNamed(prior: Catalog, directories: seq<Directory>, attempts: seq<Attempt>)
    requires |directories| == |attempts| && !Walk(prior, directories, attempts).failed && DistinctDirectories(directories)
    ensures var p := Walk(prior, directories, attempts);
            DistinctRecords(p.records) && forall i :: 0 <= i < |p.records| ==> Named(directories, p.records[i].name)
    decreases |directories|
  {
    if directories != [] {
      var n := |directories| - 1;
      var p, d, a := Walk(prior, directories[..n], attempts[..n]), directories[n], attempts[n];
      VisitAdds(prior, p, d, a);
      WalkRecordsNamed(prior, directories[..n], attempts[..n]);
      NamedInPrefix(directories, p.records);
      assert directories[n].name == d.name;
    }
  }

  lemma NamedInPrefix(directories: seq<Directory>, records: seq<Record>)
    requires directories != [] && DistinctDirectories(directories)
    requires forall i :: 0 <= i < |records| ==> Named(directories[..|directories| - 1], records[i].name)
    ensures forall i :: 0 <= i < |records| ==> Named(directories, records[i].name) && records[i].name != directories[|directories| - 1].name
  {
    forall i | 0 <= i < |records|
      ensures Named(directories, records[i].name) && records[i].name != directories[|directories| - 1].name
    {
      var front := directories[..|directories| - 1];
      var j :| 0 <= j < |front| && front[j].name == records[i].name;
      assert directories[j].name == records[i].name;
    }
  }

  lemma RecordTellsTruth(truth: Truth, prior: Catalog, directories: seq<Directory>, attempts: seq<Attempt>, i: nat)
    requires |directories| == |attempts| && !Walk(prior, directories, attempts).failed && DistinctDirectories(directories)
    requires Truthful(truth, prior) && Honest(truth, directories, attempts) && TruthNamed(truth)
    requires i < |Walk(prior, directories, attempts).records|
    ensures var p := Walk(prior, directories, attempts);
            GamesOf(p.games, p.records[i].name) == truth(p.records[i].name, p.records[i].meta)
  {
    var p := Walk(prior, directories, attempts);
    WalkRecordsNamed(prior, directories, attempts);
    var k :| 0 <= k < |directories| && directories[k].name == p.records[i].name;
    FindRecordAt(p.records, i);
    EachHasItsShare(prior, directories, attempts, k);
    ShareTellsTruth(truth, prior, directories, attempts, k);
    if !Rescanned(prior, directories, attempts, k) {
      var r := FindRecord(prior.records, directories[k].name).value;
      var j :| 0 <= j < |prior.records| && prior.records[j] == r;
    }
  }

  lemma {:induction false} SomeGameOf(games: seq<Game>, system: string) returns (i: nat)
    requires GamesOf(games, system) != []
    ensures i < |games| && games[i].system == system
    decreases |games|
  {
    var n := |games| - 1;
    if games[n].system == system {
      i := n;
    } else {
      i := SomeGameOf(games[..n], system);
    }
  }

  lemma GameHasRecord(truth: Truth, prior: Catalog, directories: seq<Directory>, attempts: seq<Attempt>, i: nat)
    requires |directories| == |attempts| && !Walk(prior, directories, attempts).failed && DistinctDirectories(directories)
    requires Truthful(truth, prior) && i < |Walk(prior, directories, attempts).games|
    ensures var p := Walk(prior, directories, attempts);
            HasRecord(p.records, p.games[i].system)
  {
    var p := Walk(prior, directories, attempts);
    var name := p.games[i].system;
    OwnGamesOf(p.games, i);
    if !Named(directories, name) {
      NothingElsewhere(prior, directories, attempts, name);
    }
    var k :| 0 <= k < |directories| && directories[k].name == name;
    EachHasItsShare(prior, directories, attempts, k);
    if !Rescanned(prior, directories, attempts, k) {
      var j := SomeGameOf(prior.games, name);
      FindRecordIff(prior.records, name);
    }
    FindRecordIff(p.records, name);
  }

  lemma WalkIsTruthful(truth: Truth, prior: Catalog, directories: seq<Directory>, attempts: seq<Attempt>)
    requires |directories| == |attempts| && !Walk(prior, directories, attempts).failed && DistinctDirectories(directories)
    requires Truthful(truth, prior) && Honest(truth, directories, attempts) && TruthNamed(truth)
    ensures Truthful(truth, Built(Walk(prior, directories, attempts)))
  {
    var p := Walk(prior, directories, attempts);
    WalkRecordsNamed(prior, directories, attempts);
    forall i | 0 <= i < |p.records| ensures GamesOf(p.games, p.records[i].name) == truth(p.records[i].name, p.records[i].meta) {
      RecordTellsTruth(truth, prior, directories, attempts, i);
    }
    forall i | 0 <= i < |p.games| ensures HasRecord(p.records, p.games[i].system) {
      GameHasRecord(truth, prior, directories, attempts, i);
    }
  }

  // ----- the cursor -----

  /** The cursor names the first stale directory that could not be scanned. */
  lemma {:induction false} CursorIsFirst(prior: Catalog, directories: seq<Directory>, attempts: seq<Attempt>) returns (k: nat)
    requires |directories| == |attempts| && !Walk(prior, directories, attempts).failed && DistinctDirectories(directories)
    ensures var p := Walk(prior, directories, attempts);
            && (p.blocked ==> k < |directories| && p.cursor == directories[k].name && !Fresh(prior, directories[k]) && !Succeeds(attempts[k])
                              && !BlockedBy(prior, directories, attempts, k))
            && (!p.blocked ==> p.cursor == [])
    decreases |directories|
  {
    k := 0;
    if directories != [] {
      var n := |directories| - 1;
      var p := Walk(prior, directories[..n], attempts[..n]);
      VisitAdds(prior, p, directories[n], attempts[n]);
      k := CursorIsFirst(prior, directories[..n], attempts[..n]);
      BlockedFlag(prior, directories[..n], attempts[..n]);
      BlockedStep(prior, directories, attempts);
      if p.blocked {
        assert forall i :: 0 <= i < n ==> directories[..n][i] == directories[i] && attempts[..n][i] == attempts[i];
      } else {
        k := n;
      }
    }
  }

  // ----- the warm start -----

  lemma {:induction false} NamesOfDirectories(directories: seq<Directory>)
    requires DistinctDirectories(directories)
    ensures |set i | 0 <= i < |directories| :: directories[i].name| == |directories|
    decreases |directories|
  {
    if directories != [] {
      var n := |directories| - 1;
      var front := directories[..n];
      NamesOfDirectories(front);
      var names := set i | 0 <= i < |front| :: front[i].name;
      assert (set i | 0 <= i < |directories| :: directories[i].name) == names + {directories[n].name} by {
        assert forall i :: 0 <= i < n ==> front[i].name == directories[i].name;
      }
    }
  }

  lemma {:induction false} NamesOfRecords(records: seq<Record>)
    requires DistinctRecords(records)
    ensures |set i | 0 <= i < |records| :: records[i].name| == |records|
    decreases |records|
  {
    if records != [] {
      var n := |records| - 1;
      var front := records[..n];
      NamesOfRecords(front);
      var names := set i | 0 <= i < |front| :: front[i].name;
      assert (set i | 0 <= i < |records| :: records[i].name) == names + {records[n].name} by {
        assert forall i :: 0 <= i < n ==> front[i].name == records[i].name;
      }
    }
  }

  lemma SameSizeSubset(a: set<string>, b: set<string>)
    requires a <= b && |a| == |b|
    ensures a == b
  {
    assert b == a + (b - a) && |b| == |a| + |b - a|;
  }

  /** As many records as directories, one for each: no record is left over. */
  lemma WarmHasNoStrays(prior: Catalog, directories: seq<Directory>, name: string)
    requires WarmUnchanged(prior, directories) && DistinctDirectories(directories) && DistinctRecords(prior.records)
    ensures HasRecord(prior.records, name) ==> Named(directories, name)
  {
    var a := set i | 0 <= i < |directories| :: directories[i].name;
    var b := set i | 0 <= i < |prior.records| :: prior.records[i].name;
    NamesOfDirectories(directories);
    NamesOfRecords(prior.records);
    forall x | x in a ensures x in b {
      var i :| 0 <= i < |directories| && directories[i].name == x;
      assert Matches(FindRecord(prior.records, directories[i].name), directories[i]);
      FindRecordIff(prior.records, x);
    }
    SameSizeSubset(a, b);
    if HasRecord(prior.records, name) {
      assert name in b;
    }
  }

  // ----- main results -----

  /** What every refresh starts from and what is assumed of the outside. */
  ghost predicate Setting(truth: Truth, prior: Catalog, directories: seq<Directory>, attempts: seq<Attempt>) {
    && |directories| == |attempts| && DistinctDirectories(directories) && Truthful(truth, prior)
    && Honest(truth, directories, attempts) && TruthNamed(truth)
  }

  /** A refresh that reports completion leaves, for every platform, the games a full scan
      would find, and none of any other platform. */
  lemma CompleteIsFullScan(truth: Truth, prior: Catalog, complete: bool, directories: seq<Directory>, attempts: seq<Attempt>, name: string)
    requires Setting(truth, prior, directories, attempts) && Refresh(prior, complete, directories, attempts).result.Complete?
    ensures var c := Refresh(prior, complete, directories, attempts).catalog;
            && (forall k :: 0 <= k < |directories| ==>
                  Fresh(c, directories[k]) && GamesOf(c.games, directories[k].name) == Scanned(truth, directories[k]))
            && (!Named(directories, name) ==> GamesOf(c.games, name) == [])
  {
    var c := Refresh(prior, complete, directories, attempts).catalog;
    if complete && WarmUnchanged(prior, directories) {
      forall k | 0 <= k < |directories| ensures Fresh(c, directories[k]) && GamesOf(c.games, directories[k].name) == Scanned(truth, directories[k]) {
        FreshTellsTruth(truth, prior, directories[k]);
      }
      WarmHasNoStrays(prior, directories, name);
      if !Named(directories, name) {
        NoGamesOf(prior.games, name);
      }
    } else {
      forall k | 0 <= k < |directories| ensures Fresh(c, directories[k]) && GamesOf(c.games, directories[k].name) == Scanned(truth, directories[k]) {
        CompleteDirectory(truth, prior, directories, attempts, k);
      }
      if !Named(directories, name) {
        NothingElsewhere(prior, directories, attempts, name);
      }
    }
  }

  lemma CompleteDirectory(truth: Truth, prior: Catalog, directories: seq<Directory>, attempts: seq<Attempt>, k: nat)
    requires Setting(truth, prior, directories, attempts) && k < |directories|
    requires !Walk(prior, directories, attempts).failed && !Walk(prior, directories, attempts).blocked
    ensures var c := Built(Walk(prior, directories, attempts));
            Fresh(c, directories[k]) && GamesOf(c.games, directories[k].name) == Scanned(truth, directories[k])
  {
    BlockedFlag(prior, directories, attempts);
    ShareTellsTruth(truth, prior, directories, attempts, k);
  }

  /** A refresh cut short leaves every platform either as a full scan finds it or exactly
      as it was, and its cursor names the first one that is not up to date. */
  lemma PartialIsFreshOrAsBefore(truth: Truth, prior: Catalog, complete: bool, directories: seq<Directory>, attempts: seq<Attempt>)
    returns (first: nat)
    requires Setting(truth, prior, directories, attempts) && Refresh(prior, complete, directories, attempts).result.Partial?
    ensures var c := Refresh(prior, complete, directories, attempts).catalog;
            && (forall k :: 0 <= k < |directories| ==>
                  (Fresh(c, directories[k]) && GamesOf(c.games, directories[k].name) == Scanned(truth, directories[k]))
                  || AsBefore(prior, c, directories[k]))
            && first < |directories| && c.cursor == directories[first].name && !Fresh(c, directories[first])
            && (forall k :: 0 <= k < first ==> Fresh(c, directories[k]))
  {
    var c := Refresh(prior, complete, directories, attempts).catalog;
    first := CursorIsFirst(prior, directories, attempts);
    forall k | 0 <= k < |directories|
      ensures Fresh(c, directories[k]) <==> Fresh(prior, directories[k]) || Rescanned(prior, directories, attempts, k)
      ensures (Fresh(c, directories[k]) && GamesOf(c.games, directories[k].name) == Scanned(truth, directories[k])) || AsBefore(prior, c, directories[k])
    {
      ShareTellsTruth(truth, prior, directories, attempts, k);
    }
  }

  /** Whatever its result, a refresh leaves a catalog that tells the truth. */
  lemma RefreshStaysTruthful(truth: Truth, prior: Catalog, complete: bool, directories: seq<Directory>, attempts: seq<Attempt>)
    requires Setting(truth, prior, directories, attempts)
    ensures Truthful(truth, Refresh(prior, complete, directories, attempts).catalog)
  {
    if !(complete && WarmUnchanged(prior, directories)) && !Walk(prior, directories, attempts).failed {
      WalkIsTruthful(truth, prior, directories, attempts);
    }
  }

  // ----- progress -----

  function StaleCount(c: Catalog, directories: seq<Directory>): nat
    decreases |directories|
  {
    if directories == [] then 0
    else
      var n := |directories| - 1;
      StaleCount(c, directories[..n]) + (if Fresh(c, directories[n]) then 0 else 1)
  }

  lemma {:induction false} FewerStale(before: Catalog, after: Catalog, directories: seq<Directory>)
    requires forall k :: 0 <= k < |directories| && Fresh(before, directories[k]) ==> Fresh(after, directories[k])
    ensures StaleCount(after, directories) <= StaleCount(before, directories)
    ensures (exists k :: 0 <= k < |directories| && !Fresh(before, directories[k]) && Fresh(after, directories[k])) ==>
              StaleCount(after, directories) < StaleCount(before, directories)
    decreases |directories|
  {
    if directories != [] {
      var n := |directories| - 1;
      var front := directories[..n];
      assert forall k :: 0 <= k < n ==> front[k] == directories[k];
      FewerStale(before, after, front);
    }
  }

  lemma {:induction false} NoneStale(c: Catalog, directories: seq<Directory>)
    ensures StaleCount(c, directories) == 0 <==> forall k :: 0 <= k < |directories| ==> Fresh(c, directories[k])
    decreases |directories|
  {
    if directories != [] {
      var front := directories[..|directories| - 1];
      assert forall k :: 0 <= k < |front| ==> front[k] == directories[k];
      NoneStale(c, front);
    }
  }

  /** The first stale directory, if any, is scanned within the budget. */
  ghost predicate FirstStaleScans(c: Catalog, directories: seq<Directory>, attempts: seq<Attempt>)
    requires |directories| == |attempts|
  {
    forall k :: 0 <= k < |directories| && !Fresh(c, directories[k]) && (forall j :: 0 <= j < k ==> Fresh(c, directories[j])) ==>
      Succeeds(attempts[k])
  }

  lemma FirstStale(c: Catalog, directories: seq<Directory>, n: nat) returns (k: nat)
    requires n <= |directories| && exists i :: 0 <= i < n && !Fresh(c, directories[i])
    ensures k < n && !Fresh(c, directories[k]) && forall j :: 0 <= j < k ==> Fresh(c, directories[j])
    decreases n
  {
    if exists i :: 0 <= i < n - 1 && !Fresh(c, directories[i]) {
      k := FirstStale(c, directories, n - 1);
    } else {
      k := n - 1;
    }
  }

  /** If the first stale platform scans within the budget, fewer are stale afterwards; and
      with none stale the refresh is complete. */
  lemma StaleShrinks(truth: Truth, prior: Catalog, complete: bool, directories: seq<Directory>, attempts: seq<Attempt>)
    requires Setting(truth, prior, directories, attempts) && !Refresh(prior, complete, directories, attempts).result.Failed?
    requires FirstStaleScans(prior, directories, attempts)
    ensures var o := Refresh(prior, complete, directories, attempts);
            && StaleCount(o.catalog, directories) <= StaleCount(prior, directories)
            && (StaleCount(prior, directories) > 0 ==> StaleCount(o.catalog, directories) < StaleCount(prior, directories))
            && (StaleCount(o.catalog, directories) == 0 <==> o.result.Complete?)
  {
    var o := Refresh(prior, complete, directories, attempts);
    NoneStale(prior, directories);
    NoneStale(o.catalog, directories);
    if !(complete && WarmUnchanged(prior, directories)) {
      forall k | 0 <= k < |directories|
        ensures Fresh(o.catalog, directories[k]) <==> Fresh(prior, directories[k]) || Rescanned(prior, directories, attempts, k)
      {
        ShareTellsTruth(truth, prior, directories, attempts, k);
      }
      FewerStale(prior, o.catalog, directories);
      BlockedFlag(prior, directories, attempts);
      if StaleCount(prior, directories) > 0 {
        var k := FirstStale(prior, directories, |directories|);
        assert Rescanned(prior, directories, attempts, k);
      }
    }
  }

  /** Refresh after refresh over the same directories. */
  function Again(o: Outcome, directories: seq<Directory>, rounds: seq<seq<Attempt>>): Outcome
    requires forall i :: 0 <= i < |rounds| ==> |rounds[i]| == |directories|
    decreases |rounds|
  {
    if rounds == [] then o
    else Again(Refresh(o.catalog, o.complete, directories, rounds[0]), directories, rounds[1..])
  }

  /** In every round the first stale directory scans in time, and memory suffices. */
  ghost predicate GoodRounds(truth: Truth, o: Outcome, directories: seq<Directory>, rounds: seq<seq<Attempt>>)
    requires forall i :: 0 <= i < |rounds| ==> |rounds[i]| == |directories|
    decreases |rounds|
  {
    rounds != [] ==>
      && Honest(truth, directories, rounds[0]) && FirstStaleScans(o.catalog, directories, rounds[0])
      && !Refresh(o.catalog, o.complete, directories, rounds[0]).result.Failed?
      && GoodRounds(truth, Refresh(o.catalog, o.complete, directories, rounds[0]), directories, rounds[1..])
  }

  /** As many such rounds as there are stale platforms complete the catalog. */
  lemma {:induction false} RoundsComplete(truth: Truth, o: Outcome, directories: seq<Directory>, rounds: seq<seq<Attempt>>)
    requires forall i :: 0 <= i < |rounds| ==> |rounds[i]| == |directories|
    requires DistinctDirectories(directories) && TruthNamed(truth) && Truthful(truth, o.catalog) && GoodRounds(truth, o, directories, rounds)
    requires |rounds| >= 1 && |rounds| >= StaleCount(o.catalog, directories)
    ensures Again(o, directories, rounds).result.Complete?
    decreases |rounds|
  {
    var next := Refresh(o.catalog, o.complete, directories, rounds[0]);
    StaleShrinks(truth, o.catalog, o.complete, directories, rounds[0]);
    RefreshStaysTruthful(truth, o.catalog, o.complete, directories, rounds[0]);
    if |rounds| > 1 {
      RoundsComplete(truth, next, directories, rounds[1..]);
    } else {
      assert Again(next, directories, rounds[1..]) == next;
    }
  }

  // ----- whole lives -----

  /** One refresh: the directories found and what came of trying them. */
  datatype Round = Round(directories: seq<Directory>, attempts: seq<Attempt>)

  /** What is assumed of a round: different names, and scans that find what is there. */
  ghost predicate Plausible(truth: Truth, r: Round) {
    |r.directories| == |r.attempts| && DistinctDirectories(r.directories) && Honest(truth, r.directories, r.attempts)
  }

  predicate Matched(rounds: seq<Round>) {
    forall i :: 0 <= i < |rounds| ==> |rounds[i].directories| == |rounds[i].attempts|
  }

  /** No snapshot yet. */
  function Cold(): Outcome {
    Outcome(Failed, Catalog([], [], []), false)
  }

  function Life(rounds: seq<Round>): Outcome
    requires Matched(rounds)
    decreases |rounds|
  {
    if rounds == [] then Cold()
    else
      var n := |rounds| - 1;
      var o := Life(rounds[..n]);
      Refresh(o.catalog, o.complete, rounds[n].directories, rounds[n].attempts)
  }

  lemma {:induction false} LifeIsTruthful(truth: Truth, rounds: seq<Round>)
    requires TruthNamed(truth) && Matched(rounds) && forall i :: 0 <= i < |rounds| ==> Plausible(truth, rounds[i])
    ensures Truthful(truth, Life(rounds).catalog)
    decreases |rounds|
  {
    if rounds != [] {
      var n := |rounds| - 1;
      LifeIsTruthful(truth, rounds[..n]);
      var o := Life(rounds[..n]);
      assert Plausible(truth, rounds[n]);
      RefreshStaysTruthful(truth, o.catalog, o.complete, rounds[n].directories, rounds[n].attempts);
    }
  }

  /** From nothing, through any refreshes, completed, cut short or failed, with directories
      appearing, changing and going in between: whenever one reports completion, the catalog
      is what a full scan of the directories of that moment finds, and nothing else. */
  lemma EveryLife(truth: Truth, rounds: seq<Round>, name: string)
    requires TruthNamed(truth) && rounds != [] && Matched(rounds) && forall i :: 0 <= i < |rounds| ==> Plausible(truth, rounds[i])
    ensures Truthful(truth, Life(rounds).catalog)
    ensures Life(rounds).result.Complete? ==>
              var c, now := Life(rounds).catalog, rounds[|rounds| - 1].directories;
              && (forall k :: 0 <= k < |now| ==> GamesOf(c.games, now[k].name) == Scanned(truth, now[k]))
              && (!Named(now, name) ==> GamesOf(c.games, name) == [])
  {
    LifeIsTruthful(truth, rounds);
    var n := |rounds| - 1;
    assert forall i :: 0 <= i < n ==> rounds[..n][i] == rounds[i];
    LifeIsTruthful(truth, rounds[..n]);
    var o := Life(rounds[..n]);
    assert Plausible(truth, rounds[n]);
    if Life(rounds).result.Complete? {
      CompleteIsFullScan(truth, o.catalog, o.complete, rounds[n].directories, rounds[n].attempts, name);
    }
  }
}
