// catalog_incremental.c as it runs: games and records are moved out of the loaded catalog
// into the new one, leaving holes behind, in a loop with the blocked flag and the cursor.

module CatalogService {
  import opened Options
  import opened CatalogIncremental
  import opened CatalogRefresh

  /** The games still in a table with holes. */
  function Present(slots: seq<Option<Game>>): seq<Game>
    decreases |slots|
  {
    if slots == [] then []
    else
      var n := |slots| - 1;
      Present(slots[..n]) + (match slots[n] case None => [] case Some(g) => [g])
  }

  function Holes(slots: seq<Option<Game>>, system: string): (r: seq<Option<Game>>)
    ensures |r| == |slots|
    ensures forall i :: 0 <= i < |slots| ==> r[i] == if slots[i].Some? && slots[i].value.system == system then None else slots[i]
  {
    seq(|slots|, i requires 0 <= i < |slots| => if slots[i].Some? && slots[i].value.system == system then None else slots[i])
  }

  /** Moving one platform out leaves the others as they were. */
  lemma {:induction false} OthersStay(slots: seq<Option<Game>>, system: string, name: string)
    ensures GamesOf(Present(Holes(slots, system)), name)
         == if name == system then [] else GamesOf(Present(slots), name)
    decreases |slots|
  {
    if slots != [] {
      var n := |slots| - 1;
      OthersStay(slots[..n], system, name);
      var h := Holes(slots, system);
      assert h[..n] == Holes(slots[..n], system);
      GamesOfConcat(Present(slots[..n]), Present1(slots[n]), name);
      GamesOfConcat(Present(h[..n]), Present1(h[n]), name);
      OneGame(slots[n], name);
      OneGame(h[n], name);
    }
  }

  function Present1(slot: Option<Game>): seq<Game> {
    match slot case None => [] case Some(g) => [g]
  }

  lemma OneGame(slot: Option<Game>, name: string)
    ensures GamesOf(Present1(slot), name) == if slot.Some? && slot.value.system == name then [slot.value] else []
  {
    if slot.Some? {
      assert [slot.value][..0] == [];
    }
  }

  lemma PresentStep(slots: seq<Option<Game>>, i: nat, system: string)
    requires i < |slots|
    ensures GamesOf(Present(slots[..i + 1]), system)
         == GamesOf(Present(slots[..i]), system) + (if slots[i].Some? && slots[i].value.system == system then [slots[i].value] else [])
  {
    assert slots[..i + 1][..i] == slots[..i];
    GamesOfConcat(Present(slots[..i]), Present1(slots[i]), system);
    OneGame(slots[i], system);
  }

  /** move_games: into `games`, as far as there is room; None on running out of it. */
  method MoveGames(source: array<Option<Game>>, system: string, games: seq<Game>) returns (r: Option<seq<Game>>)
    requires |games| <= MAX_GAMES
    modifies source
    ensures var moved := GamesOf(Present(old(source[..])), system);
            r == if |games| + |moved| <= MAX_GAMES then Some(games + moved) else None
    ensures r.Some? ==> source[..] == Holes(old(source[..]), system)
  {
    ghost var before := source[..];
    var taken: seq<Game> := [];
    for i := 0 to source.Length
      invariant taken == GamesOf(Present(before[..i]), system) && |games| + |taken| <= MAX_GAMES
      invariant Emptied(before, source[..], system, i)
    {
      PresentStep(before, i, system);
      EmptiedAdvances(before, source[..], system, i);
      if source[i].Some? && source[i].value.system == system {
        if |games| + |taken| >= MAX_GAMES {
          FewerBefore(before, i + 1, system);
          return None;
        }
        taken := taken + [source[i].value];
        source[i] := None;
      }
    }
    assert before[..source.Length] == before;
    r := Some(games + taken);
  }

  /** Up to `i` the platform's games are gone; the rest is as before. */
  ghost predicate Emptied(before: seq<Option<Game>>, now: seq<Option<Game>>, system: string, i: nat) {
    i <= |before| && now == Holes(before, system)[..i] + before[i..]
  }

  lemma EmptiedAdvances(before: seq<Option<Game>>, now: seq<Option<Game>>, system: string, i: nat)
    requires Emptied(before, now, system, i) && i < |before|
    ensures |now| == |before| && now[i] == before[i]
    ensures Emptied(before, now[i := Holes(before, system)[i]], system, i + 1)
    ensures Holes(before, system)[i] == before[i] ==> Emptied(before, now, system, i + 1)
  {
    assert now[i := now[i]] == now;
  }

  lemma {:induction false} FewerBefore(slots: seq<Option<Game>>, i: nat, system: string)
    requires i <= |slots|
    ensures |GamesOf(Present(slots[..i]), system)| <= |GamesOf(Present(slots), system)|
    decreases |slots| - i
  {
    if i == |slots| {
      assert slots[..i] == slots;
    } else {
      PresentStep(slots, i, system);
      FewerBefore(slots, i + 1, system);
    }
  }

  // ----- records with holes -----

  /** find_record: the first record of that name still in its slot. */
  function RecordIn(slots: seq<Option<Record>>, name: string): Option<Record>
    decreases |slots|
  {
    if slots == [] then None
    else if slots[0].Some? && slots[0].value.name == name then slots[0]
    else RecordIn(slots[1..], name)
  }

  /** Taking out one record does not matter to other names. */
  lemma {:induction false} OtherRecordsStay(slots: seq<Option<Record>>, k: nat, name: string)
    requires k < |slots| && slots[k].Some? && slots[k].value.name != name
    ensures RecordIn(slots[k := None], name) == RecordIn(slots, name)
    decreases |slots|
  {
    if k > 0 {
      assert slots[k := None][1..] == slots[1..][k - 1 := None];
      OtherRecordsStay(slots[1..], k - 1, name);
    } else {
      assert slots[0 := None][1..] == slots[1..];
    }
  }

  lemma {:induction false} AllRecords(records: seq<Record>, slots: seq<Option<Record>>, name: string)
    requires |records| == |slots| && forall i :: 0 <= i < |records| ==> slots[i] == Some(records[i])
    ensures RecordIn(slots, name) == FindRecord(records, name)
    decreases |records|
  {
    if records != [] {
      AllRecords(records[1..], slots[1..], name);
    }
  }

  method FindSlot(slots: array<Option<Record>>, name: string) returns (at: Option<nat>)
    ensures at.None? ==> RecordIn(slots[..], name) == None
    ensures at.Some? ==> at.value < slots.Length && slots[at.value].Some? && slots[at.value].value.name == name
                         && RecordIn(slots[..], name) == slots[at.value]
  {
    for i := 0 to slots.Length
      invariant RecordIn(slots[i..], name) == RecordIn(slots[..], name)
    {
      if slots[i].Some? && slots[i].value.name == name { return Some(i); }
      assert slots[i..][1..] == slots[i + 1..];
    }
    at := None;
  }

  /** The catalog under construction. */
  class Rebuild {
    const source: array<Option<Game>>
    const records: array<Option<Record>>
    var games: seq<Game>
    var kept: seq<Record>
    var cursor: string
    var blocked: bool
    var failed: bool

    ghost function So(): Progress
      reads this
    {
      Progress(games, kept, cursor, blocked, failed)
    }

    /** The loaded games and the record of this platform are all still in place. */
    ghost predicate Untouched(prior: Catalog, name: string)
      reads source, records
    {
      && GamesOf(Present(source[..]), name) == GamesOf(prior.games, name)
      && RecordIn(records[..], name) == FindRecord(prior.records, name)
    }

    /** What was there of all other platforms still is. */
    twostate predicate OthersUntouched(prior: Catalog, name: string)
      reads source, records
    {
      forall other: string :: other != name && old(Untouched(prior, other)) ==> Untouched(prior, other)
    }

    constructor (source: array<Option<Game>>, records: array<Option<Record>>)
      ensures this.source == source && this.records == records && So() == Progress([], [], [], false, false)
    {
      this.source, this.records := source, records;
      games, kept, cursor, blocked, failed := [], [], [], false, false;
    }

    /** move_record */
    method MoveRecord(d: Directory)
      modifies this`kept, records
      ensures kept == old(kept) + RecordsOf(old(RecordIn(records[..], d.name)))
      ensures forall name: string :: name != d.name ==> RecordIn(records[..], name) == old(RecordIn(records[..], name))
    {
      var at := FindSlot(records, d.name);
      if at.None? { return; }
      ghost var before := records[..];
      kept := kept + [records[at.value].value];
      records[at.value] := None;
      assert records[..] == before[at.value := None];
      forall name: string | name != d.name ensures RecordIn(records[..], name) == RecordIn(before, name) {
        OtherRecordsStay(before, at.value, name);
      }
    }

    /** retain_old */
    method Retain(d: Directory, ghost prior: Catalog)
      requires Untouched(prior, d.name) && |games| <= MAX_GAMES && !failed
      modifies this, source, records
      ensures So() == RetainOld(prior, old(So()), d) && |games| <= MAX_GAMES
      ensures !failed ==> OthersUntouched(prior, d.name)
    {
      ghost var slots := source[..];
      var moved := MoveGames(source, d.name, games);
      if moved.None? {
        failed := true;
        return;
      }
      games := moved.value;
      MoveRecord(d);
      forall other: string | other != d.name && old(Untouched(prior, other)) ensures Untouched(prior, other) {
        OthersStay(slots, d.name, other);
      }
    }

    /** One turn of the loop. */
    method VisitDirectory(d: Directory, a: Attempt, ghost prior: Catalog)
      requires Untouched(prior, d.name) && |games| <= MAX_GAMES && !failed
      modifies this, source, records
      ensures So() == Visit(prior, old(So()), d, a) && |games| <= MAX_GAMES
      ensures !failed ==> OthersUntouched(prior, d.name)
    {
      var at := FindSlot(records, d.name);
      if Matches(if at.Some? then records[at.value] else None, d) {
        Retain(d, prior);
        return;
      }
      if !blocked && Succeeds(a) {
        var found := GamesOf(a.games.value, d.name);
        if |games| + |found| > MAX_GAMES {
          failed := true;
        } else {
          games := games + found;
          kept := kept + [Record(d.name, d.meta, a.entries)];
        }
        return;
      }
      blocked := true;
      if cursor == [] { cursor := d.name; }
      Retain(d, prior);
    }

    /** The loop of catalog_snapshot_refresh. */
    method VisitAll(directories: seq<Directory>, attempts: seq<Attempt>, ghost prior: Catalog)
      requires |directories| == |attempts| && DistinctDirectories(directories)
      requires forall k :: 0 <= k < |directories| ==> Untouched(prior, directories[k].name)
      requires So() == Progress([], [], [], false, false)
      modifies this, source, records
      ensures failed == Walk(prior, directories, attempts).failed
      ensures !failed ==> So() == Walk(prior, directories, attempts)
    {
      for i := 0 to |directories|
        invariant So() == Walk(prior, directories[..i], attempts[..i]) && !failed && |games| <= MAX_GAMES
        invariant forall k :: i <= k < |directories| ==> Untouched(prior, directories[k].name)
      {
        assert directories[..i + 1][..i] == directories[..i] && attempts[..i + 1][..i] == attempts[..i];
        label before:
        VisitDirectory(directories[i], attempts[i], prior);
        if failed {
          FailureLasts(prior, directories, attempts, i + 1);
          return;
        }
        assert OthersUntouched@before(prior, directories[i].name);
      }
      assert directories[..|directories|] == directories && attempts[..|attempts|] == attempts;
    }
  }

  lemma {:induction false} FailureLasts(prior: Catalog, directories: seq<Directory>, attempts: seq<Attempt>, i: nat)
    requires |directories| == |attempts| && i <= |directories| && Walk(prior, directories[..i], attempts[..i]).failed
    ensures Walk(prior, directories, attempts).failed
    decreases |directories| - i
  {
    if i == |directories| {
      assert directories[..i] == directories && attempts[..i] == attempts;
    } else {
      assert directories[..i + 1][..i] == directories[..i] && attempts[..i + 1][..i] == attempts[..i];
      FailureLasts(prior, directories, attempts, i + 1);
    }
  }

  /** catalog_snapshot_refresh after the snapshot is loaded and the directories listed. */
  method RefreshCatalog(prior: Catalog, complete: bool, directories: seq<Directory>, attempts: seq<Attempt>) returns (o: Outcome)
    requires |directories| == |attempts| && DistinctDirectories(directories)
    ensures o == Refresh(prior, complete, directories, attempts)
  {
    if complete && WarmUnchanged(prior, directories) { return Outcome(Complete, prior, true); }
    var source := new Option<Game>[|prior.games|](i requires 0 <= i < |prior.games| => Some(prior.games[i]));
    AllPresent(prior.games, source[..]);
    var records := new Option<Record>[|prior.records|](i requires 0 <= i < |prior.records| => Some(prior.records[i]));
    forall k | 0 <= k < |directories| ensures RecordIn(records[..], directories[k].name) == FindRecord(prior.records, directories[k].name) {
      AllRecords(prior.records, records[..], directories[k].name);
    }
    var r := new Rebuild(source, records);
    r.VisitAll(directories, attempts, prior);
    if r.failed { return Outcome(Failed, Catalog([], [], []), false); }
    o := Outcome(if r.blocked then Partial else Complete, Catalog(r.games, r.kept, r.cursor), !r.blocked);
  }

  lemma {:induction false} AllPresent(games: seq<Game>, slots: seq<Option<Game>>)
    requires |games| == |slots| && forall i :: 0 <= i < |games| ==> slots[i] == Some(games[i])
    ensures Present(slots) == games
    decreases |games|
  {
    if games != [] {
      var n := |games| - 1;
      AllPresent(games[..n], slots[..n]);
      assert games == games[..n] + [games[n]];
    }
  }
}
