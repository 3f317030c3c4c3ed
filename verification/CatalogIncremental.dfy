// catalog_incremental.c: bring the game catalog up to date by scanning only the platform
// directories whose recorded metadata no longer match, within a time budget.

module CatalogIncremental {
  import opened Options

  const MAX_GAMES := 65536

  datatype Meta = Meta(device: nat, inode: nat, mtime: nat, ctime: nat)

  datatype Game = Game(system: string, path: string)

  datatype Record = Record(name: string, meta: Meta, entries: nat)

  datatype Directory = Directory(name: string, meta: Meta)

  datatype Catalog = Catalog(games: seq<Game>, records: seq<Record>, cursor: string)

  /** What happens when a stale directory is tried: whether its turn comes in time, what a
      scan of it yields, and whether its metadata are still the same afterwards. */
  datatype Attempt = Attempt(inTime: bool, games: Option<seq<Game>>, entries: nat, stable: bool)

  predicate Succeeds(a: Attempt) {
    a.inTime && a.games.Some? && a.stable
  }

  // ----- lookups -----

  /** find_record */
  function FindRecord(records: seq<Record>, name: string): (r: Option<Record>)
    ensures r.Some? ==> r.value in records && r.value.name == name
    ensures r.None? ==> forall i :: 0 <= i < |records| ==> records[i].name != name
    decreases |records|
  {
    if records == [] then None
    else if records[0].name == name then Some(records[0])
    else FindRecord(records[1..], name)
  }

  /** record_matches */
  predicate Matches(record: Option<Record>, d: Directory) {
    record.Some? && record.value.meta == d.meta
  }

  /** The games of one platform, in order. */
  function GamesOf(games: seq<Game>, system: string): seq<Game>
    decreases |games|
  {
    if games == [] then []
    else
      var n := |games| - 1;
      GamesOf(games[..n], system) + (if games[n].system == system then [games[n]] else [])
  }

  // ----- one pass -----

  datatype Progress = Progress(games: seq<Game>, records: seq<Record>, cursor: string, blocked: bool, failed: bool)

  function Keep(p: Progress, games: seq<Game>, records: seq<Record>): Progress {
    if |p.games| + |games| > MAX_GAMES then p.(failed := true)
    else p.(games := p.games + games, records := p.records + records)
  }

  function RecordsOf(record: Option<Record>): seq<Record> {
    match record case None => [] case Some(r) => [r]
  }

  /** retain_old */
  function RetainOld(prior: Catalog, p: Progress, d: Directory): Progress {
    Keep(p, GamesOf(prior.games, d.name), RecordsOf(FindRecord(prior.records, d.name)))
  }

  /** What the loop does with one directory. */
  function Visit(prior: Catalog, p: Progress, d: Directory, a: Attempt): Progress {
    if p.failed then p
    else if Matches(FindRecord(prior.records, d.name), d) then RetainOld(prior, p, d)
    else if !p.blocked && Succeeds(a) then
      Keep(p, GamesOf(a.games.value, d.name), [Record(d.name, d.meta, a.entries)])
    else
      RetainOld(prior, p.(blocked := true, cursor := if p.cursor == [] then d.name else p.cursor), d)
  }

  function Walk(prior: Catalog, directories: seq<Directory>, attempts: seq<Attempt>): Progress
    requires |directories| == |attempts|
    decreases |directories|
  {
    if directories == [] then Progress([], [], [], false, false)
    else
      var n := |directories| - 1;
      Visit(prior, Walk(prior, directories[..n], attempts[..n]), directories[n], attempts[n])
  }

  datatype Result = Complete | Partial | Failed

  datatype Outcome = Outcome(result: Result, catalog: Catalog, complete: bool)

  predicate WarmUnchanged(prior: Catalog, directories: seq<Directory>) {
    |prior.records| == |directories|
    && forall i :: 0 <= i < |directories| ==> Matches(FindRecord(prior.records, directories[i].name), directories[i])
  }

  /** catalog_snapshot_refresh, from the loaded snapshot (empty when there is none). */
  function Refresh(prior: Catalog, complete: bool, directories: seq<Directory>, attempts: seq<Attempt>): Outcome
    requires |directories| == |attempts|
  {
    if complete && WarmUnchanged(prior, directories) then Outcome(Complete, prior, true)
    else
      var p := Walk(prior, directories, attempts);
      if p.failed then Outcome(Failed, Catalog([], [], []), false)
      else Outcome(if p.blocked then Partial else Complete, Catalog(p.games, p.records, p.cursor), !p.blocked)
  }

  // ----- what is assumed -----

  /** The games a full scan of a directory with these metadata finds. */
  type Truth = (string, Meta) -> seq<Game>

  predicate AllFrom(games: seq<Game>, system: string) {
    forall i :: 0 <= i < |games| ==> games[i].system == system
  }

  ghost predicate TruthNamed(truth: Truth) {
    forall name: string, meta: Meta :: AllFrom(truth(name, meta), name)
  }

  predicate DistinctDirectories(directories: seq<Directory>) {
    && (forall i, j :: 0 <= i < j < |directories| ==> directories[i].name != directories[j].name)
    && (forall i :: 0 <= i < |directories| ==> directories[i].name != [])
  }

  /** A scan that finishes with the metadata unchanged found what is there. */
  ghost predicate Honest(truth: Truth, directories: seq<Directory>, attempts: seq<Attempt>)
    requires |directories| == |attempts|
  {
    forall i :: 0 <= i < |attempts| && Succeeds(attempts[i]) ==>
      attempts[i].games.value == truth(directories[i].name, directories[i].meta)
  }

  predicate DistinctRecords(records: seq<Record>) {
    forall i, j :: 0 <= i < j < |records| ==> records[i].name != records[j].name
  }

  predicate HasRecord(records: seq<Record>, name: string) {
    exists i :: 0 <= i < |records| && records[i].name == name
  }

  /** A catalog that tells the truth: each record stands for exactly the games a scan of
      the platform with those metadata finds, and there are no games without a record. */
  ghost predicate Truthful(truth: Truth, c: Catalog) {
    && DistinctRecords(c.records)
    && (forall i :: 0 <= i < |c.records| ==> GamesOf(c.games, c.records[i].name) == truth(c.records[i].name, c.records[i].meta))
    && (forall i :: 0 <= i < |c.games| ==> HasRecord(c.records, c.games[i].system))
  }

  /** What a full scan finds for a directory. */
  function Scanned(truth: Truth, d: Directory): seq<Game> {
    truth(d.name, d.meta)
  }

  /** The directory is up to date in the catalog. */
  predicate Fresh(c: Catalog, d: Directory) {
    Matches(FindRecord(c.records, d.name), d)
  }
}
