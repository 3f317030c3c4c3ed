// catalog_apply_filters: which games are shown, in what order, and which one stays selected.

module CatalogFilters {
  import opened Options
  import opened CatalogSort

  datatype Entry = Entry(title: string, system: string, core: string, favorite: bool, recent: bool, lastPlayed: int)

  /** The filters; 0 means no filter by system or core. */
  datatype Filters = Filters(systems: seq<string>, cores: seq<string>, system: nat, core: nat, favoritesOnly: bool,
                             recentOnly: bool, allSystems: bool, appsOnly: bool, rpgOnly: bool, query: string)

  datatype Ui = Ui(games: seq<Entry>, filters: Filters, visible: seq<nat>, index: nat)

  // ----- visibility -----

  function Lower(c: char): char {
    if 'A' <= c <= 'Z' then (c as int - 'A' as int + 'a' as int) as char else c
  }

  predicate SameText(a: string, b: string) {
    |a| == |b| && forall i :: 0 <= i < |a| ==> Lower(a[i]) == Lower(b[i])
  }

  predicate FoundAt(text: string, query: string, at: nat) {
    at + |query| <= |text| && SameText(text[at..at + |query|], query)
  }

  /** contains_text */
  predicate ContainsText(text: string, query: string) {
    query == [] || exists at :: 0 <= at < |text| && FoundAt(text, query, at)
  }

  predicate IsRpg(system: string) {
    SameText(system, "EASYRPG") || SameText(system, "RPGMV") || SameText(system, "RPGMZ")
  }

  /** clamp_filter_indices */
  function Clamped(f: Filters): (r: Filters)
    ensures r.system <= |r.systems| && r.core <= |r.cores|
  {
    f.(system := if f.system > |f.systems| then 0 else f.system, core := if f.core > |f.cores| then 0 else f.core)
  }

  /** game_is_visible */
  predicate IsVisible(f: Filters, g: Entry)
    requires f.system <= |f.systems| && f.core <= |f.cores|
  {
    if f.appsOnly then SameText(g.system, "APPS")
    else
      && !SameText(g.system, "APPS")
      && (f.rpgOnly ==> IsRpg(g.system))
      && (!f.rpgOnly && f.system > 0 && !(f.allSystems && f.query != []) ==> g.system == f.systems[f.system - 1])
      && (!f.rpgOnly && f.core > 0 ==> g.core == f.cores[f.core - 1])
      && (f.favoritesOnly ==> g.favorite)
      && (f.recentOnly ==> g.recent)
      && ContainsText(g.title, f.query)
  }

  // ----- what each filter does -----

  /** The games page with no filter set. */
  predicate Unfiltered(f: Filters) {
    !f.appsOnly && !f.rpgOnly && f.system == 0 && f.core == 0 && !f.favoritesOnly && !f.recentOnly && f.query == []
  }

  /** Two characters are alike if they are the same, or the same letter in two cases. */
  lemma AlikeExactly(c: char, d: char)
    ensures Lower(c) == Lower(d) <==>
            c == d || ('a' <= c <= 'z' && c as int - d as int == 32) || ('a' <= d <= 'z' && d as int - c as int == 32)
  {
  }

  /** The role-playing systems, in either case. */
  lemma RpgSystems(system: string)
    ensures IsRpg(system) <==> SameText(system, "easyrpg") || SameText(system, "rpgmv") || SameText(system, "rpgmz")
  {
    SameCase(system, "EASYRPG", "easyrpg");
    SameCase(system, "RPGMV", "rpgmv");
    SameCase(system, "RPGMZ", "rpgmz");
  }

  lemma SameCase(s: string, a: string, b: string)
    requires SameText(a, b)
    ensures SameText(s, a) <==> SameText(s, b)
  {
  }

  /** The apps page shows the apps whatever the filters, and no other page shows them; with
      no filter a game is shown if and only if it is not an app. */
  lemma AppsApart(f: Filters, g: Entry)
    requires f.system <= |f.systems| && f.core <= |f.cores|
    ensures f.appsOnly ==> (IsVisible(f, g) <==> SameText(g.system, "apps"))
    ensures !f.appsOnly && IsVisible(f, g) ==> !SameText(g.system, "apps")
    ensures Unfiltered(f) ==> (IsVisible(f, g) <==> !SameText(g.system, "apps"))
  {
    assert Lower('A') == Lower('a') && Lower('P') == Lower('p') && Lower('S') == Lower('s');
  }

  /** Each filter of a games page takes away exactly the games it says, whatever the others
      are set to. */
  lemma EachFilterNarrows(f: Filters, g: Entry)
    requires f.system <= |f.systems| && f.core <= |f.cores| && !f.appsOnly
    ensures f.favoritesOnly ==> (IsVisible(f, g) <==> IsVisible(f.(favoritesOnly := false), g) && g.favorite)
    ensures f.recentOnly ==> (IsVisible(f, g) <==> IsVisible(f.(recentOnly := false), g) && g.recent)
    ensures f.rpgOnly ==> (IsVisible(f, g) <==> IsVisible(f.(rpgOnly := false, system := 0, core := 0), g) && IsRpg(g.system))
    ensures !f.rpgOnly && f.core > 0 ==> (IsVisible(f, g) <==> IsVisible(f.(core := 0), g) && g.core == f.cores[f.core - 1])
    ensures !f.rpgOnly && f.system > 0 && (!f.allSystems || f.query == []) ==>
              (IsVisible(f, g) <==> IsVisible(f.(system := 0), g) && g.system == f.systems[f.system - 1])
    ensures f.allSystems && f.query != [] ==> (IsVisible(f, g) <==> IsVisible(f.(system := 0), g))
    ensures f.query != [] && (f.system == 0 || f.rpgOnly) ==>
              (IsVisible(f, g) <==> IsVisible(f.(query := []), g) && ContainsText(g.title, f.query))
  {
  }

  /** The role-playing page ignores the filters by system and core. */
  lemma RpgPageIgnores(f: Filters, system: nat, core: nat, g: Entry)
    requires f.system <= |f.systems| && f.core <= |f.cores| && system <= |f.systems| && core <= |f.cores| && f.rpgOnly
    ensures IsVisible(f.(system := system, core := core), g) == IsVisible(f, g)
  {
  }

  /** The ids of the first n games that pass, in order. */
  function PassingIds(f: Filters, games: seq<Entry>, n: nat): seq<nat>
    requires f.system <= |f.systems| && f.core <= |f.cores| && n <= |games|
  {
    if n == 0 then []
    else PassingIds(f, games, n - 1) + (if IsVisible(f, games[n - 1]) then [n - 1] else [])
  }

  function LastPlayed(games: seq<Entry>): Played {
    (id: nat) => if id < |games| then games[id].lastPlayed else 0
  }

  function Shown(f: Filters, games: seq<Entry>): seq<nat>
    requires f.system <= |f.systems| && f.core <= |f.cores|
  {
    var ids := PassingIds(f, games, |games|);
    if f.recentOnly then BottomUp(LastPlayed(games), ids, 1) else ids
  }

  /** Where an id stands, or None. */
  function IndexOf(ids: seq<nat>, id: nat): (r: Option<nat>)
    ensures r.Some? ==> r.value < |ids| && ids[r.value] == id && id !in ids[..r.value]
    ensures r.None? ==> id !in ids
    decreases |ids|
  {
    if ids == [] then None
    else
      var n := |ids| - 1;
      match IndexOf(ids[..n], id)
      case Some(i) => Some(i)
      case None => if ids[n] == id then (assert ids[..n] == ids[..n]; Some(n)) else None
  }

  function Selected(u: Ui): Option<nat> {
    if u.index < |u.visible| then Some(u.visible[u.index]) else None
  }

  /** catalog_apply_filters */
  function Apply(u: Ui): Ui {
    var f := Clamped(u.filters);
    var shown := Shown(f, u.games);
    var index := match Selected(u)
                 case None => 0
                 case Some(id) => (match IndexOf(shown, id) case None => 0 case Some(i) => i);
    Ui(u.games, f, shown, index)
  }

  // ----- exactly the games that pass -----

  predicate Ascending(ids: seq<nat>) {
    forall i, j :: 0 <= i < j < |ids| ==> ids[i] < ids[j]
  }

  lemma {:induction false} PassingIdsExactly(f: Filters, games: seq<Entry>, n: nat)
    requires f.system <= |f.systems| && f.core <= |f.cores| && n <= |games|
    ensures var ids := PassingIds(f, games, n);
            && Ascending(ids) && (forall i :: 0 <= i < |ids| ==> ids[i] < n)
            && forall id: nat :: id in ids <==> id < n && IsVisible(f, games[id])
    decreases n
  {
    if n > 0 {
      PassingIdsExactly(f, games, n - 1);
    }
  }

  lemma AscendingIsRanked(ids: seq<nat>)
    requires Ascending(ids)
    ensures Ranked((id: nat) => id, ids)
  {
  }

  predicate NoRepeats(ids: seq<nat>) {
    forall i, j :: 0 <= i < j < |ids| ==> ids[i] != ids[j]
  }

  lemma SortedHasNoRepeats(played: Played, rank: Rank, ids: seq<nat>)
    requires Sorted(played, rank, ids)
    ensures NoRepeats(ids)
  {
    forall i, j | 0 <= i < j < |ids| ensures ids[i] != ids[j] {
      assert Before(played, rank, ids[i], ids[j]);
    }
  }

  /** The list shown has exactly the ids of the games that pass the filters, each once; the
      recent view has them most recent first, ties in catalog order, and any other view in
      catalog order. */
  lemma ShownExactly(f: Filters, games: seq<Entry>)
    requires f.system <= |f.systems| && f.core <= |f.cores|
    ensures var ids := Shown(f, games);
            && NoRepeats(ids)
            && (forall id: nat :: id in ids <==> id < |games| && IsVisible(f, games[id]))
            && (if f.recentOnly then Sorted(LastPlayed(games), (id: nat) => id, ids) else Ascending(ids))
  {
    var ids, rank := PassingIds(f, games, |games|), (id: nat) => id;
    PassingIdsExactly(f, games, |games|);
    if f.recentOnly {
      var played := LastPlayed(games);
      AscendingIsRanked(ids);
      SortIsStable(played, rank, ids);
      SortedHasNoRepeats(played, rank, BottomUp(played, ids, 1));
      SameMembers(BottomUp(played, ids, 1), ids);
      assert Sorted(played, (id: nat) => id, Shown(f, games)) by {
        assert forall x: nat :: rank(x) == x;
      }
    }
  }

  /** In the recent view a game played later comes first, and of two played at the same time
      the one that comes first in the catalog. */
  lemma RecentFirst(f: Filters, games: seq<Entry>, i: nat, j: nat)
    requires f.system <= |f.systems| && f.core <= |f.cores| && f.recentOnly && i < j < |Shown(f, games)|
    ensures var a, b := Shown(f, games)[i], Shown(f, games)[j];
            && a < |games| && b < |games|
            && (games[a].lastPlayed > games[b].lastPlayed || (games[a].lastPlayed == games[b].lastPlayed && a < b))
  {
    ShownExactly(f, games);
    var a, b := Shown(f, games)[i], Shown(f, games)[j];
    assert a in Shown(f, games) && b in Shown(f, games);
    assert Before(LastPlayed(games), (id: nat) => id, a, b);
  }

  lemma SameMembers(a: seq<nat>, b: seq<nat>)
    requires multiset(a) == multiset(b)
    ensures forall id: nat :: id in a <==> id in b
  {
    forall id: nat ensures id in a <==> id in b {
      assert id in a <==> id in multiset(a);
      assert id in b <==> id in multiset(b);
    }
  }

  // ----- the selection -----

  /** A selected game that is still shown stays selected; otherwise the first entry is. */
  lemma SelectionIsKept(u: Ui)
    ensures var v := Apply(u);
            match Selected(u)
            case Some(id) => if id in v.visible then Selected(v) == Some(id) else v.index == 0
            case None => v.index == 0
  {
  }

  lemma IndexOfAt(ids: seq<nat>, i: nat)
    requires NoRepeats(ids) && i < |ids|
    ensures IndexOf(ids, ids[i]) == Some(i)
  {
    var r := IndexOf(ids, ids[i]);
    assert r.Some?;
  }

  /** Applying the same filters again changes nothing. */
  lemma ApplyTwice(u: Ui)
    ensures Apply(Apply(u)) == Apply(u)
  {
    var v := Apply(u);
    assert Clamped(v.filters) == v.filters;
    ShownExactly(v.filters, u.games);
    if v.index < |v.visible| {
      IndexOfAt(v.visible, v.index);
    }
  }

  // ----- as it runs -----

  /** contains_text's loops. */
  method TextContains(text: string, query: string) returns (found: bool)
    ensures found <==> ContainsText(text, query)
  {
    if query == [] { return true; }
    for start := 0 to |text|
      invariant forall at :: 0 <= at < start ==> !FoundAt(text, query, at)
    {
      var offset := 0;
      while offset < |query| && start + offset < |text| && Lower(text[start + offset]) == Lower(query[offset])
        invariant offset <= |query| && start + offset <= |text|
        invariant forall k :: 0 <= k < offset ==> Lower(text[start + k]) == Lower(query[k])
      {
        offset := offset + 1;
      }
      if offset == |query| {
        assert FoundAt(text, query, start);
        return true;
      }
      NotFound(text, query, start, offset);
    }
    found := false;
  }

  lemma NotFound(text: string, query: string, start: nat, offset: nat)
    requires offset < |query| && start + offset <= |text|
    requires start + offset == |text| || Lower(text[start + offset]) != Lower(query[offset])
    ensures !FoundAt(text, query, start)
  {
    if start + |query| <= |text| {
      assert text[start..start + |query|][offset] == text[start + offset];
    }
  }

  class View {
    const games: seq<Entry>
    var filters: Filters
    var visible: array<nat>
    var index: nat

    ghost function Abs(): Ui
      reads this, visible
    {
      Ui(games, filters, visible[..], index)
    }

    constructor (games: seq<Entry>, filters: Filters)
      ensures Abs() == Ui(games, filters, [], 0) && fresh(visible)
    {
      this.games, this.filters, index := games, filters, 0;
      visible := new nat[0];
    }

    /** The ids that pass, and where the selected one stands among them. */
    method Filter(selected: Option<nat>) returns (ids: seq<nat>, at: Option<nat>)
      requires filters.system <= |filters.systems| && filters.core <= |filters.cores|
      ensures ids == PassingIds(filters, games, |games|)
      ensures at == match selected case None => None case Some(id) => IndexOf(ids, id)
    {
      ids, at := [], None;
      for i := 0 to |games|
        invariant ids == PassingIds(filters, games, i)
        invariant at == match selected case None => None case Some(id) => IndexOf(ids, id)
      {
        if IsVisible(filters, games[i]) {
          PassingIdsExactly(filters, games, i);
          assert (ids + [i])[..|ids|] == ids;
          if selected == Some(i) { at := Some(|ids|); }
          ids := ids + [i];
        }
      }
    }

    /** The lookup that sorting makes necessary. */
    method Locate(id: nat) returns (at: Option<nat>)
      ensures at == IndexOf(visible[..], id)
    {
      at := None;
      for i := 0 to visible.Length
        invariant at == IndexOf(visible[..i], id)
      {
        assert visible[..i + 1][..i] == visible[..i];
        if at.None? && visible[i] == id { at := Some(i); }
      }
      assert visible[..visible.Length] == visible[..];
    }

    /** catalog_apply_filters */
    method ApplyFilters()
      modifies this
      ensures Abs() == Apply(old(Abs())) && fresh(visible)
    {
      var selected := if index < visible.Length then Some(visible[index]) else None;
      filters := Clamped(filters);
      var ids, at := Filter(selected);
      visible := new nat[|ids|](i requires 0 <= i < |ids| => ids[i]);
      assert visible[..] == ids;
      if filters.recentOnly {
        SortVisibleRecent(LastPlayed(games), visible);
        SameMembersSorted(ids);
        if at.Some? { at := Locate(selected.value); }
      }
      index := if at.Some? then at.value else 0;
    }

    lemma SameMembersSorted(ids: seq<nat>)
      requires filters.system <= |filters.systems| && filters.core <= |filters.cores|
      requires ids == PassingIds(filters, games, |games|)
      ensures forall id: nat :: id in ids <==> id in BottomUp(LastPlayed(games), ids, 1)
    {
      PassingIdsExactly(filters, games, |games|);
      AscendingIsRanked(ids);
      SortIsStable(LastPlayed(games), (id: nat) => id, ids);
      SameMembers(BottomUp(LastPlayed(games), ids, 1), ids);
    }
  }
}
