// The bottom-up merge sort of catalog.c: two buffers take turns as source and destination,
// and runs double in width until one run is left.

module CatalogSort {
  /** When each game was last played. */
  type Played = nat -> int

  /** The order the entries stood in before sorting, for stability. */
  type Rank = nat -> int

  /** More recent first; among equals, the earlier entry. */
  predicate Before(played: Played, rank: Rank, x: nat, y: nat) {
    played(x) > played(y) || (played(x) == played(y) && rank(x) < rank(y))
  }

  predicate Sorted(played: Played, rank: Rank, s: seq<nat>) {
    forall i, j :: 0 <= i < j < |s| ==> Before(played, rank, s[i], s[j])
  }

  predicate RanksBelow(rank: Rank, a: seq<nat>, b: seq<nat>) {
    forall i, j :: 0 <= i < |a| && 0 <= j < |b| ==> rank(a[i]) < rank(b[j])
  }

  predicate Ranked(rank: Rank, s: seq<nat>) {
    forall i, j :: 0 <= i < j < |s| ==> rank(s[i]) < rank(s[j])
  }

  // ----- the algorithm on values -----

  function Merge(played: Played, a: seq<nat>, b: seq<nat>): (r: seq<nat>)
    ensures |r| == |a| + |b|
    decreases |a| + |b|
  {
    if a == [] then b
    else if b == [] then a
    else if played(a[0]) >= played(b[0]) then [a[0]] + Merge(played, a[1..], b)
    else [b[0]] + Merge(played, a, b[1..])
  }

  function Least(a: nat, b: nat): nat {
    if a < b then a else b
  }

  /** One pass: neighbouring runs of `width` are merged. */
  function MergePass(played: Played, s: seq<nat>, width: nat): (r: seq<nat>)
    requires width > 0
    ensures |r| == |s|
    decreases |s|
  {
    if s == [] then []
    else
      var middle := Least(width, |s|);
      var right := Least(middle + width, |s|);
      Merge(played, s[..middle], s[middle..right]) + MergePass(played, s[right..], width)
  }

  /** The passes from this width on. */
  function BottomUp(played: Played, s: seq<nat>, width: nat): (r: seq<nat>)
    requires width > 0
    ensures |r| == |s|
    decreases |s| - width
  {
    if width >= |s| then s
    else
      var t := MergePass(played, s, width);
      if width > |s| / 2 then t else BottomUp(played, t, width * 2)
  }

  // ----- it sorts -----

  lemma Uncons(a: seq<nat>)
    requires a != []
    ensures multiset(a) == multiset([a[0]]) + multiset(a[1..])
  {
    assert a == [a[0]] + a[1..];
  }

  lemma {:induction false} MergeKeeps(played: Played, a: seq<nat>, b: seq<nat>)
    ensures multiset(Merge(played, a, b)) == multiset(a) + multiset(b)
    decreases |a| + |b|
  {
    if a == [] || b == [] {
    } else if played(a[0]) >= played(b[0]) {
      MergeKeeps(played, a[1..], b);
      Uncons(a);
    } else {
      MergeKeeps(played, a, b[1..]);
      Uncons(b);
    }
  }

  /** Everything merged comes from one of the two runs. */
  lemma {:induction false} MergedFrom(played: Played, a: seq<nat>, b: seq<nat>, k: nat)
    requires k < |a| + |b|
    ensures Merge(played, a, b)[k] in a || Merge(played, a, b)[k] in b
    decreases |a| + |b|
  {
    if a != [] && b != [] && k > 0 {
      if played(a[0]) >= played(b[0]) {
        MergedFrom(played, a[1..], b, k - 1);
      } else {
        MergedFrom(played, a, b[1..], k - 1);
      }
    }
  }

  /** What stands before both runs stands before their merge. */
  lemma BeforeMerged(played: Played, rank: Rank, x: nat, a: seq<nat>, b: seq<nat>)
    requires forall i :: 0 <= i < |a| ==> Before(played, rank, x, a[i])
    requires forall i :: 0 <= i < |b| ==> Before(played, rank, x, b[i])
    ensures forall k :: 0 <= k < |Merge(played, a, b)| ==> Before(played, rank, x, Merge(played, a, b)[k])
  {
    forall k | 0 <= k < |Merge(played, a, b)| ensures Before(played, rank, x, Merge(played, a, b)[k]) {
      MergedFrom(played, a, b, k);
    }
  }

  lemma SortedCons(played: Played, rank: Rank, x: nat, s: seq<nat>)
    requires Sorted(played, rank, s) && forall k :: 0 <= k < |s| ==> Before(played, rank, x, s[k])
    ensures Sorted(played, rank, [x] + s)
  {
  }

  lemma {:induction false} MergeSorts(played: Played, rank: Rank, a: seq<nat>, b: seq<nat>)
    requires Sorted(played, rank, a) && Sorted(played, rank, b) && RanksBelow(rank, a, b)
    ensures Sorted(played, rank, Merge(played, a, b))
    decreases |a| + |b|
  {
    if a != [] && b != [] {
      if played(a[0]) >= played(b[0]) {
        MergeSorts(played, rank, a[1..], b);
        FirstIsBefore(played, rank, a, b);
        BeforeMerged(played, rank, a[0], a[1..], b);
        SortedCons(played, rank, a[0], Merge(played, a[1..], b));
      } else {
        MergeSorts(played, rank, a, b[1..]);
        SecondIsBefore(played, rank, a, b);
        BeforeMerged(played, rank, b[0], a, b[1..]);
        SortedCons(played, rank, b[0], Merge(played, a, b[1..]));
      }
    }
  }

  lemma FirstIsBefore(played: Played, rank: Rank, a: seq<nat>, b: seq<nat>)
    requires a != [] && b != [] && Sorted(played, rank, a) && Sorted(played, rank, b) && RanksBelow(rank, a, b)
    requires played(a[0]) >= played(b[0])
    ensures forall i :: 0 <= i < |a| - 1 ==> Before(played, rank, a[0], a[1..][i])
    ensures forall i :: 0 <= i < |b| ==> Before(played, rank, a[0], b[i])
  {
    forall i | 0 <= i < |b| ensures Before(played, rank, a[0], b[i]) {
      if i > 0 {
        assert Before(played, rank, b[0], b[i]);
      }
    }
  }

  lemma SecondIsBefore(played: Played, rank: Rank, a: seq<nat>, b: seq<nat>)
    requires a != [] && b != [] && Sorted(played, rank, a) && Sorted(played, rank, b)
    requires played(a[0]) < played(b[0])
    ensures forall i :: 0 <= i < |b| - 1 ==> Before(played, rank, b[0], b[1..][i])
    ensures forall i :: 0 <= i < |a| ==> Before(played, rank, b[0], a[i])
  {
    forall i | 0 <= i < |a| ensures Before(played, rank, b[0], a[i]) {
      if i > 0 {
        assert Before(played, rank, a[0], a[i]);
      }
    }
  }

  /** Runs of `width`, each sorted, earlier runs made of earlier entries. */
  predicate Runs(played: Played, rank: Rank, s: seq<nat>, width: nat)
    requires width > 0
    decreases |s|
  {
    if |s| <= width then Sorted(played, rank, s)
    else Sorted(played, rank, s[..width]) && RanksBelow(rank, s[..width], s[width..]) && Runs(played, rank, s[width..], width)
  }

  lemma {:induction false} RankedIsRuns(played: Played, rank: Rank, s: seq<nat>)
    requires Ranked(rank, s)
    ensures Runs(played, rank, s, 1)
    decreases |s|
  {
    if |s| > 1 {
      RankedIsRuns(played, rank, s[1..]);
    }
  }

  /** A pass over runs `a` and `b` followed by `c`. */
  lemma PassOf(played: Played, a: seq<nat>, b: seq<nat>, c: seq<nat>, width: nat)
    requires width > 0 && 0 < |a| <= width && (|a| == width || b + c == []) && |b| <= width && (|b| == width || c == [])
    ensures MergePass(played, a + b + c, width) == Merge(played, a, b) + MergePass(played, c, width)
  {
    var s := a + b + c;
    assert s[..|a|] == a && s[|a|..|a| + |b|] == b && s[|a| + |b|..] == c;
  }

  /** The first two runs of a sequence and the rest. */
  lemma Cut(s: seq<nat>, width: nat) returns (a: seq<nat>, b: seq<nat>, c: seq<nat>)
    requires width > 0 && s != []
    ensures s == a + b + c && 0 < |a| <= width && (|a| == width || b + c == []) && |b| <= width && (|b| == width || c == [])
    ensures |a| == Least(width, |s|) && a == s[..|a|] && b + c == s[|a|..]
  {
    var middle := Least(width, |s|);
    var t := s[middle..];
    a, b, c := s[..middle], t[..Least(width, |t|)], t[Least(width, |t|)..];
    assert b + c == t && s == a + t && a + (b + c) == a + b + c;
  }

  lemma {:induction false} MergePassKeeps(played: Played, s: seq<nat>, width: nat)
    requires width > 0
    ensures multiset(MergePass(played, s, width)) == multiset(s)
    decreases |s|
  {
    if s != [] {
      var a, b, c := Cut(s, width);
      PassOf(played, a, b, c, width);
      MergeKeeps(played, a, b);
      MergePassKeeps(played, c, width);
      Counted(Merge(played, a, b), MergePass(played, c, width), a, b, c);
    }
  }

  lemma Counted(first: seq<nat>, rest: seq<nat>, a: seq<nat>, b: seq<nat>, c: seq<nat>)
    requires multiset(first) == multiset(a) + multiset(b) && multiset(rest) == multiset(c)
    ensures multiset(first + rest) == multiset(a + b + c)
    ensures multiset(first) == multiset(a + b)
  {
  }

  lemma SameElements(a: seq<nat>, b: seq<nat>, i: nat)
    requires multiset(a) == multiset(b) && i < |a|
    ensures a[i] in b
  {
    assert a[i] in multiset(a);
    assert a[i] in multiset(b);
  }

  /** Rank order between two stretches does not depend on the order inside them. */
  lemma RanksBelowRearranged(rank: Rank, a: seq<nat>, b: seq<nat>, c: seq<nat>, d: seq<nat>)
    requires RanksBelow(rank, a, b) && multiset(c) == multiset(a) && multiset(d) == multiset(b)
    ensures RanksBelow(rank, c, d)
  {
    forall i, j | 0 <= i < |c| && 0 <= j < |d| ensures rank(c[i]) < rank(d[j]) {
      SameElements(c, a, i);
      SameElements(d, b, j);
    }
  }

  lemma RunsOf(played: Played, rank: Rank, t: seq<nat>, b: seq<nat>, c: seq<nat>, width: nat)
    requires width > 0 && Runs(played, rank, t, width) && t == b + c && |b| <= width && (|b| == width || c == [])
    ensures Sorted(played, rank, b) && RanksBelow(rank, b, c) && Runs(played, rank, c, width)
  {
    if c == [] {
      assert t == b;
    } else {
      assert t[..width] == b && t[width..] == c;
    }
  }

  /** The first two runs become one that still belongs before the rest. */
  lemma FirstTwoRuns(played: Played, rank: Rank, a: seq<nat>, b: seq<nat>, c: seq<nat>, width: nat)
    requires width > 0 && Sorted(played, rank, a) && Sorted(played, rank, b)
    requires RanksBelow(rank, a, b + c) && RanksBelow(rank, b, c)
    ensures Sorted(played, rank, Merge(played, a, b)) && RanksBelow(rank, Merge(played, a, b), MergePass(played, c, width))
  {
    BelowParts(rank, a, b, c);
    MergeSorts(played, rank, a, b);
    MergeKeeps(played, a, b);
    MergePassKeeps(played, c, width);
    Counted(Merge(played, a, b), MergePass(played, c, width), a, b, c);
    RanksBelowRearranged(rank, a + b, c, Merge(played, a, b), MergePass(played, c, width));
  }

  lemma BelowParts(rank: Rank, a: seq<nat>, b: seq<nat>, c: seq<nat>)
    requires RanksBelow(rank, a, b + c) && RanksBelow(rank, b, c)
    ensures RanksBelow(rank, a, b) && RanksBelow(rank, a + b, c)
  {
    forall i, j | 0 <= i < |a| && 0 <= j < |b| ensures rank(a[i]) < rank(b[j]) {
      assert (b + c)[j] == b[j];
    }
    forall i, j | 0 <= i < |a + b| && 0 <= j < |c| ensures rank((a + b)[i]) < rank(c[j]) {
      assert (b + c)[|b| + j] == c[j];
    }
  }

  lemma CutRuns(played: Played, rank: Rank, s: seq<nat>, a: seq<nat>, b: seq<nat>, c: seq<nat>, width: nat)
    requires width > 0 && Runs(played, rank, s, width) && s == a + b + c
    requires |a| <= width && (|a| == width || b + c == []) && |b| <= width && (|b| == width || c == [])
    ensures Sorted(played, rank, Merge(played, a, b)) && RanksBelow(rank, Merge(played, a, b), MergePass(played, c, width))
    ensures Runs(played, rank, c, width)
  {
    assert s == a + (b + c);
    RunsOf(played, rank, s, a, b + c, width);
    RunsOf(played, rank, b + c, b, c, width);
    FirstTwoRuns(played, rank, a, b, c, width);
  }

  /** A pass turns runs of one width into runs of twice that. */
  lemma {:induction false} PassDoublesRuns(played: Played, rank: Rank, s: seq<nat>, width: nat)
    requires width > 0 && Runs(played, rank, s, width)
    ensures Runs(played, rank, MergePass(played, s, width), width * 2)
    decreases |s|
  {
    if s != [] {
      var a, b, c := Cut(s, width);
      CutRuns(played, rank, s, a, b, c, width);
      PassDoublesRuns(played, rank, c, width);
      PassOf(played, a, b, c, width);
      JoinRuns(played, rank, Merge(played, a, b), MergePass(played, c, width), width * 2);
    }
  }

  lemma JoinRuns(played: Played, rank: Rank, first: seq<nat>, rest: seq<nat>, width: nat)
    requires width > 0 && Sorted(played, rank, first) && RanksBelow(rank, first, rest) && Runs(played, rank, rest, width)
    requires |first| == width || rest == []
    requires |first| <= width
    ensures Runs(played, rank, first + rest, width)
  {
    var s := first + rest;
    if rest == [] {
      assert s == first;
    } else {
      assert s[..width] == first && s[width..] == rest;
    }
  }

  lemma OneRun(played: Played, rank: Rank, s: seq<nat>, width: nat)
    requires width > 0 && |s| <= width && Runs(played, rank, s, width)
    ensures Sorted(played, rank, s)
  {
  }

  lemma {:induction false} BottomUpSorts(played: Played, rank: Rank, s: seq<nat>, width: nat)
    requires width > 0 && Runs(played, rank, s, width)
    ensures Sorted(played, rank, BottomUp(played, s, width))
    ensures multiset(BottomUp(played, s, width)) == multiset(s)
    decreases |s| - width
  {
    if width >= |s| {
      OneRun(played, rank, s, width);
    } else {
      PassDoublesRuns(played, rank, s, width);
      MergePassKeeps(played, s, width);
      var t := MergePass(played, s, width);
      if width > |s| / 2 {
        OneRun(played, rank, t, width * 2);
      } else {
        BottomUpSorts(played, rank, t, width * 2);
      }
    }
  }

  /** For every input: a stable, most-recent-first permutation. */
  lemma SortIsStable(played: Played, rank: Rank, s: seq<nat>)
    requires Ranked(rank, s)
    ensures Sorted(played, rank, BottomUp(played, s, 1))
    ensures multiset(BottomUp(played, s, 1)) == multiset(s)
  {
    RankedIsRuns(played, rank, s);
    BottomUpSorts(played, rank, s, 1);
  }

  // ----- on two buffers -----

  /** What is merged so far and what the rest of both runs will give make the whole. */
  ghost predicate Merging(played: Played, whole: seq<nat>, done: seq<nat>, a: seq<nat>, b: seq<nat>) {
    whole == done + Merge(played, a, b)
  }

  lemma TakeFirst(played: Played, whole: seq<nat>, done: seq<nat>, a: seq<nat>, b: seq<nat>)
    requires Merging(played, whole, done, a, b) && a != [] && (b == [] || played(a[0]) >= played(b[0]))
    ensures Merging(played, whole, done + [a[0]], a[1..], b)
  {
    if b == [] {
      assert Merge(played, a, b) == [a[0]] + a[1..];
    }
  }

  lemma TakeSecond(played: Played, whole: seq<nat>, done: seq<nat>, a: seq<nat>, b: seq<nat>)
    requires Merging(played, whole, done, a, b) && b != [] && (a == [] || played(a[0]) < played(b[0]))
    ensures Merging(played, whole, done + [b[0]], a, b[1..])
  {
    if a == [] {
      assert Merge(played, a, b) == [b[0]] + b[1..];
    }
  }

  /** The three inner loops: merge two runs of the source into the destination. */
  method MergeRuns(played: Played, source: array<nat>, dest: array<nat>, left: nat, middle: nat, right: nat)
    requires source != dest && source.Length == dest.Length && left <= middle <= right <= source.Length
    modifies dest
    ensures dest[..left] == old(dest[..left])
    ensures dest[left..right] == Merge(played, source[left..middle], source[middle..right])
  {
    ghost var s := source[..];
    ghost var whole := Merge(played, s[left..middle], s[middle..right]);
    assert source[left..middle] == s[left..middle] && source[middle..right] == s[middle..right];
    assert [] + whole == whole;
    MergeInto(played, source, dest, left, middle, right, s, whole);
  }

  method MergeInto(played: Played, source: array<nat>, dest: array<nat>, left: nat, middle: nat, right: nat, ghost s: seq<nat>, ghost whole: seq<nat>)
    requires source != dest && source.Length == dest.Length && left <= middle <= right <= source.Length
    requires s == source[..] && MergingAt(played, whole, [], s, left, middle, middle, right)
    modifies dest
    ensures dest[..left] == old(dest[..left]) && dest[left..right] == whole
  {
    ghost var done: seq<nat> := [];
    var first, second, output := left, middle, left;
    while first < middle || second < right
      invariant left <= first <= middle <= second <= right && output == first + second - middle
      invariant forall k :: 0 <= k < left ==> dest[k] == old(dest[k])
      invariant |done| == output - left && forall k :: 0 <= k < |done| ==> dest[left + k] == done[k]
      invariant MergingAt(played, whole, done, s, first, middle, second, right)
      decreases right - output
    {
      MergeStep(played, whole, done, s, first, middle, second, right);
      var x;
      if first < middle && (second == right || played(source[first]) >= played(source[second])) {
        x, first := source[first], first + 1;
      } else {
        x, second := source[second], second + 1;
      }
      dest[output] := x;
      done := done + [x];
      output := output + 1;
    }
    MergeEnds(played, whole, done, s, middle, right);
  }

  /** The same for two runs of a buffer, from `first` and `second` on. */
  ghost predicate MergingAt(played: Played, whole: seq<nat>, done: seq<nat>, s: seq<nat>, first: nat, middle: nat, second: nat, right: nat) {
    first <= middle <= second <= right <= |s| && Merging(played, whole, done, s[first..middle], s[second..right])
  }

  lemma MergeStep(played: Played, whole: seq<nat>, done: seq<nat>, s: seq<nat>, first: nat, middle: nat, second: nat, right: nat)
    requires MergingAt(played, whole, done, s, first, middle, second, right) && (first < middle || second < right)
    ensures if first < middle && (second == right || played(s[first]) >= played(s[second]))
            then MergingAt(played, whole, done + [s[first]], s, first + 1, middle, second, right)
            else MergingAt(played, whole, done + [s[second]], s, first, middle, second + 1, right)
  {
    var a, b := s[first..middle], s[second..right];
    if first < middle && (second == right || played(s[first]) >= played(s[second])) {
      TakeFirst(played, whole, done, a, b);
      assert a[1..] == s[first + 1..middle];
    } else {
      TakeSecond(played, whole, done, a, b);
      assert b[1..] == s[second + 1..right];
    }
  }

  lemma MergeEnds(played: Played, whole: seq<nat>, done: seq<nat>, s: seq<nat>, middle: nat, right: nat)
    requires MergingAt(played, whole, done, s, middle, middle, right, right)
    ensures whole == done
  {
    assert s[middle..middle] == [] && s[right..right] == [] && done + [] == done;
  }

  /** What the pass has written and what it will write make the whole. */
  ghost predicate Passing(played: Played, whole: seq<nat>, done: seq<nat>, rest: seq<nat>, width: nat)
    requires width > 0
  {
    whole == done + MergePass(played, rest, width)
  }

  lemma PassTakes(played: Played, whole: seq<nat>, done: seq<nat>, a: seq<nat>, b: seq<nat>, c: seq<nat>, width: nat)
    requires width > 0 && 0 < |a| <= width && (|a| == width || b + c == []) && |b| <= width && (|b| == width || c == [])
    requires Passing(played, whole, done, a + b + c, width)
    ensures Passing(played, whole, done + Merge(played, a, b), c, width)
  {
    PassOf(played, a, b, c, width);
    Regroup(done, Merge(played, a, b), MergePass(played, c, width));
  }

  lemma Regroup(x: seq<nat>, y: seq<nat>, z: seq<nat>)
    ensures x + (y + z) == x + y + z
  {
  }

  lemma Thirds(s: seq<nat>, left: nat, middle: nat, right: nat)
    requires left <= middle <= right <= |s|
    ensures s[left..] == s[left..middle] + s[middle..right] + s[right..]
  {
  }

  lemma PassAdvances(played: Played, whole: seq<nat>, done: seq<nat>, s: seq<nat>, left: nat, middle: nat, right: nat, width: nat)
    requires width > 0 && left < |s| && middle == Least(left + width, |s|) && right == Least(middle + width, |s|)
    requires Passing(played, whole, done, s[left..], width)
    ensures Passing(played, whole, done + Merge(played, s[left..middle], s[middle..right]), s[right..], width)
  {
    Thirds(s, left, middle, right);
    PassTakes(played, whole, done, s[left..middle], s[middle..right], s[right..], width);
  }

  /** One pass over the whole buffer. */
  method Pass(played: Played, source: array<nat>, dest: array<nat>, width: nat)
    requires source != dest && source.Length == dest.Length && width > 0
    modifies dest
    ensures dest[..] == MergePass(played, source[..], width)
  {
    assert source[0..] == source[..] && dest[..0] == [];
    assert [] + MergePass(played, source[..], width) == MergePass(played, source[..], width);
    PassFrom(played, source, dest, width, MergePass(played, source[..], width));
  }

  method PassFrom(played: Played, source: array<nat>, dest: array<nat>, width: nat, ghost whole: seq<nat>)
    requires source != dest && source.Length == dest.Length && width > 0
    requires Passing(played, whole, [], source[..], width)
    modifies dest
    ensures dest[..] == whole
  {
    ghost var s, done := source[..], [];
    var count := source.Length;
    var left := 0;
    assert s[0..] == s;
    while left < count
      invariant left <= count && source[..] == s && dest[..left] == done
      invariant Passing(played, whole, done, s[left..], width)
      decreases count - left
    {
      var middle := Least(left + width, count);
      var right := Least(middle + width, count);
      PassAdvances(played, whole, done, s, left, middle, right, width);
      MergeRuns(played, source, dest, left, middle, right);
      SameSlices(source, s, left, middle, right);
      Extended(dest[..], left, right);
      done := done + Merge(played, s[left..middle], s[middle..right]);
      left := right;
    }
    assert s[left..] == [] && done + [] == done && dest[..count] == dest[..];
  }

  lemma SameSlices(source: array<nat>, s: seq<nat>, left: nat, middle: nat, right: nat)
    requires source[..] == s && left <= middle <= right <= source.Length
    ensures source[left..middle] == s[left..middle] && source[middle..right] == s[middle..right]
  {
  }

  lemma Extended(d: seq<nat>, left: nat, right: nat)
    requires left <= right <= |d|
    ensures d[..right] == d[..left] + d[left..right]
  {
  }

  /** sort_visible_recent */
  method SortVisibleRecent(played: Played, visible: array<nat>)
    modifies visible
    ensures visible[..] == BottomUp(played, old(visible[..]), 1)
  {
    var count := visible.Length;
    if count < 2 { return; }
    var source, destination := visible, new nat[count];
    ghost var whole := BottomUp(played, visible[..], 1);
    var width := 1;
    while width < count
      invariant 0 < width && source != destination && source.Length == destination.Length == count
      invariant (source == visible && fresh(destination)) || (destination == visible && fresh(source))
      invariant BottomUp(played, source[..], width) == whole
      decreases count - width
    {
      Pass(played, source, destination, width);
      source, destination := destination, source;
      if width > count / 2 {
        assert source[..] == whole;
        break;
      }
      width := width * 2;
    }
    assert source[..] == whole;
    if source != visible {
      for i := 0 to count
        invariant visible[..i] == source[..i] && source[..] == whole
      {
        visible[i] := source[i];
      }
      assert visible[..count] == visible[..] && source[..count] == source[..];
    }
  }
}
