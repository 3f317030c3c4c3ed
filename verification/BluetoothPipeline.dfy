// The two ends of the Bluetooth snapshot put together.

module BluetoothPipeline {
  import opened Options
  import opened Utf8
  import opened BluetoothNames
  import opened BluetoothSnapshot
  import opened BluetoothRoundTrip
  import opened BluetoothHelper

  const OUTPUT_MAX := 16 * 1024

  /** Whatever the radio reports and however qsort breaks ties: the helper fails only over
      the adapter's own address; otherwise its text fits the shell's buffer, and the shell
      reads the adapter flags and the first 16 devices in order, names and signal repaired. */
  lemma HelperToShell(classify: Classifier, adapter: Adapter, adapterPath: string, records: seq<Record>, sorted: seq<Device>)
    requires AllRawText(records)
    requires if adapter.present then Sorting(DevicesOf(KeptRecords(classify, adapterPath, records)), sorted) else sorted == []
    ensures AllReady(sorted) && DistinctAddresses(sorted)
    ensures Write(Snapshot(adapter, sorted)).Some? <==> AdapterPrintable(adapter)
    ensures AdapterPrintable(adapter) ==>
              var text := Write(Snapshot(adapter, sorted)).value;
              && |text| <= OUTPUT_MAX
              && Parse(text) == Parsed(Snapshot(Received(adapter), FirstShown(sorted[..Least(|sorted|, MAX_DEVICES)])))
  {
    if adapter.present {
      KeptIsReady(classify, adapterPath, records);
      SortingKeeps(DevicesOf(KeptRecords(classify, adapterPath, records)), sorted);
    }
    ReadyToShell(adapter, sorted);
  }

  lemma ReadyToShell(adapter: Adapter, sorted: seq<Device>)
    requires AllReady(sorted) && DistinctAddresses(sorted) && (!adapter.present ==> sorted == [])
    ensures Write(Snapshot(adapter, sorted)).Some? <==> AdapterPrintable(adapter)
    ensures AdapterPrintable(adapter) ==>
              var text := Write(Snapshot(adapter, sorted)).value;
              && |text| <= OUTPUT_MAX
              && Parse(text) == Parsed(Snapshot(Received(adapter), FirstShown(sorted[..Least(|sorted|, MAX_DEVICES)])))
  {
    var first := sorted[..Least(|sorted|, MAX_DEVICES)];
    PrintedIsFirst(sorted, MAX_DEVICES);
    ShownIsShowable(first);
    if AdapterPrintable(adapter) {
      TextFits(adapter, FirstShown(first));
      TextRoundTrip(adapter, FirstShown(first));
      assert !adapter.present ==> FirstShown(first) == [];
    }
  }

  // ----- the order does not depend on the sorting algorithm -----

  lemma {:induction false} StrcmpAntisymmetric(a: string, b: string)
    ensures Strcmp(a, b) == -Strcmp(b, a)
    ensures Strcmp(a, b) == 0 ==> a == b
    decreases |a|
  {
    if a != [] && b != [] && a[0] == b[0] {
      StrcmpAntisymmetric(a[1..], b[1..]);
      assert a == [a[0]] + a[1..] && b == [b[0]] + b[1..];
    }
  }

  lemma CompareAntisymmetric(l: Device, r: Device)
    requires Compare(l, r) <= 0 && Compare(r, l) <= 0
    ensures l.address == r.address
  {
    StrcmpAntisymmetric(l.name, r.name);
    StrcmpAntisymmetric(l.address, r.address);
  }

  lemma PlaceOf(kept: seq<Device>, sorted: seq<Device>, d: Device) returns (j: nat)
    requires Sorting(kept, sorted) && d in kept
    ensures j < |sorted| && sorted[j] == d
  {
    var perm :| Rearranges(perm, kept, sorted);
    var k :| 0 <= k < |kept| && kept[k] == d;
    assert k in perm;
    j :| 0 <= j < |perm| && perm[j] == k;
  }

  lemma FromKept(kept: seq<Device>, sorted: seq<Device>, i: nat)
    requires Sorting(kept, sorted) && i < |sorted|
    ensures sorted[i] in kept
  {
    var perm :| Rearranges(perm, kept, sorted);
  }

  lemma SameAddressSameDevice(kept: seq<Device>, x: Device, y: Device)
    requires DistinctAddresses(kept) && x in kept && y in kept && x.address == y.address
    ensures x == y
  {
  }

  /** Having agreed so far, another sorting cannot put x later without y going first. */
  lemma LaterElsewhere(kept: seq<Device>, s: seq<Device>, t: seq<Device>, k: nat)
    requires Sorting(kept, s) && Sorting(kept, t) && AllReady(kept) && DistinctAddresses(kept)
    requires k < |s| == |t| && s[..k] == t[..k]
    ensures Compare(t[k], s[k]) <= 0 || s[k] == t[k]
  {
    FromKept(kept, s, k);
    SortingKeeps(kept, s);
    assert forall i :: 0 <= i < k ==> s[..k][i] == t[..k][i];
    assert forall i :: 0 <= i < k ==> t[i].address != s[k].address;
    var j := PlaceOf(kept, t, s[k]);
  }

  /** Having agreed so far, two sortings agree on the next place. */
  lemma NextAgrees(kept: seq<Device>, s: seq<Device>, t: seq<Device>, k: nat)
    requires Sorting(kept, s) && Sorting(kept, t) && AllReady(kept) && DistinctAddresses(kept)
    requires k < |s| == |t| && s[..k] == t[..k]
    ensures s[k] == t[k]
  {
    LaterElsewhere(kept, s, t, k);
    LaterElsewhere(kept, t, s, k);
    if s[k] != t[k] {
      FromKept(kept, s, k);
      FromKept(kept, t, k);
      CompareAntisymmetric(s[k], t[k]);
      SameAddressSameDevice(kept, s[k], t[k]);
    }
  }

  lemma {:induction false} SortingsAgree(kept: seq<Device>, s: seq<Device>, t: seq<Device>, k: nat)
    requires Sorting(kept, s) && Sorting(kept, t) && AllReady(kept) && DistinctAddresses(kept)
    requires k <= |s| == |t|
    ensures s[..k] == t[..k]
    decreases k
  {
    if k > 0 {
      SortingsAgree(kept, s, t, k - 1);
      NextAgrees(kept, s, t, k - 1);
      assert s[..k] == s[..k - 1] + [s[k - 1]] && t[..k] == t[..k - 1] + [t[k - 1]];
    }
  }

  /** qsort is free in nothing: kept devices have one ordered arrangement. */
  lemma SortingIsUnique(kept: seq<Device>, s: seq<Device>, t: seq<Device>)
    requires Sorting(kept, s) && Sorting(kept, t) && AllReady(kept) && DistinctAddresses(kept)
    ensures s == t
  {
    SortingKeeps(kept, s);
    SortingKeeps(kept, t);
    SortingsAgree(kept, s, t, |s|);
    assert s[..|s|] == s && t[..|t|] == t;
  }

  // ----- and there always is one -----

  lemma {:induction false} StrcmpTransitive(a: string, b: string, c: string)
    requires Strcmp(a, b) <= 0 && Strcmp(b, c) <= 0
    ensures Strcmp(a, c) <= 0 && (Strcmp(a, c) == 0 ==> Strcmp(a, b) == 0 && Strcmp(b, c) == 0)
    decreases |a|
  {
    if a != [] && b != [] && c != [] && a[0] == b[0] == c[0] {
      StrcmpTransitive(a[1..], b[1..], c[1..]);
    }
  }

  lemma CompareTotal(l: Device, r: Device)
    ensures Compare(l, r) <= 0 || Compare(r, l) <= 0
  {
    StrcmpAntisymmetric(l.name, r.name);
    StrcmpAntisymmetric(l.address, r.address);
  }

  lemma CompareTransitive(l: Device, m: Device, r: Device)
    requires Compare(l, m) <= 0 && Compare(m, r) <= 0
    ensures Compare(l, r) <= 0
  {
    if Strcmp(l.name, m.name) <= 0 && Strcmp(m.name, r.name) <= 0 {
      StrcmpTransitive(l.name, m.name, r.name);
      StrcmpAntisymmetric(l.name, m.name);
      StrcmpAntisymmetric(m.name, r.name);
    }
    if Strcmp(l.address, m.address) <= 0 && Strcmp(m.address, r.address) <= 0 {
      StrcmpTransitive(l.address, m.address, r.address);
    }
  }

  /** Where a device goes into an ordered list. */
  lemma {:induction false} InsertPlace(s: seq<Device>, x: Device) returns (k: nat)
    requires InOrder(s)
    ensures k <= |s| && (forall i :: 0 <= i < k ==> Compare(s[i], x) <= 0) && (forall i :: k <= i < |s| ==> Compare(x, s[i]) <= 0)
    decreases |s|
  {
    var n := |s| - 1;
    if s == [] {
      k := 0;
    } else if Compare(s[n], x) <= 0 {
      k := |s|;
      forall i | 0 <= i < n ensures Compare(s[i], x) <= 0 {
        CompareTransitive(s[i], s[n], x);
      }
    } else {
      CompareTotal(s[n], x);
      k := InsertPlace(s[..n], x);
    }
  }

  lemma Inserted(kept: seq<Device>, perm: seq<nat>, s: seq<Device>, k: nat)
    requires kept != [] && Rearranges(perm, kept[..|kept| - 1], s) && k <= |s|
    ensures Rearranges(perm[..k] + [|kept| - 1] + perm[k..], kept, s[..k] + [kept[|kept| - 1]] + s[k..])
  {
    var n := |kept| - 1;
    var p := perm[..k] + [n] + perm[k..];
    forall j | 0 <= j < |kept| ensures j in p {
      if j == n {
        assert p[k] == n;
      } else {
        assert j in perm;
        var i :| 0 <= i < |perm| && perm[i] == j;
        assert p[if i < k then i else i + 1] == j;
      }
    }
  }

  lemma InsertedInOrder(s: seq<Device>, x: Device, k: nat)
    requires InOrder(s) && k <= |s|
    requires (forall i :: 0 <= i < k ==> Compare(s[i], x) <= 0) && (forall i :: k <= i < |s| ==> Compare(x, s[i]) <= 0)
    ensures InOrder(s[..k] + [x] + s[k..])
  {
    var r := s[..k] + [x] + s[k..];
    forall i, j | 0 <= i < j < |r| ensures Compare(r[i], r[j]) <= 0 {
      assert r[i] == if i < k then s[i] else if i == k then x else s[i - 1];
      assert r[j] == if j < k then s[j] else if j == k then x else s[j - 1];
    }
  }

  /** Every list has an ordered arrangement: the comparison is total and transitive. */
  lemma {:induction false} SortingExists(kept: seq<Device>) returns (sorted: seq<Device>)
    ensures Sorting(kept, sorted)
    decreases |kept|
  {
    if kept == [] {
      sorted := [];
      assert Rearranges([], kept, sorted);
    } else {
      var n := |kept| - 1;
      var s := SortingExists(kept[..n]);
      var perm :| Rearranges(perm, kept[..n], s);
      var k := InsertPlace(s, kept[n]);
      sorted := s[..k] + [kept[n]] + s[k..];
      Inserted(kept, perm, s, k);
      InsertedInOrder(s, kept[n], k);
    }
  }
}
