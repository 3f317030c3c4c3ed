// Which of the radio's objects the helper keeps and in what order it shows them, said
// without the loop that does it.

module BluetoothKept {
  import opened Options
  import opened Utf8
  import opened Fields
  import opened BluetoothNames
  import opened BluetoothSnapshot
  import opened BluetoothRoundTrip
  import opened BluetoothHelper
  import opened BluetoothPipeline

  // ----- addresses -----

  /** k pairs of hex digits with colons between them. */
  predicate Pairs(s: string, k: nat) {
    |s| == 3 * k - 1 && forall i :: 0 <= i < |s| ==> if i % 3 == 2 then s[i] == ':' else IsHex(s[i])
  }

  predicate HexPair(s: string) {
    |s| == 2 && IsHex(s[0]) && IsHex(s[1])
  }

  predicate AllPairs(parts: seq<string>) {
    forall i :: 0 <= i < |parts| ==> HexPair(parts[i])
  }

  lemma FirstPair(s: string, k: nat)
    requires k > 1 && Pairs(s, k)
    ensures IndexOf(s, ':') == 2 && HexPair(s[..2]) && Pairs(s[3..], k - 1)
  {
    assert s == s[..2] + [':'] + s[3..];
    IndexOfUnique(s[..2], ':', s[3..]);
    forall i | 0 <= i < |s| - 3 ensures s[3..][i] == s[i + 3] && (i + 3) % 3 == i % 3 {
    }
  }

  lemma {:induction false} PairsSplit(s: string, k: nat)
    requires k > 0 && Pairs(s, k)
    ensures |Parts(s, ':')| == k && AllPairs(Parts(s, ':'))
    decreases k
  {
    if k > 1 {
      FirstPair(s, k);
      PairsSplit(s[3..], k - 1);
    } else {
      IndexOfAbsent(s, ':');
    }
  }

  lemma JoinPair(s: string, k: nat)
    requires k > 0 && |s| >= 3 && HexPair(s[..2]) && s[2] == ':' && Pairs(s[3..], k)
    ensures Pairs(s, k + 1)
  {
    forall i | 3 <= i < |s| ensures s[i] == s[3..][i - 3] && (i - 3) % 3 == i % 3 {
    }
  }

  lemma {:induction false} SplitPairs(s: string, k: nat)
    requires k > 0 && |Parts(s, ':')| == k && AllPairs(Parts(s, ':'))
    ensures Pairs(s, k)
    decreases k
  {
    var i := IndexOf(s, ':');
    if i < |s| {
      var parts := Parts(s, ':');
      assert parts[0] == s[..i] && parts[1..] == Parts(s[i + 1..], ':');
      assert HexPair(parts[0]);
      SplitPairs(s[i + 1..], k - 1);
      JoinPair(s, k - 1);
    } else {
      assert HexPair(Parts(s, ':')[0]);
    }
  }

  /** An address is six pairs of hex digits between colons. */
  lemma MacExactly(s: string)
    ensures IsMac(s) <==> |Parts(s, ':')| == 6 && AllPairs(Parts(s, ':'))
  {
    if IsMac(s) {
      PairsSplit(s, 6);
    }
    if |Parts(s, ':')| == 6 && AllPairs(Parts(s, ':')) {
      SplitPairs(s, 6);
    }
  }

  // ----- which records stay -----

  /** An object below the adapter with an address. */
  ghost predicate Candidate(adapterPath: string, r: Record) {
    && adapterPath != [] && (exists rest: string :: r.path == adapterPath + "/" + rest)
    && |Parts(r.device.address, ':')| == 6 && AllPairs(Parts(r.device.address, ':'))
  }

  function KeyOf(r: Record): string {
    UpperCase(r.device.address)
  }

  ghost predicate SameKeyBefore(adapterPath: string, records: seq<Record>, j: nat, key: string)
    requires j <= |records|
  {
    exists i :: 0 <= i < j && Candidate(adapterPath, records[i]) && KeyOf(records[i]) == key
  }

  /** The first object with its address. */
  ghost predicate FirstOfKey(adapterPath: string, records: seq<Record>, j: nat)
    requires j < |records|
  {
    Candidate(adapterPath, records[j]) && !SameKeyBefore(adapterPath, records, j, KeyOf(records[j]))
  }

  lemma BelongsMeans(adapterPath: string, path: string)
    ensures BelongsTo(adapterPath, path) <==> adapterPath != [] && exists rest: string :: path == adapterPath + "/" + rest
  {
    if BelongsTo(adapterPath, path) {
      assert path == adapterPath + "/" + path[|adapterPath| + 1..];
    }
  }

  lemma AcceptedMeans(adapterPath: string, kept: seq<Record>, r: Record)
    ensures Accepted(adapterPath, kept, r) <==> Candidate(adapterPath, r) && !AddressTaken(kept, KeyOf(r))
  {
    BelongsMeans(adapterPath, r.path);
    MacExactly(r.device.address);
  }

  /** What a record becomes. */
  predicate BecomesDevice(classify: Classifier, r: Record, d: Device) {
    && d.address == KeyOf(r) && d.kind == classify(r)
    && d.name == Sanitize(if |r.alias| > 0 then r.alias else r.rawName, KeyOf(r))
    && d.rssi == r.device.rssi && d.paired == r.device.paired && d.trusted == r.device.trusted && d.connected == r.device.connected
  }

  /** `from` names the records the kept ones came from: in their order, exactly the first of
      each address, each turned into its device. */
  ghost predicate KeptFrom(classify: Classifier, adapterPath: string, records: seq<Record>, kept: seq<Record>, from: seq<nat>) {
    && |from| == |kept| && (forall i, j :: 0 <= i < j < |from| ==> from[i] < from[j])
    && (forall j :: 0 <= j < |records| ==> (j in from <==> FirstOfKey(adapterPath, records, j)))
    && (forall i :: 0 <= i < |from| ==> from[i] < |records| && BecomesDevice(classify, records[from[i]], kept[i].device))
  }

  lemma {:induction false} FirstExists(adapterPath: string, records: seq<Record>, j: nat, key: string) returns (i: nat)
    requires j <= |records| && SameKeyBefore(adapterPath, records, j, key)
    ensures i < j && FirstOfKey(adapterPath, records, i) && KeyOf(records[i]) == key
    decreases j
  {
    i :| 0 <= i < j && Candidate(adapterPath, records[i]) && KeyOf(records[i]) == key;
    if SameKeyBefore(adapterPath, records, i, key) {
      i := FirstExists(adapterPath, records, i, key);
    }
  }

  /** An address is taken exactly if a candidate had it. */
  lemma TakenMeans(classify: Classifier, adapterPath: string, records: seq<Record>, kept: seq<Record>, from: seq<nat>, key: string)
    requires KeptFrom(classify, adapterPath, records, kept, from)
    ensures AddressTaken(kept, key) <==> SameKeyBefore(adapterPath, records, |records|, key)
  {
    if AddressTaken(kept, key) {
      var i :| 0 <= i < |kept| && kept[i].device.address == key;
      assert from[i] in from;
      assert Candidate(adapterPath, records[from[i]]) && KeyOf(records[from[i]]) == key;
    }
    if SameKeyBefore(adapterPath, records, |records|, key) {
      var j := FirstExists(adapterPath, records, |records|, key);
      var i :| 0 <= i < |from| && from[i] == j;
      assert kept[i].device.address == key;
    }
  }

  lemma FirstOfPrefix(adapterPath: string, records: seq<Record>, n: nat, j: nat)
    requires j < n <= |records|
    ensures FirstOfKey(adapterPath, records[..n], j) <==> FirstOfKey(adapterPath, records, j)
  {
    assert forall i :: 0 <= i < n ==> records[..n][i] == records[i];
  }

  lemma SameKeyOfPrefix(adapterPath: string, records: seq<Record>, n: nat, key: string)
    requires n <= |records|
    ensures SameKeyBefore(adapterPath, records[..n], n, key) <==> SameKeyBefore(adapterPath, records, n, key)
  {
    assert forall i :: 0 <= i < n ==> records[..n][i] == records[i];
  }

  lemma {:induction false} KeptComesFrom(classify: Classifier, adapterPath: string, records: seq<Record>) returns (from: seq<nat>)
    ensures KeptFrom(classify, adapterPath, records, KeptRecords(classify, adapterPath, records), from)
    decreases |records|
  {
    if records == [] {
      from := [];
    } else {
      var n := |records| - 1;
      var before := KeptComesFrom(classify, adapterPath, records[..n]);
      var kept := KeptRecords(classify, adapterPath, records[..n]);
      AcceptedMeans(adapterPath, kept, records[n]);
      TakenMeans(classify, adapterPath, records[..n], kept, before, KeyOf(records[n]));
      SameKeyOfPrefix(adapterPath, records, n, KeyOf(records[n]));
      from := if Accepted(adapterPath, kept, records[n]) then before + [n] else before;
      KeptExtends(classify, adapterPath, records, kept, before, from);
    }
  }

  lemma FirstsOfPrefix(adapterPath: string, records: seq<Record>, n: nat, from: seq<nat>)
    requires n <= |records| && forall j :: 0 <= j < n ==> (j in from <==> FirstOfKey(adapterPath, records[..n], j))
    ensures forall j :: 0 <= j < n ==> (j in from <==> FirstOfKey(adapterPath, records, j))
  {
    forall j | 0 <= j < n ensures j in from <==> FirstOfKey(adapterPath, records, j) {
      FirstOfPrefix(adapterPath, records, n, j);
    }
  }

  lemma DevicesOfPrefix(classify: Classifier, records: seq<Record>, n: nat, kept: seq<Record>, from: seq<nat>)
    requires n <= |records| && |from| == |kept|
    requires forall i :: 0 <= i < |from| ==> from[i] < n && BecomesDevice(classify, records[..n][from[i]], kept[i].device)
    ensures forall i :: 0 <= i < |from| ==> BecomesDevice(classify, records[from[i]], kept[i].device)
  {
    forall i | 0 <= i < |from| ensures BecomesDevice(classify, records[from[i]], kept[i].device) {
      assert records[..n][from[i]] == records[from[i]];
    }
  }

  lemma KeptExtends(classify: Classifier, adapterPath: string, records: seq<Record>, kept: seq<Record>, before: seq<nat>, from: seq<nat>)
    requires records != [] && KeptFrom(classify, adapterPath, records[..|records| - 1], kept, before)
    requires from == if FirstOfKey(adapterPath, records, |records| - 1) then before + [|records| - 1] else before
    ensures KeptFrom(classify, adapterPath, records,
                     if FirstOfKey(adapterPath, records, |records| - 1) then kept + [Finished(classify, records[|records| - 1])] else kept, from)
  {
    var n := |records| - 1;
    FirstsOfPrefix(adapterPath, records, n, before);
    DevicesOfPrefix(classify, records, n, kept, before);
    if FirstOfKey(adapterPath, records, n) {
      KeptAppends(classify, adapterPath, records, kept, before);
    }
  }

  lemma KeptAppends(classify: Classifier, adapterPath: string, records: seq<Record>, kept: seq<Record>, before: seq<nat>)
    requires records != [] && |before| == |kept| && (forall i, j :: 0 <= i < j < |before| ==> before[i] < before[j])
    requires forall i :: 0 <= i < |before| ==> before[i] < |records| - 1 && BecomesDevice(classify, records[before[i]], kept[i].device)
    requires forall j :: 0 <= j < |records| - 1 ==> (j in before <==> FirstOfKey(adapterPath, records, j))
    requires FirstOfKey(adapterPath, records, |records| - 1)
    ensures KeptFrom(classify, adapterPath, records, kept + [Finished(classify, records[|records| - 1])], before + [|records| - 1])
  {
    var n := |records| - 1;
    var from, now := before + [n], kept + [Finished(classify, records[n])];
    forall i | 0 <= i < |from| ensures from[i] < |records| && BecomesDevice(classify, records[from[i]], now[i].device) {
      if i < |before| {
        assert from[i] == before[i] && now[i] == kept[i];
      } else {
        BecomesFinished(classify, records[n]);
      }
    }
  }

  lemma BecomesFinished(classify: Classifier, r: Record)
    ensures BecomesDevice(classify, r, Finished(classify, r).device)
  {
  }

  /** An address is kept if and only if some object below the adapter has it, in any case;
      and the kept devices are those of the first such objects, in the order they came,
      with their flags and signal, under the alias or else the name. */
  lemma KeptExactly(classify: Classifier, adapterPath: string, records: seq<Record>, address: string) returns (from: seq<nat>)
    ensures var kept := KeptRecords(classify, adapterPath, records);
            && KeptFrom(classify, adapterPath, records, kept, from)
            && ((exists i :: 0 <= i < |kept| && kept[i].device.address == address) <==>
                 exists j :: 0 <= j < |records| && Candidate(adapterPath, records[j]) && UpperCase(records[j].device.address) == address)
  {
    from := KeptComesFrom(classify, adapterPath, records);
    var kept := KeptRecords(classify, adapterPath, records);
    TakenMeans(classify, adapterPath, records, kept, from, address);
    assert AddressTaken(kept, address) <==> exists i :: 0 <= i < |kept| && kept[i].device.address == address;
    if SameKeyBefore(adapterPath, records, |records|, address) {
      var j :| 0 <= j < |records| && Candidate(adapterPath, records[j]) && KeyOf(records[j]) == address;
      assert UpperCase(records[j].device.address) == address;
    }
    if exists j :: 0 <= j < |records| && Candidate(adapterPath, records[j]) && UpperCase(records[j].device.address) == address {
      var j :| 0 <= j < |records| && Candidate(adapterPath, records[j]) && UpperCase(records[j].device.address) == address;
      assert KeyOf(records[j]) == address;
    }
  }

  // ----- what the shell then shows -----

  lemma ShownAddresses(kept: seq<Device>, sorted: seq<Device>, address: string)
    requires Sorting(kept, sorted) && AllReady(kept)
    ensures HasAddress(FirstShown(sorted), address) <==> HasAddress(kept, address)
  {
    if HasAddress(FirstShown(sorted), address) {
      var i :| 0 <= i < |sorted| && FirstShown(sorted)[i].address == address;
      FromKept(kept, sorted, i);
      var k :| 0 <= k < |kept| && kept[k] == sorted[i];
      assert Canonical(kept[k].address);
      assert kept[k].address == address;
    }
    if HasAddress(kept, address) {
      var k :| 0 <= k < |kept| && kept[k].address == address;
      var j := PlaceOf(kept, sorted, kept[k]);
      assert Canonical(kept[k].address);
      assert FirstShown(sorted)[j].address == address;
    }
  }

  /** Up to 16 devices, from the radio to the screen: the shell lists an address if and only
      if some object below the adapter has it. */
  lemma ShellListsExactly(classify: Classifier, adapter: Adapter, adapterPath: string, records: seq<Record>, sorted: seq<Device>, address: string)
    requires AllRawText(records) && adapter.present && AdapterPrintable(adapter)
    requires Sorting(DevicesOf(KeptRecords(classify, adapterPath, records)), sorted) && |sorted| <= 16
    ensures AllReady(sorted) && Write(Snapshot(adapter, sorted)).Some? && Parse(Write(Snapshot(adapter, sorted)).value).Parsed?
    ensures HasAddress(Parse(Write(Snapshot(adapter, sorted)).value).snapshot.devices, address) <==>
            exists j :: 0 <= j < |records| && Candidate(adapterPath, records[j]) && UpperCase(records[j].device.address) == address
  {
    HelperToShell(classify, adapter, adapterPath, records, sorted);
    KeptIsReady(classify, adapterPath, records);
    var kept := KeptRecords(classify, adapterPath, records);
    assert sorted[..Least(|sorted|, MAX_DEVICES)] == sorted;
    ShownAddresses(DevicesOf(kept), sorted, address);
    var from := KeptExactly(classify, adapterPath, records, address);
    SameAddresses(kept, address);
  }

  lemma SameAddresses(kept: seq<Record>, address: string)
    ensures HasAddress(DevicesOf(kept), address) <==> exists i :: 0 <= i < |kept| && kept[i].device.address == address
  {
    if exists i :: 0 <= i < |kept| && kept[i].device.address == address {
      var i :| 0 <= i < |kept| && kept[i].device.address == address;
      assert DevicesOf(kept)[i].address == address;
    }
  }

  /** The signal shown is the one measured, if it is from -127 to 20, and otherwise 127. */
  lemma SignalShown(d: Device)
    ensures Shown(d).rssi == if -127 <= d.rssi <= 20 then d.rssi else 127
  {
  }

  // ----- the order -----

  /** Byte order: equal, a prefix, or less at the first difference. */
  predicate NotAfter(a: string, b: string) {
    a <= b || exists k :: 0 <= k < |a| && k < |b| && a[..k] == b[..k] && a[k] < b[k]
  }

  lemma {:induction false} StrcmpMeans(a: string, b: string)
    ensures Strcmp(a, b) <= 0 <==> NotAfter(a, b)
    ensures Strcmp(a, b) == 0 <==> a == b
    decreases |a|
  {
    if a != [] && b != [] && a[0] == b[0] {
      StrcmpMeans(a[1..], b[1..]);
      NotAfterTail(a, b);
    } else if a != [] && b != [] {
      if a[0] < b[0] {
        assert a[..0] == b[..0];
      }
    }
  }

  lemma NotAfterTail(a: string, b: string)
    requires a != [] && b != [] && a[0] == b[0]
    ensures NotAfter(a, b) <==> NotAfter(a[1..], b[1..])
    ensures a == b <==> a[1..] == b[1..]
  {
    assert a == [a[0]] + a[1..] && b == [b[0]] + b[1..];
    if NotAfter(a, b) && !(a <= b) {
      var k :| 0 <= k < |a| && k < |b| && a[..k] == b[..k] && a[k] < b[k];
      assert a[1..][..k - 1] == a[..k][1..] && b[1..][..k - 1] == b[..k][1..];
      assert a[1..][k - 1] < b[1..][k - 1];
    }
    if NotAfter(a[1..], b[1..]) && !(a[1..] <= b[1..]) {
      var k :| 0 <= k < |a[1..]| && k < |b[1..]| && a[1..][..k] == b[1..][..k] && a[1..][k] < b[1..][k];
      assert a[..k + 1] == [a[0]] + a[1..][..k] && b[..k + 1] == [b[0]] + b[1..][..k];
      assert a[k + 1] < b[k + 1];
    }
  }

  /** In the list shown, connected devices come first, then paired ones, then the stronger
      signal, then by name and address in byte order. */
  lemma OrderMeans(sorted: seq<Device>, i: nat, j: nat)
    requires InOrder(sorted) && i < j < |sorted|
    ensures var a, b := sorted[i], sorted[j];
            && (b.connected ==> a.connected)
            && (a.connected == b.connected && b.paired ==> a.paired)
            && (a.connected == b.connected && a.paired == b.paired ==> a.rssi >= b.rssi)
            && (a.connected == b.connected && a.paired == b.paired && a.rssi == b.rssi ==> NotAfter(a.name, b.name))
            && (a.connected == b.connected && a.paired == b.paired && a.rssi == b.rssi && a.name == b.name ==> NotAfter(a.address, b.address))
  {
    StrcmpMeans(sorted[i].name, sorted[j].name);
    StrcmpMeans(sorted[i].address, sorted[j].address);
  }
}
