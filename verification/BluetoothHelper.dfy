// The helper's side: which of the radio's objects are devices of the adapter, under what
// name, in what order; and the promise that the shell reads exactly those.

module BluetoothHelper {
  import opened Options
  import opened Decimal
  import opened Utf8
  import opened Percent
  import opened Fields
  import opened BluetoothNames
  import opened BluetoothSnapshot
  import opened BluetoothRoundTrip

  /** An object as the radio reports it.  `device` has the raw address, flags and signal;
      its name and kind are filled in by finalize_model. */
  datatype Record = Record(path: string, alias: string, rawName: string, device: Device)

  /** The table that derives a kind from icon, class and services. */
  type Classifier = Record -> Kind

  // ----- finalize_model -----

  predicate BelongsTo(adapterPath: string, path: string) {
    |adapterPath| > 0 && adapterPath < path && path[|adapterPath|] == '/'
  }

  predicate AddressTaken(kept: seq<Record>, address: string) {
    exists i :: 0 <= i < |kept| && kept[i].device.address == address
  }

  predicate Accepted(adapterPath: string, kept: seq<Record>, r: Record) {
    BelongsTo(adapterPath, r.path) && IsMac(r.device.address) && !AddressTaken(kept, UpperCase(r.device.address))
  }

  function Finished(classify: Classifier, r: Record): Record {
    var address := UpperCase(r.device.address);
    var shown := if r.alias != [] then r.alias else r.rawName;
    r.(device := r.device.(address := address, name := Sanitize(shown, address), kind := classify(r)))
  }

  /** The records that stay, in the order they came. */
  function KeptRecords(classify: Classifier, adapterPath: string, records: seq<Record>): (kept: seq<Record>)
    ensures |kept| <= |records|
    decreases |records|
  {
    if records == [] then []
    else
      var n := |records| - 1;
      var kept := KeptRecords(classify, adapterPath, records[..n]);
      if Accepted(adapterPath, kept, records[n]) then kept + [Finished(classify, records[n])] else kept
  }

  predicate RawText(r: Record) {
    Octets(r.alias) && Octets(r.rawName)
  }

  predicate AllRawText(records: seq<Record>) {
    forall i :: 0 <= i < |records| ==> RawText(records[i])
  }

  predicate Ready(r: Record) {
    Canonical(r.device.address) && Presentable(r.device.name)
  }

  lemma CanonicalIsPresentable(address: string)
    requires Canonical(address)
    ensures Presentable(address)
  {
    AsciiText(address);
  }

  lemma FinishedIsReady(classify: Classifier, r: Record)
    requires RawText(r) && IsMac(r.device.address)
    ensures Ready(Finished(classify, r))
  {
    var address := UpperCase(r.device.address);
    NormalizedIsCanonical(r.device.address);
    CanonicalIsPresentable(address);
    SanitizeIsPresentable(if r.alias != [] then r.alias else r.rawName, address);
  }

  predicate DistinctRecords(records: seq<Record>) {
    forall i, j :: 0 <= i < j < |records| ==> records[i].device.address != records[j].device.address
  }

  /** Every kept record is printable and no address is kept twice. */
  lemma {:induction false} KeptIsReady(classify: Classifier, adapterPath: string, records: seq<Record>)
    requires AllRawText(records)
    ensures var kept := KeptRecords(classify, adapterPath, records);
            DistinctRecords(kept) && forall i :: 0 <= i < |kept| ==> Ready(kept[i])
    decreases |records|
  {
    if records != [] {
      var n := |records| - 1;
      KeptIsReady(classify, adapterPath, records[..n]);
      var kept := KeptRecords(classify, adapterPath, records[..n]);
      if Accepted(adapterPath, kept, records[n]) {
        FinishedIsReady(classify, records[n]);
      }
    }
  }

  /** address_already_present */
  method AddressAlreadyPresent(table: array<Record>, count: nat, address: string) returns (taken: bool)
    requires count <= table.Length
    ensures taken <==> AddressTaken(table[..count], address)
  {
    for i := 0 to count
      invariant !AddressTaken(table[..i], address)
    {
      if table[i].device.address == address {
        assert table[..count][i].device.address == address;
        return true;
      }
      assert table[..i + 1] == table[..i] + [table[i]];
    }
    taken := false;
  }

  /** After `index` records of `before`, the table holds the kept ones and the unread rest. */
  ghost predicate Compacted(classify: Classifier, adapterPath: string, before: seq<Record>, now: seq<Record>, kept: nat, index: nat) {
    && kept <= index <= |before| == |now|
    && now[..kept] == KeptRecords(classify, adapterPath, before[..index])
    && now[index..] == before[index..]
  }

  lemma CompactionAdvances(classify: Classifier, adapterPath: string, before: seq<Record>, now: seq<Record>, kept: nat, index: nat)
    requires Compacted(classify, adapterPath, before, now, kept, index) && index < |before|
    ensures now[index] == before[index]
    ensures if Accepted(adapterPath, now[..kept], now[index])
            then Compacted(classify, adapterPath, before, now[kept := Finished(classify, now[index])], kept + 1, index + 1)
            else Compacted(classify, adapterPath, before, now, kept, index + 1)
  {
    assert now[index] == now[index..][0] == before[index..][0];
    assert before[..index + 1][..index] == before[..index];
    assert now[index + 1..] == now[index..][1..] == before[index..][1..] == before[index + 1..];
    var next := now[kept := Finished(classify, now[index])];
    assert next[..kept + 1] == now[..kept] + [Finished(classify, now[index])];
    assert next[index + 1..] == now[index + 1..];
  }

  /** The loop of finalize_model: the table is compacted in place. */
  method FinalizeTable(classify: Classifier, adapterPath: string, table: array<Record>, count: nat) returns (kept: nat)
    requires count <= table.Length
    modifies table
    ensures kept <= count && table[..kept] == KeptRecords(classify, adapterPath, old(table[..])[..count])
    ensures table[count..] == old(table[count..])
  {
    kept := 0;
    ghost var before := table[..];
    for index := 0 to count
      invariant Compacted(classify, adapterPath, before, table[..], kept, index)
    {
      CompactionAdvances(classify, adapterPath, before, table[..], kept, index);
      var record := table[index];
      var taken := AddressAlreadyPresent(table, kept, UpperCase(record.device.address));
      if BelongsTo(adapterPath, record.path) && IsMac(record.device.address) && !taken {
        table[kept] := Finished(classify, record);
        kept := kept + 1;
      }
    }
  }

  // ----- the order -----

  /** The sign of strcmp. */
  function Strcmp(a: string, b: string): int
    decreases |a|
  {
    if a == [] then (if b == [] then 0 else -1)
    else if b == [] then 1
    else if a[0] != b[0] then (if a[0] < b[0] then -1 else 1)
    else Strcmp(a[1..], b[1..])
  }

  /** compare_devices: connected, then paired, then stronger, then by name and address. */
  function Compare(l: Device, r: Device): int {
    if l.connected != r.connected then (if l.connected then -1 else 1)
    else if l.paired != r.paired then (if l.paired then -1 else 1)
    else if l.rssi != r.rssi then (if l.rssi > r.rssi then -1 else 1)
    else if Strcmp(l.name, r.name) != 0 then Strcmp(l.name, r.name)
    else Strcmp(l.address, r.address)
  }

  /** `perm` shows that `sorted` rearranges `kept`. */
  predicate Rearranges(perm: seq<nat>, kept: seq<Device>, sorted: seq<Device>) {
    && |perm| == |kept| == |sorted|
    && (forall i :: 0 <= i < |perm| ==> perm[i] < |kept|)
    && (forall i, j :: 0 <= i < j < |perm| ==> perm[i] != perm[j])
    && (forall k :: 0 <= k < |kept| ==> k in perm)
    && (forall i :: 0 <= i < |perm| ==> sorted[i] == kept[perm[i]])
  }

  predicate InOrder(devices: seq<Device>) {
    forall i, j :: 0 <= i < j < |devices| ==> Compare(devices[i], devices[j]) <= 0
  }

  /** What qsort may leave: any ordered rearrangement. */
  ghost predicate Sorting(kept: seq<Device>, sorted: seq<Device>) {
    InOrder(sorted) && exists perm :: Rearranges(perm, kept, sorted)
  }

  function DevicesOf(records: seq<Record>): (d: seq<Device>)
    ensures |d| == |records| && forall i :: 0 <= i < |d| ==> d[i] == records[i].device
  {
    seq(|records|, i requires 0 <= i < |records| => records[i].device)
  }

  predicate AllReady(devices: seq<Device>) {
    forall i :: 0 <= i < |devices| ==> Canonical(devices[i].address) && Presentable(devices[i].name)
  }

  lemma SortingKeeps(kept: seq<Device>, sorted: seq<Device>)
    requires Sorting(kept, sorted) && AllReady(kept) && DistinctAddresses(kept)
    ensures AllReady(sorted) && DistinctAddresses(sorted) && |sorted| == |kept|
  {
    var perm :| Rearranges(perm, kept, sorted);
    forall i, j | 0 <= i < j < |sorted| ensures sorted[i].address != sorted[j].address {
      var a, b := perm[i], perm[j];
      assert a < b || b < a;
    }
  }

  // ----- what is printed -----

  function FirstShown(devices: seq<Device>): (r: seq<Device>)
    ensures |r| == |devices| && forall i :: 0 <= i < |r| ==> r[i] == Shown(devices[i])
  {
    seq(|devices|, i requires 0 <= i < |devices| => Shown(devices[i]))
  }

  function Least(a: nat, b: nat): nat {
    if a < b then a else b
  }

  /** With addresses and names in order nothing is skipped and nothing overflows. */
  lemma {:induction false} PrintedIsFirst(devices: seq<Device>, room: nat)
    requires AllReady(devices)
    ensures Printed(devices, room) == Some(FirstShown(devices[..Least(|devices|, room)]))
    decreases |devices|
  {
    if devices != [] && room > 0 {
      PrintedIsFirst(devices[1..], room - 1);
      var k := Least(|devices|, room);
      assert FirstShown(devices[..k]) == [Shown(devices[0])] + FirstShown(devices[1..][..k - 1]);
    }
  }

  lemma ShownIsShowable(devices: seq<Device>)
    requires AllReady(devices) && DistinctAddresses(devices)
    ensures AllShowable(FirstShown(devices)) && DistinctAddresses(FirstShown(devices))
  {
  }

  // ----- how long it is -----

  lemma KindNameLength(k: Kind)
    ensures |KindName(k)| <= 10
  {
  }

  lemma RssiLength(rssi: int)
    requires RssiInRange(rssi)
    ensures |PrintInt(rssi)| <= 4
  {
    PrintLength(if rssi < 0 then -rssi else rssi, 3, 1000);
  }

  lemma DeviceLineLength(d: Device)
    requires Showable(d)
    ensures |Join(DeviceFields(d))| <= 330
  {
    KindNameLength(d.kind);
    RssiLength(d.rssi);
    JoinBound(DeviceFields(d), [1, 17, 288, 10, 1, 1, 1, 4], 330);
  }

  lemma AdapterLineLength(a: Adapter)
    requires AdapterPrintable(a)
    ensures |Join(AdapterFields(ShownAdapter(a)))| <= 330
  {
    JoinBound(AdapterFields(ShownAdapter(a)), [1, 1, 1, 1, 17], 330);
  }

  lemma TextFits(a: Adapter, devices: seq<Device>)
    requires AdapterPrintable(a) && AllShowable(devices) && |devices| <= MAX_DEVICES
    ensures |TextOf(ShownAdapter(a), devices)| <= 18 * 331
  {
    var lines := AllLines(Join(AdapterFields(ShownAdapter(a))), DeviceLines(devices));
    AdapterLineLength(a);
    forall i | 0 <= i < |lines| ensures |lines[i]| <= 330 {
      if i >= 2 {
        DeviceLineLength(devices[i - 2]);
      }
    }
    UnlinesLength(lines, 330);
  }
}
