// From the raw objects of the radio to the shell: whatever the helper prints, the shell
// reads back, and it reads what was meant.

module BluetoothRoundTrip {
  import opened Options
  import opened Decimal
  import opened Utf8
  import opened Percent
  import opened Fields
  import opened BluetoothNames
  import opened BluetoothSnapshot

  // ----- the fields survive -----

  lemma MacIsVisible(s: string)
    requires Canonical(s)
    ensures Visible(s)
  {
  }

  /** A device the shell can show. */
  predicate Showable(d: Device) {
    Canonical(d.address) && Presentable(d.name) && RssiInRange(d.rssi)
  }

  lemma DeviceFieldsVisible(d: Device)
    requires Showable(d)
    ensures AllVisible(DeviceFields(d))
  {
    EncodeIsVisible(d.name);
    MacIsVisible(d.address);
    PrintIntIsVisible(d.rssi);
  }

  lemma NameRoundTrip(name: string)
    requires Presentable(name)
    ensures DecodeName(Encode(name)) == Some(name)
  {
    LenientRoundTrip(name);
  }

  lemma KindRoundTrip(k: Kind)
    ensures ParseKind(KindName(k)) == Some(k)
  {
  }

  lemma ParseDeviceFields(d: Device)
    requires Showable(d)
    ensures RecordAddress(DeviceFields(d)) == Some(d.address)
    ensures ParseDevice(d.address, DeviceFields(d)) == Some(d)
  {
    NameRoundTrip(d.name);
    KindRoundTrip(d.kind);
    ReadIntOfPrintInt(d.rssi);
  }

  lemma DeviceLineRoundTrip(d: Device, devices: seq<Device>)
    requires Showable(d) && |devices| < MAX_DEVICES && !HasAddress(devices, d.address)
    ensures ParseDeviceLine(Join(DeviceFields(d)), devices) == Good(d)
  {
    DeviceFieldsVisible(d);
    VisibleLine(DeviceFields(d), '\t');
    SplitOfJoin(DeviceFields(d));
    JoinLength(DeviceFields(d));
    ParseDeviceFields(d);
  }

  predicate DistinctAddresses(devices: seq<Device>) {
    forall i, j :: 0 <= i < j < |devices| ==> devices[i].address != devices[j].address
  }

  predicate AllShowable(devices: seq<Device>) {
    forall i :: 0 <= i < |devices| ==> Showable(devices[i])
  }

  lemma {:induction false} DevicesRoundTrip(devices: seq<Device>, earlier: seq<Device>)
    requires AllShowable(devices) && DistinctAddresses(earlier + devices) && |earlier + devices| <= MAX_DEVICES
    ensures ParseDevices(DeviceLines(devices), earlier) == Devices(earlier + devices)
    decreases |devices|
  {
    if devices == [] {
      assert earlier + devices == earlier;
    } else {
      var d := devices[0];
      forall i | 0 <= i < |earlier| ensures earlier[i].address != d.address {
        assert (earlier + devices)[i].address != (earlier + devices)[|earlier|].address;
      }
      DeviceLineRoundTrip(d, earlier);
      assert earlier + [d] + devices[1..] == earlier + devices;
      DevicesRoundTrip(devices[1..], earlier + [d]);
      assert DeviceLines(devices)[1..] == DeviceLines(devices[1..]);
    }
  }

  // ----- the adapter line -----

  /** The adapter as the shell stores it. */
  function Received(a: Adapter): Adapter {
    ShownAdapter(a).(address := if a.present then UpperCase(a.address) else [])
  }

  lemma AdapterFieldsVisible(a: Adapter)
    requires AdapterPrintable(a)
    ensures AllVisible(AdapterFields(ShownAdapter(a)))
  {
    if a.present {
      NormalizedIsCanonical(a.address);
      MacIsVisible(UpperCase(a.address));
    }
  }

  lemma AdapterRoundTrip(a: Adapter)
    requires AdapterPrintable(a)
    ensures ParseAdapter(Split(Join(AdapterFields(ShownAdapter(a))))) == Some(Received(a))
  {
    var fields := AdapterFields(ShownAdapter(a));
    AdapterFieldsVisible(a);
    VisibleLine(fields, '\t');
    SplitOfJoin(fields);
    if a.present {
      NormalizedIsCanonical(a.address);
    }
  }

  // ----- the whole text -----

  lemma DeviceLinesLack(devices: seq<Device>, c: char)
    requires AllShowable(devices) && c != '\t' && c <= ' '
    ensures NoneHas(DeviceLines(devices), c)
  {
    forall i | 0 <= i < |devices| ensures c !in DeviceLines(devices)[i] {
      DeviceFieldsVisible(devices[i]);
      VisibleLine(DeviceFields(devices[i]), c);
    }
  }

  lemma AdapterLineLacks(a: Adapter, c: char)
    requires AdapterPrintable(a) && c != '\t' && c <= ' '
    ensures c !in Join(AdapterFields(ShownAdapter(a)))
  {
    AdapterFieldsVisible(a);
    VisibleLine(AdapterFields(ShownAdapter(a)), c);
  }

  lemma HeaderLacks(c: char)
    requires c != '\t' && c <= ' '
    ensures c !in HEADER
  {
  }

  /** All the lines of a text, as one sequence. */
  function AllLines(adapterLine: string, deviceLines: seq<string>): seq<string> {
    [HEADER, adapterLine] + deviceLines
  }

  lemma LinesLack(adapterLine: string, deviceLines: seq<string>, c: char)
    requires c != '\t' && c <= ' ' && c !in adapterLine && NoneHas(deviceLines, c)
    ensures NoneHas(AllLines(adapterLine, deviceLines), c)
  {
    HeaderLacks(c);
  }

  /** Text made of clean lines is parsed line by line. */
  lemma ParseUnlines(lines: seq<string>)
    requires lines != [] && NoneHas(lines, '\n') && NoneHas(lines, '\0') && NoneHas(lines, '\r')
    ensures Parse(Unlines(lines)) == ParseLines(lines)
  {
    LinesOfUnlines(lines);
    UnlinesEndsInNewline(lines);
    UnlinesLacks(lines, '\0');
    UnlinesLacks(lines, '\r');
  }

  lemma AllLinesLack(a: Adapter, devices: seq<Device>, c: char)
    requires AdapterPrintable(a) && AllShowable(devices) && c != '\t' && c <= ' '
    ensures NoneHas(AllLines(Join(AdapterFields(ShownAdapter(a))), DeviceLines(devices)), c)
  {
    AdapterLineLacks(a, c);
    DeviceLinesLack(devices, c);
    LinesLack(Join(AdapterFields(ShownAdapter(a))), DeviceLines(devices), c);
  }

  lemma AllLinesParse(adapterLine: string, deviceLines: seq<string>, a: Adapter, devices: seq<Device>)
    requires ParseAdapter(Split(adapterLine)) == Some(a) && ParseDevices(deviceLines, []) == Devices(devices)
    requires Coherent(a, devices)
    ensures ParseLines(AllLines(adapterLine, deviceLines)) == Parsed(Snapshot(a, devices))
  {
    assert AllLines(adapterLine, deviceLines)[2..] == deviceLines;
  }

  predicate Clean(lines: seq<string>) {
    NoneHas(lines, '\n') && NoneHas(lines, '\0') && NoneHas(lines, '\r')
  }

  lemma TextParses(adapterLine: string, deviceLines: seq<string>, a: Adapter, devices: seq<Device>)
    requires ParseAdapter(Split(adapterLine)) == Some(a) && ParseDevices(deviceLines, []) == Devices(devices)
    requires Coherent(a, devices) && Clean(AllLines(adapterLine, deviceLines))
    ensures Parse(Unlines(AllLines(adapterLine, deviceLines))) == Parsed(Snapshot(a, devices))
  {
    ParseUnlines(AllLines(adapterLine, deviceLines));
    AllLinesParse(adapterLine, deviceLines, a, devices);
  }

  lemma TextIsClean(a: Adapter, devices: seq<Device>)
    requires AdapterPrintable(a) && AllShowable(devices)
    ensures Clean(AllLines(Join(AdapterFields(ShownAdapter(a))), DeviceLines(devices)))
  {
    AllLinesLack(a, devices, '\n');
    AllLinesLack(a, devices, '\0');
    AllLinesLack(a, devices, '\r');
  }

  lemma TextRoundTrip(a: Adapter, devices: seq<Device>)
    requires AdapterPrintable(a) && AllShowable(devices) && DistinctAddresses(devices) && |devices| <= MAX_DEVICES
    requires !a.present ==> devices == []
    ensures Parse(TextOf(ShownAdapter(a), devices)) == Parsed(Snapshot(Received(a), devices))
  {
    TextIsClean(a, devices);
    AdapterRoundTrip(a);
    assert [] + devices == devices;
    DevicesRoundTrip(devices, []);
    TextParses(Join(AdapterFields(ShownAdapter(a))), DeviceLines(devices), Received(a), devices);
  }
}
