// Exactly which texts the shell takes for a snapshot.

module BluetoothAccepts {
  import opened Options
  import opened Decimal
  import opened Fields
  import opened BluetoothSnapshot
  import opened BluetoothRoundTrip

  predicate BitText(s: string, b: bool) {
    if b then s == "1" else s == "0"
  }

  function KindText(k: Kind): string {
    match k
    case Unknown => "unknown"
    case Controller => "controller"
    case Audio => "audio"
    case Keyboard => "keyboard"
    case Mouse => "mouse"
  }

  /** A line that spells out an adapter. */
  predicate AdapterLine(line: string, a: Adapter) {
    var fields := Split(line);
    && |fields| == 5 && fields[0] == "A" && BitText(fields[1], a.present) && BitText(fields[2], a.powered) && BitText(fields[3], a.discovering)
    && (if a.present then IsMac(fields[4]) && a.address == UpperCase(fields[4]) else fields[4] == "-" && a.address == [])
  }

  /** A line that spells out a device. */
  predicate DeviceLine(line: string, d: Device) {
    var fields := Split(line);
    && |fields| == 8 && fields[0] == "D" && IsMac(fields[1]) && d.address == UpperCase(fields[1]) && DecodeName(fields[2]) == Some(d.name)
    && fields[3] == KindText(d.kind)
    && BitText(fields[4], d.paired) && BitText(fields[5], d.trusted) && BitText(fields[6], d.connected)
    && ReadInt(fields[7]) == Some(d.rssi) && (-127 <= d.rssi <= 20 || d.rssi == 127)
  }

  /** The lines spell out the snapshot. */
  predicate SpellsSnapshot(lines: seq<string>, s: Snapshot) {
    && |lines| == |s.devices| + 2 && lines[0] == "RG40XXV_BLUETOOTH_SNAPSHOT\t2" && AdapterLine(lines[1], s.adapter)
    && forall i :: 0 <= i < |s.devices| ==> DeviceLine(lines[i + 2], s.devices[i])
  }

  /** Without an adapter it is neither powered nor scanning and has no devices, and it scans
      only when powered. */
  predicate MakesSense(s: Snapshot) {
    && (!s.adapter.present ==> !s.adapter.powered && !s.adapter.discovering && |s.devices| == 0)
    && (s.adapter.discovering ==> s.adapter.powered)
  }

  lemma AdapterExactly(line: string, a: Adapter)
    ensures ParseAdapter(Split(line)) == Some(a) <==> AdapterLine(line, a)
  {
  }

  lemma KindExactly(s: string, k: Kind)
    ensures ParseKind(s) == Some(k) <==> s == KindText(k)
  {
  }

  lemma FieldsExactly(fields: seq<string>, address: string, d: Device)
    requires |fields| == 8
    ensures ParseDevice(address, fields) == Some(d) <==>
            && d.address == address && DecodeName(fields[2]) == Some(d.name) && fields[3] == KindText(d.kind)
            && BitText(fields[4], d.paired) && BitText(fields[5], d.trusted) && BitText(fields[6], d.connected)
            && ReadInt(fields[7]) == Some(d.rssi) && (-127 <= d.rssi <= 20 || d.rssi == 127)
  {
    KindExactly(fields[3], d.kind);
  }

  lemma DeviceExactly(line: string, devices: seq<Device>, d: Device)
    ensures ParseDeviceLine(line, devices) == Good(d) <==>
            DeviceLine(line, d) && |devices| < 16 && !HasAddress(devices, d.address)
  {
    var fields := Split(line);
    if |fields| == 8 {
      FieldsExactly(fields, UpperCase(fields[1]), d);
    }
    if DeviceLine(line, d) {
      LineNotEmpty(line);
    }
  }

  lemma LineNotEmpty(line: string)
    requires |Split(line)| > 1
    ensures line != []
  {
  }

  lemma Distinctly(earlier: seq<Device>, d: Device)
    requires DistinctAddresses(earlier) && !HasAddress(earlier, d.address)
    ensures DistinctAddresses(earlier + [d])
  {
  }

  lemma FirstLineParsed(lines: seq<string>, earlier: seq<Device>, all: seq<Device>) returns (d: Device)
    requires lines != [] && DistinctAddresses(earlier) && ParseDevices(lines, earlier) == Devices(all)
    ensures DeviceLine(lines[0], d) && |earlier| < 16 && DistinctAddresses(earlier + [d])
    ensures ParseDevices(lines[1..], earlier + [d]) == Devices(all)
  {
    d := ParseDeviceLine(lines[0], earlier).device;
    DeviceExactly(lines[0], earlier, d);
    Distinctly(earlier, d);
  }

  /** The lines from `n` on spell out the devices. */
  predicate LinesOfDevices(lines: seq<string>, all: seq<Device>, n: nat) {
    |all| == n + |lines| && forall i :: 0 <= i < |lines| ==> DeviceLine(lines[i], all[n + i])
  }

  lemma OneMoreLine(lines: seq<string>, all: seq<Device>, n: nat)
    requires lines != [] && |all| == n + |lines|
    ensures LinesOfDevices(lines, all, n) <==> DeviceLine(lines[0], all[n]) && LinesOfDevices(lines[1..], all, n + 1)
  {
    if DeviceLine(lines[0], all[n]) && LinesOfDevices(lines[1..], all, n + 1) {
      forall i | 0 <= i < |lines| ensures DeviceLine(lines[i], all[n + i]) {
        if i > 0 {
          assert DeviceLine(lines[1..][i - 1], all[n + 1 + (i - 1)]);
        }
      }
    }
    if LinesOfDevices(lines, all, n) {
      forall i | 0 <= i < |lines[1..]| ensures DeviceLine(lines[1..][i], all[n + 1 + i]) {
        assert DeviceLine(lines[i + 1], all[n + (i + 1)]);
      }
    }
  }

  lemma {:induction false} DevicesParsed(lines: seq<string>, earlier: seq<Device>, all: seq<Device>)
    requires |earlier| <= 16 && DistinctAddresses(earlier) && ParseDevices(lines, earlier) == Devices(all)
    ensures |all| <= 16 && earlier <= all && DistinctAddresses(all) && LinesOfDevices(lines, all, |earlier|)
    decreases |lines|
  {
    if lines != [] {
      var d := FirstLineParsed(lines, earlier, all);
      DevicesParsed(lines[1..], earlier + [d], all);
      assert all[|earlier|] == (earlier + [d])[|earlier|];
      OneMoreLine(lines, all, |earlier|);
    }
  }

  lemma NextDeviceParses(line: string, all: seq<Device>, n: nat)
    requires n < |all| <= 16 && DistinctAddresses(all) && DeviceLine(line, all[n])
    ensures ParseDeviceLine(line, all[..n]) == Good(all[n])
  {
    DeviceExactly(line, all[..n], all[n]);
  }

  lemma {:induction false} DevicesParse(lines: seq<string>, all: seq<Device>, n: nat)
    requires |all| <= 16 && DistinctAddresses(all) && LinesOfDevices(lines, all, n)
    ensures ParseDevices(lines, all[..n]) == Devices(all)
    decreases |lines|
  {
    if lines == [] {
      assert all[..n] == all;
    } else {
      OneMoreLine(lines, all, n);
      NextDeviceParses(lines[0], all, n);
      assert all[..n] + [all[n]] == all[..n + 1];
      DevicesParse(lines[1..], all, n + 1);
    }
  }

  /** A text is taken for a snapshot if and only if it ends in a newline, holds no NUL and no
      carriage return, its lines spell the snapshot out, nothing missing and nothing more,
      with at most 16 different addresses, and the snapshot makes sense. */
  lemma ParsesExactly(text: string, s: Snapshot)
    ensures Parse(text) == Parsed(s) <==>
            && text != [] && text[|text| - 1] == '\n' && '\0' !in text && '\r' !in text
            && SpellsSnapshot(Lines(text), s) && |s.devices| <= 16 && DistinctAddresses(s.devices) && MakesSense(s)
  {
    if text != [] && text[|text| - 1] == '\n' && '\0' !in text && '\r' !in text {
      LinesExactly(Lines(text), s);
    }
  }

  lemma FromThird(lines: seq<string>, devices: seq<Device>)
    requires |lines| >= 2
    ensures LinesOfDevices(lines[2..], devices, 0) <==>
            |lines| == |devices| + 2 && forall i :: 0 <= i < |devices| ==> DeviceLine(lines[i + 2], devices[i])
  {
    if LinesOfDevices(lines[2..], devices, 0) {
      forall i | 0 <= i < |devices| ensures DeviceLine(lines[i + 2], devices[i]) {
        assert DeviceLine(lines[2..][i], devices[0 + i]);
      }
    }
  }

  lemma LinesExactly(lines: seq<string>, s: Snapshot)
    ensures ParseLines(lines) == Parsed(s) <==>
            SpellsSnapshot(lines, s) && |s.devices| <= 16 && DistinctAddresses(s.devices) && MakesSense(s)
  {
    if |lines| >= 2 {
      FromThird(lines, s.devices);
      AdapterExactly(lines[1], s.adapter);
    }
    if ParseLines(lines) == Parsed(s) {
      DevicesParsed(lines[2..], [], s.devices);
    }
    if SpellsSnapshot(lines, s) && |s.devices| <= 16 && DistinctAddresses(s.devices) && MakesSense(s) {
      assert s.devices[..0] == [];
      DevicesParse(lines[2..], s.devices, 0);
    }
  }
}
