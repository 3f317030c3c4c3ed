// The text by which the Bluetooth helper tells the shell what it sees: what the helper
// prints (bluetooth_model.c) and how the shell reads it (bluetooth_backend.c).

module BluetoothSnapshot {
  import opened Options
  import opened Decimal
  import opened Utf8
  import opened Percent
  import opened Fields
  import opened BluetoothNames

  const MAX_DEVICES := 16
  const ADDRESS_LENGTH := 17
  const ENCODED_NAME_BYTES := 288
  const HEADER := "RG40XXV_BLUETOOTH_SNAPSHOT\t2"

  datatype Kind = Unknown | Controller | Audio | Keyboard | Mouse

  datatype Device = Device(address: string, name: string, kind: Kind, rssi: int, paired: bool, trusted: bool, connected: bool)

  datatype Adapter = Adapter(present: bool, powered: bool, discovering: bool, address: string)

  datatype Snapshot = Snapshot(adapter: Adapter, devices: seq<Device>)

  // ----- addresses -----

  predicate IsHex(c: char) {
    '0' <= c <= '9' || 'a' <= c <= 'f' || 'A' <= c <= 'F'
  }

  function Upper(c: char): char {
    if 'a' <= c <= 'z' then (c as int - 'a' as int + 'A' as int) as char else c
  }

  predicate IsMac(s: string) {
    |s| == ADDRESS_LENGTH && forall i :: 0 <= i < |s| ==> if i % 3 == 2 then s[i] == ':' else IsHex(s[i])
  }

  function UpperCase(s: string): (r: string)
    ensures |r| == |s| && forall i :: 0 <= i < |s| ==> r[i] == Upper(s[i])
  {
    seq(|s|, i requires 0 <= i < |s| => Upper(s[i]))
  }

  /** normalize_mac, the same in both programs. */
  function NormalizeMac(s: string): Option<string> {
    if IsMac(s) then Some(UpperCase(s)) else None
  }

  predicate Canonical(s: string) {
    NormalizeMac(s) == Some(s)
  }

  lemma NormalizedIsCanonical(s: string)
    requires IsMac(s)
    ensures Canonical(UpperCase(s))
  {
    var u := UpperCase(s);
    assert forall i :: 0 <= i < |u| ==> Upper(u[i]) == u[i];
    assert UpperCase(u) == u;
  }

  // ----- the helper's printer -----

  function Bit(b: bool): string {
    if b then "1" else "0"
  }

  function KindName(k: Kind): string {
    match k
    case Controller => "controller"
    case Audio => "audio"
    case Keyboard => "keyboard"
    case Mouse => "mouse"
    case Unknown => "unknown"
  }

  predicate RssiInRange(rssi: int) {
    -127 <= rssi <= 20 || rssi == 127
  }

  function ClampRssi(rssi: int): int {
    if RssiInRange(rssi) then rssi else 127
  }

  function AdapterFields(a: Adapter): seq<string> {
    ["A", Bit(a.present), Bit(a.present && a.powered), Bit(a.present && a.powered && a.discovering), a.address]
  }

  function DeviceFields(d: Device): seq<string>
    requires Octets(d.name)
  {
    ["D", d.address, Encode(d.name), KindName(d.kind), Bit(d.paired), Bit(d.trusted), Bit(d.connected), PrintInt(d.rssi)]
  }

  /** What a device is printed as. */
  function Shown(d: Device): Device {
    d.(address := UpperCase(d.address), rssi := ClampRssi(d.rssi))
  }

  /** The first `room` devices that have an address; None if a name does not fit its buffer. */
  function Printed(devices: seq<Device>, room: nat): Option<seq<Device>>
    requires forall i :: 0 <= i < |devices| ==> Octets(devices[i].name)
    decreases |devices|
  {
    if devices == [] || room == 0 then Some([])
    else if !IsMac(devices[0].address) then Printed(devices[1..], room)
    else if |Encode(devices[0].name)| > ENCODED_NAME_BYTES then None
    else match Printed(devices[1..], room - 1)
      case None => None
      case Some(rest) => Some([Shown(devices[0])] + rest)
  }

  function DeviceLines(devices: seq<Device>): (lines: seq<string>)
    requires forall i :: 0 <= i < |devices| ==> Octets(devices[i].name)
    ensures |lines| == |devices|
    ensures forall i :: 0 <= i < |devices| ==> lines[i] == Join(DeviceFields(devices[i]))
    decreases |devices|
  {
    if devices == [] then [] else [Join(DeviceFields(devices[0]))] + DeviceLines(devices[1..])
  }

  const NO_ADDRESS := "00:00:00:00:00:00"

  predicate AdapterPrintable(a: Adapter) {
    a.present ==> IsMac(a.address) && UpperCase(a.address) != NO_ADDRESS
  }

  function ShownAdapter(a: Adapter): Adapter {
    Adapter(a.present, a.present && a.powered, a.present && a.powered && a.discovering,
            if a.present then UpperCase(a.address) else "-")
  }

  function TextOf(a: Adapter, devices: seq<Device>): string
    requires forall i :: 0 <= i < |devices| ==> Octets(devices[i].name)
  {
    Unlines([HEADER, Join(AdapterFields(a))] + DeviceLines(devices))
  }

  /** rg40xxv_bt_write_snapshot: the text, or None where it reports an error. */
  function Write(m: Snapshot): Option<string>
    requires forall i :: 0 <= i < |m.devices| ==> Octets(m.devices[i].name)
  {
    if !AdapterPrintable(m.adapter) then None
    else if !m.adapter.present then Some(TextOf(ShownAdapter(m.adapter), []))
    else match Printed(m.devices, MAX_DEVICES)
      case None => None
      case Some(devices) =>
        PrintedNames(m.devices, MAX_DEVICES);
        Some(TextOf(ShownAdapter(m.adapter), devices))
  }

  lemma {:induction false} PrintedNames(devices: seq<Device>, room: nat)
    requires forall i :: 0 <= i < |devices| ==> Octets(devices[i].name)
    ensures Printed(devices, room).Some? ==>
              var p := Printed(devices, room).value;
              |p| <= room && forall i :: 0 <= i < |p| ==> Octets(p[i].name)
    decreases |devices|
  {
    if devices != [] && room > 0 {
      PrintedNames(devices[1..], if IsMac(devices[0].address) then room - 1 else room);
    }
  }

  // ----- the shell's parser -----

  datatype Errno = EPROTO | E2BIG | EEXIST

  datatype ParseResult = Parsed(snapshot: Snapshot) | Failed(error: Errno)

  function ParseBit(s: string): Option<bool> {
    if s == "0" then Some(false) else if s == "1" then Some(true) else None
  }

  function ParseKind(s: string): Option<Kind> {
    if s == "unknown" then Some(Unknown)
    else if s == "controller" then Some(Controller)
    else if s == "audio" then Some(Audio)
    else if s == "keyboard" then Some(Keyboard)
    else if s == "mouse" then Some(Mouse)
    else None
  }

  function ParseRssi(s: string): Option<int> {
    match ReadInt(s)
    case Some(v) => if RssiInRange(v) then Some(v) else None
    case None => None
  }

  /** decode_name */
  function DecodeName(encoded: string): Option<string> {
    if encoded == [] || |encoded| > 3 * NAME_BYTES then None
    else match LenientDecode(encoded)
      case None => None
      case Some(name) => if 0 < |name| <= NAME_BYTES && Text(name) then Some(name) else None
  }

  function ParseAdapter(fields: seq<string>): Option<Adapter> {
    if |fields| != 5 || fields[0] != "A" then None
    else match (ParseBit(fields[1]), ParseBit(fields[2]), ParseBit(fields[3]))
      case (Some(present), Some(powered), Some(discovering)) =>
        if !present then (if fields[4] == "-" then Some(Adapter(present, powered, discovering, [])) else None)
        else (match NormalizeMac(fields[4]) case None => None case Some(a) => Some(Adapter(present, powered, discovering, a)))
      case _ => None
  }

  /** The address of a D record, or None if it is not one. */
  function RecordAddress(fields: seq<string>): Option<string> {
    if |fields| != 8 || fields[0] != "D" then None else NormalizeMac(fields[1])
  }

  /** The rest of a D record. */
  function ParseDevice(address: string, fields: seq<string>): Option<Device>
    requires |fields| == 8
  {
    match (DecodeName(fields[2]), ParseKind(fields[3]), ParseRssi(fields[7]))
    case (Some(name), Some(kind), Some(rssi)) =>
      (match (ParseBit(fields[4]), ParseBit(fields[5]), ParseBit(fields[6]))
       case (Some(paired), Some(trusted), Some(connected)) =>
         Some(Device(address, name, kind, rssi, paired, trusted, connected))
       case _ => None)
    case _ => None
  }

  predicate HasAddress(devices: seq<Device>, address: string) {
    exists i :: 0 <= i < |devices| && devices[i].address == address
  }

  /** What one D line adds to the devices read so far. */
  function ParseDeviceLine(line: string, devices: seq<Device>): ParseDeviceResult {
    if line == [] then Bad(EPROTO)
    else if |devices| >= MAX_DEVICES then Bad(E2BIG)
    else
      var fields := Split(line);
      match RecordAddress(fields)
      case None => Bad(EPROTO)
      case Some(address) =>
        if HasAddress(devices, address) then Bad(EEXIST)
        else match ParseDevice(address, fields)
          case None => Bad(EPROTO)
          case Some(d) => Good(d)
  }

  datatype ParseDeviceResult = Good(device: Device) | Bad(error: Errno)

  datatype DevicesResult = Devices(devices: seq<Device>) | BadDevices(error: Errno)

  function ParseDevices(lines: seq<string>, devices: seq<Device>): DevicesResult
    decreases |lines|
  {
    if lines == [] then Devices(devices)
    else match ParseDeviceLine(lines[0], devices)
      case Bad(error) => BadDevices(error)
      case Good(d) => ParseDevices(lines[1..], devices + [d])
  }

  predicate Coherent(a: Adapter, devices: seq<Device>) {
    (a.present || (!a.powered && !a.discovering && devices == [])) && (a.powered || !a.discovering)
  }

  /** parse_snapshot */
  function Parse(text: string): ParseResult {
    if text == [] || text[|text| - 1] != '\n' || '\0' in text || '\r' in text then Failed(EPROTO)
    else ParseLines(Lines(text))
  }

  function ParseLines(lines: seq<string>): ParseResult {
    if |lines| == 0 || lines[0] != HEADER || |lines| == 1 then Failed(EPROTO)
    else match ParseAdapter(Split(lines[1]))
      case None => Failed(EPROTO)
      case Some(adapter) =>
        match ParseDevices(lines[2..], [])
        case BadDevices(error) => Failed(error)
        case Devices(devices) =>
          if Coherent(adapter, devices) then Parsed(Snapshot(adapter, devices)) else Failed(EPROTO)
  }
}
