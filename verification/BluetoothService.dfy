// bluetooth_backend.c as it runs: the parser's loops over its buffer, and the object whose
// ring, counters and snapshots change under the mutex.  Each method is proved to be the
// corresponding function or step.

module BluetoothService {
  import opened Options
  import opened Utf8
  import opened Percent
  import opened Fields
  import opened Cutting
  import opened BluetoothNames
  import opened BluetoothSnapshot
  import opened BluetoothBackend
  import opened BluetoothBackendSafety

  // ----- parsing -----

  /** normalize_mac */
  method NormalizeMacText(input: string) returns (output: Option<string>)
    ensures output == NormalizeMac(input)
  {
    if |input| != ADDRESS_LENGTH { return None; }
    var text := "";
    for i := 0 to ADDRESS_LENGTH
      invariant |text| == i && forall k :: 0 <= k < i ==> text[k] == Upper(input[k])
      invariant forall k :: 0 <= k < i ==> if k % 3 == 2 then input[k] == ':' else IsHex(input[k])
    {
      if i % 3 == 2 {
        if input[i] != ':' { return None; }
        text := text + [':'];
      } else {
        if !IsHex(input[i]) { return None; }
        text := text + [Upper(input[i])];
      }
    }
    assert text == UpperCase(input);
    output := Some(text);
  }

  /** decode_name's loop. */
  method DecodeNameText(encoded: string) returns (name: Option<string>)
    requires Octets(encoded)
    ensures name == DecodeName(encoded)
  {
    if encoded == [] || |encoded| > 3 * NAME_BYTES { return None; }
    var decoded := DecodeBytes(encoded);
    if decoded.None? || |decoded.value| == 0 || |decoded.value| > NAME_BYTES { return None; }
    LenientDecodesOctets(encoded);
    var ok := Utf8TextValid(decoded.value);
    name := if ok then decoded else None;
  }

  function Joined(front: string, rest: Option<string>): Option<string> {
    match rest case None => None case Some(s) => Some(front + s)
  }

  lemma JoinedPrepend(front: string, c: char, rest: Option<string>)
    ensures Joined(front, Prepend(c, rest)) == Joined(front + [c], rest)
  {
    if rest.Some? {
      assert front + ([c] + rest.value) == front + [c] + rest.value;
    }
  }

  lemma JoinedEmpty(rest: Option<string>)
    ensures Joined("", rest) == rest
  {
    if rest.Some? {
      assert "" + rest.value == rest.value;
    }
  }

  method DecodeBytes(encoded: string) returns (decoded: Option<string>)
    ensures decoded == LenientDecode(encoded)
  {
    var output := "";
    var i := 0;
    assert encoded[0..] == encoded;
    JoinedEmpty(LenientDecode(encoded));
    while i < |encoded|
      invariant 0 <= i <= |encoded|
      invariant LenientDecode(encoded) == Joined(output, LenientDecode(encoded[i..]))
    {
      var value := encoded[i];
      ghost var rest := encoded[i..];
      if value == '%' {
        if i + 2 >= |encoded| { return None; }
        var high, low := AnyHexValue(encoded[i + 1]), AnyHexValue(encoded[i + 2]);
        if high.None? || low.None? { return None; }
        value := (high.value * 16 + low.value) as char;
        assert rest[3..] == encoded[i + 3..];
        JoinedPrepend(output, value, LenientDecode(encoded[i + 3..]));
        i := i + 3;
      } else {
        assert rest[1..] == encoded[i + 1..];
        JoinedPrepend(output, value, LenientDecode(encoded[i + 1..]));
        i := i + 1;
      }
      output := output + [value];
    }
    assert encoded[i..] == [] && output + [] == output;
    decoded := Some(output);
  }

  /** One D line. */
  method ParseDeviceText(line: string, devices: seq<Device>) returns (r: ParseDeviceResult)
    requires Octets(line) && line != []
    ensures r == ParseDeviceLine(line, devices)
  {
    if |devices| >= MAX_DEVICES { return Bad(E2BIG); }
    var split := SplitFields(line, 8);
    if split.None? { return Bad(EPROTO); }
    var fields := split.value;
    if |fields| != 8 || fields[0] != "D" { return Bad(EPROTO); }
    var address := NormalizeMacText(fields[1]);
    if address.None? { return Bad(EPROTO); }
    for i := 0 to |devices|
      invariant !HasAddress(devices[..i], address.value)
    {
      if devices[i].address == address.value { return Bad(EEXIST); }
      assert devices[..i + 1] == devices[..i] + [devices[i]];
    }
    assert devices[..|devices|] == devices;
    var d := ParseDevice(address.value, fields);
    r := if d.None? then Bad(EPROTO) else Good(d.value);
  }

  /** How far parse_snapshot is after `n` lines. */
  ghost predicate ReadSoFar(lines: seq<string>, n: nat, adapter: Adapter, devices: seq<Device>) {
    && n <= |lines|
    && (n >= 1 ==> lines[0] == HEADER)
    && (n < 2 ==> devices == [])
    && (n >= 2 ==> ParseAdapter(Split(lines[1])) == Some(adapter) && ParseDevices(lines[2..], []) == ParseDevices(lines[n..], devices))
  }

  /** One line more. */
  method ParseLine(line: string, lineNumber: nat, adapter: Adapter, devices: seq<Device>, ghost lines: seq<string>)
    returns (error: Option<Errno>, nextAdapter: Adapter, nextDevices: seq<Device>)
    requires Octets(line) && ReadSoFar(lines, lineNumber, adapter, devices)
    requires lineNumber < |lines| && lines[lineNumber] == line
    ensures error.None? ==> ReadSoFar(lines, lineNumber + 1, nextAdapter, nextDevices)
    ensures error.Some? ==> ParseLines(lines) == Failed(error.value)
  {
    nextAdapter, nextDevices := adapter, devices;
    if line == [] {
      EmptyLine(lines, lineNumber, adapter, devices);
      return Some(EPROTO), adapter, devices;
    }
    if lineNumber == 0 {
      if line != HEADER { return Some(EPROTO), adapter, devices; }
    } else if lineNumber == 1 {
      var a := ParseAdapter(Split(line));
      if a.None? { return Some(EPROTO), adapter, devices; }
      nextAdapter := a.value;
    } else {
      var d := ParseDeviceText(line, devices);
      assert lines[lineNumber..][1..] == lines[lineNumber + 1..];
      if d.Bad? { return Some(d.error), adapter, devices; }
      nextDevices := devices + [d.device];
    }
    error := None;
  }

  /** parse_snapshot's loop. */
  method ParseSnapshotText(output: string) returns (r: ParseResult)
    requires Octets(output)
    ensures r == Parse(output)
  {
    if output == [] || output[|output| - 1] != '\n' || '\0' in output || '\r' in output { return Failed(EPROTO); }
    var lines := CutLines(output);
    LinesAreOctets(output);
    FinalNewline(output);
    r := ParseAllLines(lines);
  }

  method ParseAllLines(lines: seq<string>) returns (r: ParseResult)
    requires lines != [] && forall i :: 0 <= i < |lines| ==> Octets(lines[i])
    ensures r == ParseLines(lines)
  {
    var adapter, devices := NO_ADAPTER, [];
    for n := 0 to |lines|
      invariant ReadSoFar(lines, n, adapter, devices)
    {
      var error;
      error, adapter, devices := ParseLine(lines[n], n, adapter, devices, lines);
      if error.Some? { return Failed(error.value); }
    }
    AllRead(lines, |lines|, adapter, devices);
    r := if |lines| >= 2 && Coherent(adapter, devices) then Parsed(Snapshot(adapter, devices)) else Failed(EPROTO);
  }

  lemma {:induction false} LinesAreOctets(s: string)
    requires Octets(s)
    ensures forall i :: 0 <= i < |Lines(s)| ==> Octets(Lines(s)[i])
    decreases |s|
  {
    if s != [] {
      var i := IndexOf(s, '\n');
      if i < |s| {
        LinesAreOctets(s[i + 1..]);
      }
    }
  }

  lemma FinalNewline(s: string)
    requires s != []
    ensures Lines(s) != []
  {
  }

  lemma AllRead(lines: seq<string>, n: nat, adapter: Adapter, devices: seq<Device>)
    requires ReadSoFar(lines, n, adapter, devices) && lines[n..] == [] && lines != []
    ensures ParseLines(lines)
         == if n >= 2 && Coherent(adapter, devices) then Parsed(Snapshot(adapter, devices)) else Failed(EPROTO)
  {
  }

  lemma EmptyLine(lines: seq<string>, n: nat, adapter: Adapter, devices: seq<Device>)
    requires ReadSoFar(lines, n, adapter, devices) && n < |lines| && lines[n] == []
    ensures ParseLines(lines) == Failed(EPROTO)
  {
    if n == 1 {
      assert Parts([], '\t') == [[]];
    }
  }

  /** retain_discovered's loop. */
  method RetainDiscovered(previous: seq<Device>, snapshot: seq<Device>) returns (devices: seq<Device>)
    ensures devices == Retain(previous, snapshot)
  {
    devices := snapshot;
    for i := 0 to |previous|
      invariant Retain(previous[i..], devices) == Retain(previous, snapshot)
    {
      assert previous[i..][1..] == previous[i + 1..];
      var d := previous[i];
      if MerelyDiscovered(d) {
        var present := false;
        for j := 0 to |devices|
          invariant present <==> HasAddress(devices[..j], d.address)
        {
          assert devices[..j + 1] == devices[..j] + [devices[j]];
          if devices[j].address == d.address { present := true; }
        }
        assert devices[..|devices|] == devices;
        if !present && |devices| < MAX_DEVICES { devices := devices + [d]; }
      }
    }
  }

  // ----- the object -----

  class Service {
    const ring: array<Request>
    var head: nat
    var count: nat
    var nextId: nat
    var running: bool
    var published: View
    var confirmed: View
    var worker: Worker
    var accepted: seq<Request>
    var taken: seq<Request>
    var views: seq<View>
    var finished: seq<Request>

    ghost predicate Valid()
      reads this
    {
      ring.Length == QUEUE && head < QUEUE && count <= QUEUE
    }

    ghost function Abs(): Backend
      reads this, ring
    {
      Backend(ring[..], head, count, nextId, running, published, confirmed, worker, accepted, taken, views, finished)
    }

    /** bluetooth_backend_start, admitted and with a worker. */
    constructor ()
      ensures Valid() && Abs() == Started() && fresh(ring)
    {
      var first := Request(Status, 1, [], false);
      ring := new Request[QUEUE](_ => first);
      head, count, nextId, running, worker := 0, 1, 1, true, Idle;
      published, confirmed := Blank(Admitted, Loading), Blank(Admitted, Loading);
      accepted, taken, views, finished := [first], [], [Blank(Admitted, Loading)], [];
      new;
      assert ring[..] == Slots(QUEUE, first);
    }

    /** enqueue_request */
    method EnqueueRequest(action: Action, powered: bool, address: Option<string>) returns (verdict: Verdict)
      requires Valid()
      modifies this, ring
      ensures Valid() && verdict == EnqueueVerdict(old(Abs()), action, address)
      ensures Abs() == Enqueue(old(Abs()), action, powered, address)
    {
      var carried: Option<string> := if NeedsAddress(action) then None else Some([]);
      if address.Some? { carried := NormalizeMacText(address.value); }
      if carried.None? { return Invalid; }
      if !running || !published.gate.Admitted? { return NoDevice; }
      if count >= QUEUE { return Full; }
      nextId := nextId + 1;
      var r := Request(action, nextId, carried.value, powered);
      ring[(head + count) % QUEUE] := r;
      count := count + 1;
      accepted := accepted + [r];
      verdict := Queued(nextId);
    }

    /** The worker's wait for a request or the end. */
    method TakeRequest()
      requires Valid() && worker.Idle? && (!running || count > 0)
      modifies this
      ensures Valid() && Abs() == Take(old(Abs()))
    {
      if !running {
        worker := Gone;
      } else {
        var r := ring[head];
        head := (head + 1) % QUEUE;
        count := count - 1;
        worker := Took(r);
        taken := taken + [r];
      }
    }

    method PublishLocked(v: View)
      requires Valid()
      modifies this`published, this`views
      ensures Abs() == Publish(old(Abs()), v)
    {
      published := v.(generation := published.generation + 1);
      views := views + [published];
    }

    method ShowWorking()
      requires Valid() && worker.Took?
      modifies this`published, this`views, this`worker
      ensures Valid() && Abs() == PublishWorking(old(Abs()))
    {
      PublishLocked(confirmed.(phase := Working, action := Some(worker.request.action), active := worker.request.id));
      worker := Executing(worker.request);
    }

    /** What becomes of the helper's result. */
    method JudgeResult()
      requires Valid() && worker.Returned? && Octets(worker.helper.output)
      modifies this`worker
      ensures Valid() && Abs() == Judge(old(Abs()))
    {
      var r, h := worker.request, worker.helper;
      if !running {
        worker := Gone;
      } else if h.error != 0 {
        worker := Failing(r, h, h.error);
      } else {
        var parsed := ParseSnapshotText(h.output);
        worker := if parsed.Failed? then Failing(r, h, ErrnoValue(parsed.error)) else Merging(r, parsed.snapshot);
      }
    }

    method MergeDiscovered()
      requires Valid() && worker.Merging?
      modifies this`worker
      ensures Valid() && Abs() == Merge(old(Abs()))
    {
      var r, snapshot := worker.request, worker.snapshot;
      if !r.action.Scan? && snapshot.adapter.present && snapshot.adapter.powered
         && confirmed.gate.Admitted? && confirmed.adapter.powered {
        var devices := RetainDiscovered(confirmed.devices, snapshot.devices);
        snapshot := snapshot.(devices := devices);
      }
      worker := Merged(r, snapshot);
    }

    /** publish_success */
    method PublishSuccess()
      requires Valid() && worker.Merged?
      modifies this`published, this`views, this`confirmed, this`worker, this`finished
      ensures Valid() && Abs() == PublishOutcome(old(Abs()))
    {
      var r, snapshot := worker.request, worker.snapshot;
      PublishLocked(View(snapshot.adapter, snapshot.devices, 0, 0, r.id, Admitted, Ready, Some(r.action), 0, 0, 0));
      confirmed, worker, finished := published, Idle, finished + [r];
    }

    /** publish_failure */
    method PublishFailure()
      requires Valid() && worker.Failing?
      modifies this`published, this`views, this`confirmed, this`worker, this`finished
      ensures Valid() && Abs() == PublishOutcome(old(Abs()))
    {
      var r, h, error := worker.request, worker.helper, worker.error;
      PublishLocked(confirmed.(phase := Error, action := Some(r.action), active := 0, completed := r.id,
                               error := if error != 0 then error else EIO, exitCode := h.exitCode, termSignal := h.termSignal));
      confirmed, worker, finished := published, Idle, finished + [r];
    }

    method PollView(seen: nat) returns (news: bool, view: View, generation: nat)
      ensures (news, generation) == Poll(Abs(), seen) && view == published
    {
      view := published;
      news := published.generation != seen;
      generation := if news then published.generation else seen;
    }

    method StopService()
      requires Valid()
      modifies this`running, this`count
      ensures Valid() && Abs() == Stop(old(Abs()))
    {
      running, count := false, 0;
    }
  }
}
