// What holds in every run of the Bluetooth backend, however its steps interleave and
// whatever the helper prints.

module BluetoothBackendSafety {
  import opened Options
  import opened Fields
  import opened BluetoothSnapshot
  import opened BluetoothRoundTrip
  import opened BluetoothBackend

  // ----- the ring as a queue -----

  function Slot(head: nat, i: nat): (k: nat)
    requires head < QUEUE && i <= QUEUE
    ensures k < QUEUE && k == (head + i) % QUEUE
  {
    if head + i < QUEUE then head + i else head + i - QUEUE
  }

  predicate RingOk(ring: seq<Request>, head: nat, count: nat) {
    |ring| == QUEUE && head < QUEUE && count <= QUEUE
  }

  /** The requests waiting, oldest first. */
  function Queue(ring: seq<Request>, head: nat, count: nat): (q: seq<Request>)
    requires RingOk(ring, head, count)
    ensures |q| == count && forall i :: 0 <= i < count ==> q[i] == ring[Slot(head, i)]
  {
    seq(count, i requires 0 <= i < count => ring[Slot(head, i)])
  }

  lemma QueueGrows(ring: seq<Request>, head: nat, count: nat, r: Request)
    requires RingOk(ring, head, count) && count < QUEUE
    ensures Queue(ring[Slot(head, count) := r], head, count + 1) == Queue(ring, head, count) + [r]
  {
    var next := ring[Slot(head, count) := r];
    forall i | 0 <= i < count ensures next[Slot(head, i)] == ring[Slot(head, i)] {
      assert Slot(head, i) != Slot(head, count);
    }
  }

  lemma QueueShrinks(ring: seq<Request>, head: nat, count: nat)
    requires RingOk(ring, head, count) && count > 0
    ensures Queue(ring, head, count) == [ring[head]] + Queue(ring, Slot(head, 1), count - 1)
  {
    forall i | 0 <= i < count - 1 ensures Slot(Slot(head, 1), i) == Slot(head, i + 1) {
    }
  }

  // ----- device lists -----

  predicate DevicesOk(devices: seq<Device>) {
    |devices| <= MAX_DEVICES && DistinctAddresses(devices)
  }

  lemma {:induction false} ParsedDevicesOk(lines: seq<string>, devices: seq<Device>)
    requires DevicesOk(devices)
    ensures var r := ParseDevices(lines, devices);
            r.Devices? ==> DevicesOk(r.devices)
    decreases |lines|
  {
    if lines != [] && ParseDeviceLine(lines[0], devices).Good? {
      var d := ParseDeviceLine(lines[0], devices).device;
      AddedOk(devices, d);
      ParsedDevicesOk(lines[1..], devices + [d]);
    }
  }

  lemma AddedOk(devices: seq<Device>, d: Device)
    requires DevicesOk(devices) && |devices| < MAX_DEVICES && !HasAddress(devices, d.address)
    ensures DevicesOk(devices + [d])
  {
  }

  /** Whatever text is accepted, it yields at most 16 devices with different addresses. */
  lemma ParsedOk(text: string)
    ensures Parse(text).Parsed? ==> DevicesOk(Parse(text).snapshot.devices)
  {
    var lines := Lines(text);
    if |lines| >= 2 {
      ParsedDevicesOk(lines[2..], []);
    }
  }

  lemma {:induction false} RetainOk(previous: seq<Device>, devices: seq<Device>)
    requires DevicesOk(devices)
    ensures var r := Retain(previous, devices);
            DevicesOk(r) && devices <= r
    decreases |previous|
  {
    if previous != [] {
      var d := previous[0];
      if MerelyDiscovered(d) && !HasAddress(devices, d.address) && |devices| < MAX_DEVICES {
        AddedOk(devices, d);
        RetainOk(previous[1..], devices + [d]);
      } else {
        RetainOk(previous[1..], devices);
      }
    }
  }

  /** A discovery of the last list is still there, or the list is full. */
  lemma {:induction false} RetainKeepsDiscoveries(previous: seq<Device>, devices: seq<Device>, i: nat)
    requires i < |previous| && MerelyDiscovered(previous[i]) && DevicesOk(devices)
    ensures var r := Retain(previous, devices);
            HasAddress(r, previous[i].address) || |r| == MAX_DEVICES
    decreases |previous|
  {
    var d := previous[0];
    var next := if !MerelyDiscovered(d) || HasAddress(devices, d.address) || |devices| >= MAX_DEVICES then devices else devices + [d];
    if i > 0 {
      if next != devices { AddedOk(devices, d); }
      RetainKeepsDiscoveries(previous[1..], next, i - 1);
    } else if next == devices {
      RetainOk(previous[1..], devices);
      PrefixHas(devices, Retain(previous[1..], devices), d.address);
    } else {
      AddedOk(devices, d);
      RetainOk(previous[1..], next);
      assert next[|devices|] == d;
      PrefixHas(next, Retain(previous[1..], next), d.address);
    }
  }

  /** Whatever is added to the helper's list is a discovery of the last one. */
  lemma {:induction false} RetainAddsDiscoveries(previous: seq<Device>, devices: seq<Device>, i: nat)
    requires DevicesOk(devices) && |devices| <= i < |Retain(previous, devices)|
    ensures var r := Retain(previous, devices);
            r[i] in previous && MerelyDiscovered(r[i])
    decreases |previous|
  {
    var d := previous[0];
    if MerelyDiscovered(d) && !HasAddress(devices, d.address) && |devices| < MAX_DEVICES {
      AddedOk(devices, d);
      var next := devices + [d];
      RetainOk(previous[1..], next);
      if i > |devices| {
        RetainAddsDiscoveries(previous[1..], next, i);
      } else {
        assert Retain(previous[1..], next)[i] == next[i] == d;
      }
    } else {
      RetainAddsDiscoveries(previous[1..], devices, i);
    }
  }

  lemma PrefixHas(a: seq<Device>, b: seq<Device>, address: string)
    requires a <= b
    ensures HasAddress(a, address) ==> HasAddress(b, address)
  {
    if HasAddress(a, address) {
      var i :| 0 <= i < |a| && a[i].address == address;
      assert b[i].address == address;
    }
  }

  // ----- the invariant -----

  predicate QueueOk(s: Backend) {
    && RingOk(s.ring, s.head, s.count)
    && (if s.running then s.accepted == s.taken + Queue(s.ring, s.head, s.count) else s.taken <= s.accepted)
  }

  predicate IdsOk(s: Backend) {
    s.nextId == |s.accepted| && forall i :: 0 <= i < |s.accepted| ==> s.accepted[i].id == i + 1
  }

  predicate Busy(w: Worker) {
    !w.Idle? && !w.Gone?
  }

  predicate WorkerOk(s: Backend) {
    && s.finished <= s.taken && |s.taken| <= |s.finished| + 1
    && (s.worker.Idle? ==> s.finished == s.taken)
    && (Busy(s.worker) ==> s.taken == s.finished + [s.worker.request])
  }

  predicate ViewsOk(s: Backend) {
    && |s.views| == s.published.generation > 0
    && s.views[|s.views| - 1] == s.published
    && (forall i :: 0 <= i < |s.views| ==> s.views[i].generation == i + 1 && DevicesOk(s.views[i].devices))
    && (forall i, j :: 0 <= i < j < |s.views| ==> s.views[i].completed <= s.views[j].completed)
  }

  predicate DataOk(s: Backend) {
    && s.published.adapter == s.confirmed.adapter && s.published.devices == s.confirmed.devices
    && s.published.completed == s.confirmed.completed == |s.finished|
    && DevicesOk(s.confirmed.devices)
    && (s.worker.Merging? || s.worker.Merged? ==> DevicesOk(s.worker.snapshot.devices))
  }

  predicate Inv(s: Backend) {
    QueueOk(s) && IdsOk(s) && WorkerOk(s) && ViewsOk(s) && DataOk(s)
  }

  lemma StartedOk(s: Backend)
    requires s == Started()
    ensures Inv(s)
  {
  }

  // ----- each step keeps it -----

  lemma EnqueueOk(s: Backend, action: Action, powered: bool, address: Option<string>)
    requires Inv(s)
    ensures Inv(Enqueue(s, action, powered, address))
  {
    if EnqueueVerdict(s, action, address).Queued? {
      var r := Request(action, s.nextId + 1, RequestAddress(action, address).value, powered);
      QueueGrows(s.ring, s.head, s.count, r);
      assert s.taken + (Queue(s.ring, s.head, s.count) + [r]) == s.accepted + [r];
    }
  }

  lemma StopOk(s: Backend)
    requires Inv(s)
    ensures Inv(Stop(s))
  {
  }

  lemma TakeOk(s: Backend)
    requires Inv(s)
    ensures Inv(Take(s))
  {
    if s.worker.Idle? && s.running && s.count > 0 {
      QueueShrinks(s.ring, s.head, s.count);
      var r := s.ring[s.head];
      assert s.taken + ([r] + Queue(s.ring, Slot(s.head, 1), s.count - 1)) == s.taken + [r] + Queue(s.ring, Slot(s.head, 1), s.count - 1);
    }
  }

  lemma ViewsGrow(s: Backend, v: View)
    requires ViewsOk(s) && DevicesOk(v.devices) && s.published.completed <= v.completed
    ensures ViewsOk(Publish(s, v))
  {
    forall i | 0 <= i < |s.views| ensures s.views[i].completed <= v.completed {
      if i < |s.views| - 1 {
        assert s.views[i].completed <= s.views[|s.views| - 1].completed;
      }
    }
  }

  lemma PublishWorkingOk(s: Backend)
    requires Inv(s)
    ensures Inv(PublishWorking(s))
  {
    if s.worker.Took? {
      var r := s.worker.request;
      ViewsGrow(s, s.confirmed.(phase := Working, action := Some(r.action), active := r.id));
    }
  }

  lemma JudgeOk(s: Backend)
    requires Inv(s)
    ensures Inv(Judge(s))
  {
    if s.worker.Returned? {
      ParsedOk(s.worker.helper.output);
    }
  }

  lemma MergeOk(s: Backend)
    requires Inv(s)
    ensures Inv(Merge(s))
  {
    if s.worker.Merging? {
      RetainOk(s.confirmed.devices, s.worker.snapshot.devices);
    }
  }

  /** The request at hand is the next one in order. */
  lemma CurrentId(s: Backend)
    requires Inv(s) && Busy(s.worker)
    ensures s.worker.request.id == |s.finished| + 1
  {
    var k := |s.finished|;
    assert s.taken[k] == s.worker.request;
    assert s.taken <= s.accepted;
    assert s.accepted[k] == s.taken[k];
  }

  lemma ConcludeOk(s: Backend, v: View)
    requires Inv(s) && Busy(s.worker) && DevicesOk(v.devices) && v.completed == s.worker.request.id
    ensures Inv(Conclude(s, s.worker.request, v))
  {
    CurrentId(s);
    ViewsGrow(s, v);
  }

  lemma PublishOutcomeOk(s: Backend)
    requires Inv(s)
    ensures Inv(PublishOutcome(s))
  {
    match s.worker {
      case Merged(r, snapshot) =>
        ConcludeOk(s, View(snapshot.adapter, snapshot.devices, 0, 0, r.id, Admitted, Ready, Some(r.action), 0, 0, 0));
      case Failing(r, h, error) =>
        ConcludeOk(s, s.confirmed.(phase := Error, action := Some(r.action), active := 0, completed := r.id,
                                   error := if error != 0 then error else EIO, exitCode := h.exitCode, termSignal := h.termSignal));
      case _ =>
    }
  }

  lemma StepOk(s: Backend, step: Step)
    requires Inv(s)
    ensures Inv(Next(s, step))
  {
    match step {
      case DoEnqueue(action, powered, address) => EnqueueOk(s, action, powered, address);
      case DoStop => StopOk(s);
      case DoTake => TakeOk(s);
      case DoPublishWorking => PublishWorkingOk(s);
      case DoReturn(h) =>
      case DoJudge => JudgeOk(s);
      case DoMerge => MergeOk(s);
      case DoPublishOutcome => PublishOutcomeOk(s);
    }
  }

  lemma {:induction false} RunOk(s: Backend, steps: seq<Step>)
    requires Inv(s)
    ensures Inv(Run(s, steps))
    decreases |steps|
  {
    if steps != [] {
      StepOk(s, steps[0]);
      RunOk(Next(s, steps[0]), steps[1..]);
    }
  }

  // ----- main results -----

  /** In every run: requests leave the ring in the order they were accepted, each once, and
      all that were accepted and not yet taken are waiting in it; outcomes are published
      one per request in the same order; generations count up by one and completed ids
      never go back; every list shown has at most 16 different addresses; and what is shown
      is always the last confirmed data. */
  lemma EveryRun(start: Backend, steps: seq<Step>)
    requires start == Started()
    ensures var s := Run(start, steps);
            && (forall i :: 0 <= i < |s.accepted| ==> s.accepted[i].id == i + 1)
            && s.taken <= s.accepted && s.finished <= s.taken && |s.taken| <= |s.finished| + 1
            && RingOk(s.ring, s.head, s.count)
            && (s.running ==> s.accepted[|s.taken|..] == Queue(s.ring, s.head, s.count))
            && (forall i, j :: 0 <= i < j < |s.views| ==>
                  s.views[i].generation < s.views[j].generation && s.views[i].completed <= s.views[j].completed)
            && (forall i :: 0 <= i < |s.views| ==> DevicesOk(s.views[i].devices))
            && s.published.completed == |s.finished|
            && s.published.adapter == s.confirmed.adapter && s.published.devices == s.confirmed.devices
  {
    StartedOk(start);
    RunOk(start, steps);
  }

  ghost predicate Reachable(s: Backend) {
    exists start: Backend, steps: seq<Step> :: start == Started() && s == Run(start, steps)
  }

  lemma ReachableOk(s: Backend)
    requires Reachable(s)
    ensures Inv(s)
  {
    var start: Backend, steps: seq<Step> :| start == Started() && s == Run(start, steps);
    StartedOk(start);
    RunOk(start, steps);
  }

  /** A failed request reports itself and its error, and shows exactly the adapter and
      devices that were shown before it. */
  lemma FailureKeepsData(s: Backend)
    requires Reachable(s) && s.worker.Failing?
    ensures var t := PublishOutcome(s);
            && t.published.adapter == s.published.adapter && t.published.devices == s.published.devices
            && t.published.completed == s.worker.request.id > s.published.completed
            && t.published.error != 0 && t.published.phase.Error? && t.worker.Idle?
  {
    ReachableOk(s);
    CurrentId(s);
  }

  /** A successful one shows the helper's devices first, then only discoveries of before. */
  lemma SuccessShowsHelper(s: Backend)
    requires Reachable(s) && s.worker.Merging?
    ensures var shown := PublishOutcome(Merge(s)).published;
            && s.worker.snapshot.devices <= shown.devices && shown.adapter == s.worker.snapshot.adapter
            && DevicesOk(shown.devices) && shown.completed == s.worker.request.id && shown.error == 0
            && (s.worker.request.action.Scan? ==> shown.devices == s.worker.snapshot.devices)
            && forall i :: |s.worker.snapshot.devices| <= i < |shown.devices| ==>
                 shown.devices[i] in s.published.devices && MerelyDiscovered(shown.devices[i])
  {
    ReachableOk(s);
    MergeOk(s);
    var was, got := s.confirmed.devices, s.worker.snapshot.devices;
    RetainOk(was, got);
    forall i | |got| <= i < |Retain(was, got)|
      ensures Retain(was, got)[i] in was && MerelyDiscovered(Retain(was, got)[i])
    {
      RetainAddsDiscoveries(was, got, i);
    }
  }

  /** Once stopped, nothing more is accepted or taken out of the ring. */
  lemma {:induction false} StopIsFinal(s: Backend, steps: seq<Step>)
    requires !s.running
    ensures var t := Run(s, steps);
            t.accepted == s.accepted && t.taken == s.taken && !t.running
    decreases |steps|
  {
    if steps != [] {
      StopIsFinal(Next(s, steps[0]), steps[1..]);
    }
  }

  lemma {:induction false} ViewsOnlyGrow(s: Backend, steps: seq<Step>)
    ensures s.views <= Run(s, steps).views
    decreases |steps|
  {
    if steps != [] {
      assert s.views <= Next(s, steps[0]).views;
      ViewsOnlyGrow(Next(s, steps[0]), steps[1..]);
    }
  }

  /** A poll reports news exactly when something was published since the last one. */
  lemma PollReportsNews(s: Backend, steps: seq<Step>)
    requires Reachable(s)
    ensures var t := Run(s, steps);
            && (Poll(t, s.published.generation).0 <==> t.views != s.views)
            && Poll(t, s.published.generation).1 == t.published.generation
  {
    ReachableOk(s);
    RunOk(s, steps);
    ViewsOnlyGrow(s, steps);
  }
}
