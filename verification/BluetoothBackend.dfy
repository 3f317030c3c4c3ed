// bluetooth_backend.c: the shell queues requests in a ring, one worker runs the helper for
// each and publishes what came of it, and the interface polls.  A transition system whose
// steps are the regions under the mutex; the helper may return anything at any time.

module BluetoothBackend {
  import opened Options
  import opened BluetoothSnapshot

  const QUEUE := 32

  datatype Action = Status | Scan | Power | Pair | Connect | Disconnect | Forget

  datatype Request = Request(action: Action, id: nat, address: string, powered: bool)

  datatype Gate = Pending | Admitted | Rejected

  datatype Phase = Stopped | PendingPhase | Loading | Ready | Working | Error

  /** What the interface sees. */
  datatype View = View(adapter: Adapter, devices: seq<Device>, generation: nat, active: nat, completed: nat,
                       gate: Gate, phase: Phase, action: Option<Action>, error: int, exitCode: int, termSignal: int)

  /** How a run of the helper ended. */
  datatype Helper = Helper(error: int, exitCode: int, termSignal: int, output: string)

  datatype Worker =
    | Idle
    | Took(request: Request)
    | Executing(request: Request)
    | Returned(request: Request, helper: Helper)
    | Failing(request: Request, helper: Helper, error: int)
    | Merging(request: Request, snapshot: Snapshot)
    | Merged(request: Request, snapshot: Snapshot)
    | Gone

  /** `accepted` and `taken` record the requests let into the ring and out of it, `views`
      everything ever published, and `finished` the requests whose outcome was published. */
  datatype Backend = Backend(ring: seq<Request>, head: nat, count: nat, nextId: nat, running: bool,
                             published: View, confirmed: View, worker: Worker,
                             accepted: seq<Request>, taken: seq<Request>, views: seq<View>, finished: seq<Request>)

  const EIO := 5
  const NO_ADAPTER: Adapter := Adapter(false, false, false, [])

  function Blank(gate: Gate, phase: Phase): View {
    View(NO_ADAPTER, [], 1, 0, 0, gate, phase, None, 0, -1, 0)
  }

  function Slots(n: nat, r: Request): (s: seq<Request>)
    ensures |s| == n && forall i :: 0 <= i < n ==> s[i] == r
  {
    seq(n, _ => r)
  }

  /** The state a successful start leaves: a first status request is already queued. */
  function Started(): Backend {
    var first := Request(Status, 1, [], false);
    Backend(Slots(QUEUE, first), 0, 1, 1, true, Blank(Admitted, Loading), Blank(Admitted, Loading), Idle,
            [first], [], [Blank(Admitted, Loading)], [])
  }

  // ----- the interface's steps -----

  predicate NeedsAddress(a: Action) {
    a.Pair? || a.Connect? || a.Disconnect? || a.Forget?
  }

  /** The address a request carries; None makes it invalid. */
  function RequestAddress(action: Action, address: Option<string>): Option<string> {
    match address
    case None => if NeedsAddress(action) then None else Some([])
    case Some(a) => NormalizeMac(a)
  }

  datatype Verdict = Queued(id: nat) | Invalid | NoDevice | Full

  function EnqueueVerdict(s: Backend, action: Action, address: Option<string>): Verdict {
    if RequestAddress(action, address).None? then Invalid
    else if !s.running || !s.published.gate.Admitted? then NoDevice
    else if s.count >= QUEUE then Full
    else Queued(s.nextId + 1)
  }

  /** enqueue_request */
  function Enqueue(s: Backend, action: Action, powered: bool, address: Option<string>): Backend {
    match EnqueueVerdict(s, action, address)
    case Queued(id) =>
      var r := Request(action, id, RequestAddress(action, address).value, powered);
      var tail := (s.head + s.count) % QUEUE;
      s.(nextId := id, ring := if tail < |s.ring| then s.ring[tail := r] else s.ring, count := s.count + 1,
         accepted := s.accepted + [r])
    case _ => s
  }

  /** bluetooth_backend_stop, up to the point where it waits for the worker. */
  function Stop(s: Backend): Backend {
    s.(running := false, count := 0)
  }

  // ----- the worker's steps -----

  function Take(s: Backend): Backend {
    if !s.worker.Idle? then s
    else if !s.running then s.(worker := Gone)
    else if s.count == 0 || s.head >= |s.ring| then s
    else
      var r := s.ring[s.head];
      s.(head := (s.head + 1) % QUEUE, count := s.count - 1, worker := Took(r), taken := s.taken + [r])
  }

  /** publish_locked */
  function Publish(s: Backend, v: View): Backend {
    var next := v.(generation := s.published.generation + 1);
    s.(published := next, views := s.views + [next])
  }

  function PublishWorking(s: Backend): Backend {
    match s.worker
    case Took(r) =>
      Publish(s, s.confirmed.(phase := Working, action := Some(r.action), active := r.id)).(worker := Executing(r))
    case _ => s
  }

  function Return(s: Backend, h: Helper): Backend {
    match s.worker
    case Executing(r) => s.(worker := Returned(r, h))
    case _ => s
  }

  function ErrnoValue(e: Errno): int {
    match e case EPROTO => 71 case E2BIG => 7 case EEXIST => 17
  }

  /** The check for a stop, and the verdict on what the helper printed. */
  function Judge(s: Backend): Backend {
    match s.worker
    case Returned(r, h) =>
      if !s.running then s.(worker := Gone)
      else if h.error != 0 then s.(worker := Failing(r, h, h.error))
      else (match Parse(h.output)
            case Failed(e) => s.(worker := Failing(r, h, ErrnoValue(e)))
            case Parsed(snapshot) => s.(worker := Merging(r, snapshot)))
    case _ => s
  }

  predicate MerelyDiscovered(d: Device) {
    !d.paired && !d.trusted && !d.connected
  }

  /** retain_discovered: carry unpaired discoveries over, as far as there is room. */
  function Retain(previous: seq<Device>, devices: seq<Device>): seq<Device>
    decreases |previous|
  {
    if previous == [] then devices
    else
      var d := previous[0];
      if !MerelyDiscovered(d) || HasAddress(devices, d.address) || |devices| >= MAX_DEVICES then Retain(previous[1..], devices)
      else Retain(previous[1..], devices + [d])
  }

  function RetainedSnapshot(confirmed: View, r: Request, snapshot: Snapshot): Snapshot {
    if r.action.Scan? || !snapshot.adapter.present || !snapshot.adapter.powered then snapshot
    else if !confirmed.gate.Admitted? || !confirmed.adapter.powered then snapshot
    else snapshot.(devices := Retain(confirmed.devices, snapshot.devices))
  }

  function Merge(s: Backend): Backend {
    match s.worker
    case Merging(r, snapshot) => s.(worker := Merged(r, RetainedSnapshot(s.confirmed, r, snapshot)))
    case _ => s
  }

  function Conclude(s: Backend, r: Request, v: View): Backend {
    var p := Publish(s, v);
    p.(confirmed := p.published, worker := Idle, finished := s.finished + [r])
  }

  /** publish_success and publish_failure */
  function PublishOutcome(s: Backend): Backend {
    match s.worker
    case Merged(r, snapshot) =>
      Conclude(s, r, View(snapshot.adapter, snapshot.devices, 0, 0, r.id, Admitted, Ready, Some(r.action), 0, 0, 0))
    case Failing(r, h, error) =>
      Conclude(s, r, s.confirmed.(phase := Error, action := Some(r.action), active := 0, completed := r.id,
                                  error := if error != 0 then error else EIO, exitCode := h.exitCode, termSignal := h.termSignal))
    case _ => s
  }

  // ----- polling -----

  /** bluetooth_backend_poll: something new, and the generation seen. */
  function Poll(s: Backend, seen: nat): (bool, nat) {
    if s.published.generation != seen then (true, s.published.generation) else (false, seen)
  }

  // ----- runs -----

  datatype Step =
    | DoEnqueue(action: Action, powered: bool, address: Option<string>)
    | DoStop
    | DoTake
    | DoPublishWorking
    | DoReturn(helper: Helper)
    | DoJudge
    | DoMerge
    | DoPublishOutcome

  function Next(s: Backend, step: Step): Backend {
    match step
    case DoEnqueue(action, powered, address) => Enqueue(s, action, powered, address)
    case DoStop => Stop(s)
    case DoTake => Take(s)
    case DoPublishWorking => PublishWorking(s)
    case DoReturn(h) => Return(s, h)
    case DoJudge => Judge(s)
    case DoMerge => Merge(s)
    case DoPublishOutcome => PublishOutcome(s)
  }

  function Run(s: Backend, steps: seq<Step>): Backend
    decreases |steps|
  {
    if steps == [] then s else Run(Next(s, steps[0]), steps[1..])
  }
}
