// What a run of the helper leads to, and when a request is taken at all.

module BluetoothOutcome {
  import opened Options
  import opened Fields
  import opened BluetoothSnapshot
  import opened BluetoothBackend
  import opened BluetoothBackendSafety

  // ----- the verdict on a result -----

  /** The error a refused text is reported as. */
  function ErrorNumber(e: Errno): int {
    match e
    case EPROTO => 71
    case E2BIG => 7
    case EEXIST => 17
  }

  /** Judged, merged and published. */
  function Concluded(s: Backend): Backend {
    Next(Next(Next(s, DoJudge), DoMerge), DoPublishOutcome)
  }

  /** Discoveries are carried over unless the list was just scanned or the adapter is or was
      off: then each is still there, or the list is full. */
  predicate CarriedOver(s: Backend, r: Request, parsed: Snapshot, shown: View) {
    if r.action.Scan? || !parsed.adapter.present || !parsed.adapter.powered || !s.published.adapter.powered then
      shown.devices == parsed.devices
    else
      forall i :: 0 <= i < |s.published.devices| && MerelyDiscovered(s.published.devices[i]) ==>
        HasAddress(shown.devices, s.published.devices[i].address) || |shown.devices| == 16
  }

  lemma Carries(was: seq<Device>, got: seq<Device>)
    requires DevicesOk(got)
    ensures forall i :: 0 <= i < |was| && MerelyDiscovered(was[i]) ==>
              HasAddress(Retain(was, got), was[i].address) || |Retain(was, got)| == 16
  {
    forall i | 0 <= i < |was| && MerelyDiscovered(was[i])
      ensures HasAddress(Retain(was, got), was[i].address) || |Retain(was, got)| == 16
    {
      RetainKeepsDiscoveries(was, got, i);
    }
  }

  lemma MergedShows(s: Backend, r: Request, parsed: Snapshot, shown: View)
    requires DevicesOk(parsed.devices) && s.confirmed.gate.Admitted?
    requires s.published.adapter == s.confirmed.adapter && s.published.devices == s.confirmed.devices
    requires shown.devices == RetainedSnapshot(s.confirmed, r, parsed).devices
    ensures parsed.devices <= shown.devices && CarriedOver(s, r, parsed, shown)
    ensures RetainedSnapshot(s.confirmed, r, parsed).adapter == parsed.adapter
  {
    RetainOk(s.confirmed.devices, parsed.devices);
    Carries(s.confirmed.devices, parsed.devices);
  }

  /** The three steps after a text that parses. */
  lemma ParsedSteps(s: Backend, parsed: Snapshot)
    requires s.running && s.worker.Returned? && s.worker.helper.error == 0 && Parse(s.worker.helper.output) == Parsed(parsed)
    ensures var shown, merged := Concluded(s).published, RetainedSnapshot(s.confirmed, s.worker.request, parsed);
            && shown.phase.Ready? && shown.error == 0 && shown.completed == s.worker.request.id && Concluded(s).worker.Idle?
            && shown.adapter == merged.adapter && shown.devices == merged.devices
  {
    var j := Next(s, DoJudge);
    assert j == s.(worker := Merging(s.worker.request, parsed));
    var m := Next(j, DoMerge);
    assert m == s.(worker := Merged(s.worker.request, RetainedSnapshot(s.confirmed, s.worker.request, parsed)));
  }

  lemma ConcludesParsed(s: Backend)
    requires Reachable(s) && s.running && s.worker.Returned? && s.worker.helper.error == 0 && Parse(s.worker.helper.output).Parsed?
    ensures var shown, parsed := Concluded(s).published, Parse(s.worker.helper.output).snapshot;
            && shown.phase.Ready? && shown.error == 0 && shown.completed == s.worker.request.id && Concluded(s).worker.Idle?
            && shown.adapter == parsed.adapter && parsed.devices <= shown.devices
            && CarriedOver(s, s.worker.request, parsed, shown)
  {
    ReachableOk(s);
    GateIsOpen(s);
    var parsed := Parse(s.worker.helper.output).snapshot;
    ParsedOk(s.worker.helper.output);
    ParsedSteps(s, parsed);
    MergedShows(s, s.worker.request, parsed, Concluded(s).published);
  }

  lemma ConcludesFailed(s: Backend)
    requires Reachable(s) && s.running && s.worker.Returned?
    requires s.worker.helper.error != 0 || Parse(s.worker.helper.output).Failed?
    ensures var shown, h := Concluded(s).published, s.worker.helper;
            && shown.phase.Error? && shown.completed == s.worker.request.id && Concluded(s).worker.Idle?
            && shown.error == (if h.error != 0 then h.error else ErrorNumber(Parse(h.output).error))
            && shown.exitCode == h.exitCode && shown.termSignal == h.termSignal
            && shown.adapter == s.published.adapter && shown.devices == s.published.devices
  {
    ReachableOk(s);
    var j := Next(s, DoJudge);
    assert j.worker.Failing?;
    assert Next(j, DoMerge) == j;
  }

  /** A run of the helper is published as a success if and only if it reported none and its
      text parses.  Then the adapter and the first devices are the parsed ones and earlier
      discoveries are carried over; otherwise the error is the helper's, or that of the text,
      and the data shown stay. */
  lemma ResultDecides(s: Backend)
    requires Reachable(s) && s.running && s.worker.Returned?
    ensures var shown, h := Concluded(s).published, s.worker.helper;
            && (shown.phase.Ready? && shown.error == 0 <==> h.error == 0 && Parse(h.output).Parsed?)
            && shown.completed == s.worker.request.id
            && (if h.error == 0 && Parse(h.output).Parsed? then
                  && shown.adapter == Parse(h.output).snapshot.adapter && Parse(h.output).snapshot.devices <= shown.devices
                  && CarriedOver(s, s.worker.request, Parse(h.output).snapshot, shown)
                else
                  && shown.error == (if h.error != 0 then h.error else ErrorNumber(Parse(h.output).error))
                  && shown.adapter == s.published.adapter && shown.devices == s.published.devices)
  {
    if s.worker.helper.error == 0 && Parse(s.worker.helper.output).Parsed? {
      ConcludesParsed(s);
    } else {
      ConcludesFailed(s);
    }
  }

  /** A result that comes after a stop is not published. */
  lemma StoppedIsSilent(s: Backend)
    requires !s.running && s.worker.Returned?
    ensures Concluded(s).published == s.published && Concluded(s).views == s.views && Concluded(s).worker.Gone?
  {
  }

  // ----- the gate -----

  predicate Open(s: Backend) {
    s.published.gate.Admitted? && s.confirmed.gate.Admitted?
  }

  lemma {:induction false} RunStaysOpen(s: Backend, steps: seq<Step>)
    requires Open(s)
    ensures Open(Run(s, steps))
    decreases |steps|
  {
    if steps != [] {
      assert Open(Next(s, steps[0]));
      RunStaysOpen(Next(s, steps[0]), steps[1..]);
    }
  }

  lemma GateIsOpen(s: Backend)
    requires Reachable(s)
    ensures Open(s)
  {
    var start: Backend, steps: seq<Step> :| start == Started() && s == Run(start, steps);
    RunStaysOpen(start, steps);
  }

  // ----- which requests are taken -----

  /** The address given, if it is one; none, for what concerns the adapter only. */
  predicate AddressFits(action: Action, address: Option<string>, used: string) {
    match address
    case None => (action.Status? || action.Scan? || action.Power?) && used == []
    case Some(a) => IsMac(a) && used == UpperCase(a)
  }

  /** In every run a request is let in if and only if the backend is running, fewer than 32
      wait, and it has an address that is one wherever it needs it; it then gets the next
      number and carries what was asked.  Otherwise nothing changes. */
  lemma RequestIsTaken(s: Backend, action: Action, powered: bool, address: Option<string>, used: string)
    requires Reachable(s)
    ensures var t := Enqueue(s, action, powered, address);
            && (t.accepted == s.accepted + [Request(action, |s.accepted| + 1, used, powered)] <==>
                  s.running && |s.accepted| - |s.taken| < 32 && AddressFits(action, address, used))
            && (t == s || exists a: string :: AddressFits(action, address, a) && t.accepted == s.accepted + [Request(action, |s.accepted| + 1, a, powered)])
  {
    ReachableOk(s);
    GateIsOpen(s);
    var t := Enqueue(s, action, powered, address);
    if EnqueueVerdict(s, action, address).Queued? {
      var a := RequestAddress(action, address).value;
      assert AddressFits(action, address, a);
      assert t.accepted == s.accepted + [Request(action, |s.accepted| + 1, a, powered)];
      assert t.accepted[|s.accepted|].address == a;
    }
  }

  /** While a request is worked on, the view says which, with the data shown before. */
  lemma WorkIsShown(s: Backend)
    requires Reachable(s) && s.worker.Took?
    ensures var t := Next(s, DoPublishWorking);
            && t.published.phase.Working? && t.published.active == s.worker.request.id
            && t.published.action == Some(s.worker.request.action)
            && t.published.adapter == s.published.adapter && t.published.devices == s.published.devices
            && t.worker == Executing(s.worker.request)
  {
    ReachableOk(s);
  }
}
