// rg40xxv-volume-daemon.c: a change of volume is a transaction over seven mixer controls,
// the file volume.v1 and the runtime marker.  Any system call may fail; what each one does
// is given by `Nature`, an arbitrary answer to every call, numbered by a clock.

module VolumeDaemon {
  import opened Options
  import opened Decimal
  import opened VolumeFormat

  const CONTROLS := 7
  const DEFAULT_VOLUME := 60

  type Control = i: int | 0 <= i < CONTROLS

  /** The mixer: seven controls of one or more channels each. */
  type Mixer = m: seq<seq<int>> | |m| == CONTROLS witness [[], [], [], [], [], [], []]

  /** What is outside the daemon.  `disk` is what volume.v1 is known to hold after power
      loss: it follows `file` only when the directory has been synced. */
  datatype Scene = Scene(mixer: Mixer, file: Option<string>, disk: Option<string>, marker: Option<string>)

  /** How the outside answers one call: whether it reports success, and what a control
      write leaves behind when it does not store exactly what was asked. */
  datatype Answer = Answer(ok: bool, exact: bool, stored: seq<int>)

  type Nature = nat -> Answer

  /** A stretch of execution: where it ends, and the scene after each of its calls. */
  datatype Out = Out(scene: Scene, clock: nat, ok: bool, trail: seq<Scene>)

  function One(s: Scene, clock: nat, ok: bool): Out {
    Out(s, clock + 1, ok, [s])
  }

  function Then(first: Out, second: Out): Out {
    second.(trail := first.trail + second.trail)
  }

  // ----- mixer -----

  function Stored(a: Answer, values: seq<int>): seq<int> {
    if a.exact || |a.stored| != |values| then values else a.stored
  }

  function WriteControl(n: Nature, s: Scene, c: nat, i: Control, values: seq<int>): Out {
    One(s.(mixer := s.mixer[i := Stored(n(c), values)]), c, n(c).ok)
  }

  function ReadControl(n: Nature, s: Scene, c: nat): Out {
    One(s, c, n(c).ok)
  }

  /** snapshot_controls, with k controls still to read. */
  function SnapshotControls(n: Nature, s: Scene, c: nat, k: nat): Out
    decreases k
  {
    if k == 0 then Out(s, c, true, [])
    else
      var a := ReadControl(n, s, c);
      if !a.ok then a else Then(a, SnapshotControls(n, s, a.clock, k - 1))
  }

  /** restore_controls, down from control k - 1: every write is made, whatever the others did. */
  function RestoreControls(n: Nature, s: Scene, c: nat, saved: Mixer, k: nat): Out
    requires k <= CONTROLS
    decreases k
  {
    if k == 0 then Out(s, c, true, [])
    else
      var a := WriteControl(n, s, c, k - 1, saved[k - 1]);
      var b := RestoreControls(n, a.scene, a.clock, saved, k - 1);
      Then(a, b.(ok := a.ok && b.ok))
  }

  /** percent_to_line_raw: never silent unless asked for silence. */
  function LineRaw(percent: int): int {
    if percent <= 0 then 0
    else
      var raw := (percent * 31 + 50) / 100;
      if raw < 2 then 2 else raw
  }

  function Filled(count: nat, v: int): (r: seq<int>)
    ensures |r| == count && forall k :: 0 <= k < count ==> r[k] == v
  {
    seq(count, _ => v)
  }

  function WriteAndVerify(n: Nature, s: Scene, c: nat, i: Control, desired: int): Out {
    var a := WriteControl(n, s, c, i, Filled(|s.mixer[i]|, desired));
    if !a.ok then a
    else
      var b := ReadControl(n, a.scene, a.clock);
      Then(a, if !b.ok then b else b.(ok := forall k :: 0 <= k < |a.scene.mixer[i]| ==> a.scene.mixer[i][k] == desired))
  }

  const DAC_VOLUME: Control := 0
  const LINE_VOLUME: Control := 1
  const LINE_SWITCH: Control := 2
  const DAC_SWITCH: Control := 3
  const DAC_REVERSED_SWITCH: Control := 4
  const LINE_SOURCE_ROUTE: Control := 5
  const SPEAKER_SWITCH: Control := 6

  function ApplyOrder(muted: bool): (r: seq<Control>)
    ensures |r| == CONTROLS && forall i: Control :: i in r
  {
    if muted then
      [SPEAKER_SWITCH, LINE_SWITCH, LINE_VOLUME, DAC_VOLUME, DAC_SWITCH, DAC_REVERSED_SWITCH, LINE_SOURCE_ROUTE]
    else
      [DAC_VOLUME, LINE_VOLUME, DAC_SWITCH, DAC_REVERSED_SWITCH, LINE_SOURCE_ROUTE, LINE_SWITCH, SPEAKER_SWITCH]
  }

  function Desired(t: Setting, i: Control): int {
    if i == DAC_VOLUME then 63
    else if i == LINE_VOLUME then LineRaw(t.volume)
    else if i == LINE_SWITCH || i == SPEAKER_SWITCH then (if t.muted then 0 else 1)
    else if i == DAC_SWITCH then 1
    else 0
  }

  /** apply_controls along an order. */
  function ApplyControls(n: Nature, s: Scene, c: nat, t: Setting, order: seq<Control>): Out
    decreases |order|
  {
    if order == [] then Out(s, c, true, [])
    else
      var a := WriteAndVerify(n, s, c, order[0], Desired(t, order[0]));
      if !a.ok then a else Then(a, ApplyControls(n, a.scene, a.clock, t, order[1..]))
  }

  // ----- files -----

  /** persist_state: fill a temporary, rename it over volume.v1, sync the directory. */
  function Persist(n: Nature, s: Scene, c: nat, t: Setting): Out
    requires Good(t)
  {
    var prepared := One(s, c, n(c).ok);
    if !prepared.ok then prepared
    else if !n(c + 1).ok then Then(prepared, One(s, c + 1, false))
    else
      var renamed := s.(file := Some(Text(t)));
      var synced := if n(c + 2).ok then renamed.(disk := renamed.file) else renamed;
      Out(synced, c + 3, n(c + 2).ok, [s, renamed, synced])
  }

  function MarkerText(t: Setting): string
    requires Good(t)
  {
    "volume_percent=" + Print(t.volume) + "\nmuted=" + Print(Flag(t.muted)) + "\n"
  }

  /** publish_state: the same for the runtime marker. */
  function Publish(n: Nature, s: Scene, c: nat, t: Setting): Out
    requires Good(t)
  {
    var prepared := One(s, c, n(c).ok);
    if !prepared.ok then prepared
    else if !n(c + 1).ok then Then(prepared, One(s, c + 1, false))
    else
      var renamed := s.(marker := Some(MarkerText(t)));
      Out(renamed, c + 3, n(c + 2).ok, [s, renamed, renamed])
  }

  function RemoveMarker(n: Nature, s: Scene, c: nat): Out {
    var gone := if n(c).ok then s.(marker := None) else s;
    Out(gone, c + 2, true, [gone, gone])
  }

  /** Unlink volume.v1; the directory is synced unless the unlink failed on a file that is there. */
  function RemoveFile(n: Nature, s: Scene, c: nat): Out {
    var gone := if n(c).ok then s.(file := None) else s;
    if gone.file.Some? then One(gone, c, false)
    else
      var synced := if n(c + 1).ok then gone.(disk := None) else gone;
      Out(synced, c + 2, n(c + 1).ok, [gone, synced])
  }

  // ----- the transaction -----

  datatype Daemon = Daemon(setting: Setting, initialized: bool, scene: Scene, clock: nat)

  datatype Reply = Reply(daemon: Daemon, ok: bool, trail: seq<Scene>)

  predicate Sane(d: Daemon) {
    d.initialized ==> Good(d.setting)
  }

  /** The setting a request for (volume, muted) asks for. */
  function Requested(last: int, volume: int, muted: bool): (t: Setting)
    requires 0 <= volume <= 100
    ensures Good(t)
  {
    var next := if volume > 0 then volume else last;
    Setting(volume, muted || volume == 0, if next < 1 || next > 100 then DEFAULT_VOLUME else next)
  }

  /** The forward part, with how far it got. */
  datatype Attempt = Attempt(out: Out, persisting: bool, publishing: bool)

  function Forward(n: Nature, s: Scene, c: nat, t: Setting): Attempt
    requires Good(t)
  {
    ForwardFiles(n, ApplyControls(n, s, c, t, ApplyOrder(t.muted)), t)
  }

  function ForwardFiles(n: Nature, applied: Out, t: Setting): Attempt
    requires Good(t)
  {
    if !applied.ok then Attempt(applied, false, false)
    else
      var persisted := Persist(n, applied.scene, applied.clock, t);
      if !persisted.ok then Attempt(Then(applied, persisted), true, false)
      else Attempt(Then(applied, Then(persisted, Publish(n, persisted.scene, persisted.clock, t))), true, true)
  }

  function RollbackMarker(n: Nature, s: Scene, c: nat, d: Daemon, needed: bool): Out
    requires Sane(d)
  {
    if !needed then Out(s, c, true, [])
    else if d.initialized then Publish(n, s, c, d.setting)
    else RemoveMarker(n, s, c)
  }

  function RollbackFile(n: Nature, s: Scene, c: nat, d: Daemon, needed: bool): Out
    requires Sane(d)
  {
    if !needed then Out(s, c, true, [])
    else if d.initialized then Persist(n, s, c, d.setting)
    else RemoveFile(n, s, c)
  }

  /** Controls first, then the marker, then the file. */
  function Rollback(n: Nature, a: Attempt, saved: Mixer, d: Daemon): Out
    requires Sane(d)
  {
    var r := RestoreControls(n, a.out.scene, a.out.clock, saved, |saved|);
    var m := RollbackMarker(n, r.scene, r.clock, d, a.publishing);
    Then(r, Then(m, RollbackFile(n, m.scene, m.clock, d, a.persisting)))
  }

  /** commit_state */
  function Commit(n: Nature, d: Daemon, volume: int, muted: bool): Reply
    requires Sane(d)
  {
    if volume < 0 || volume > 100 then Reply(d, false, [])
    else
      var s := SnapshotControls(n, d.scene, d.clock, |d.scene.mixer|);
      if !s.ok then Reply(d.(scene := s.scene, clock := s.clock), false, s.trail)
      else
        var t := Requested(d.setting.last, volume, muted);
        Settle(n, d, t, s.trail, Forward(n, s.scene, s.clock, t))
  }

  /** commit_state once its forward part is over. */
  function Settle(n: Nature, d: Daemon, t: Setting, seen: seq<Scene>, a: Attempt): Reply
    requires Sane(d)
  {
    if a.out.ok then
      Reply(Daemon(t, true, a.out.scene, a.out.clock), true, seen + a.out.trail)
    else
      var r := Rollback(n, a, d.scene.mixer, d);
      Reply(d.(scene := r.scene, clock := r.clock), false, seen + (a.out.trail + r.trail))
  }

  /** The calls a failed commit makes to undo itself are those from this clock on. */
  function RollbackStart(n: Nature, d: Daemon, volume: int, muted: bool): nat
    requires Sane(d) && 0 <= volume <= 100
  {
    var s := SnapshotControls(n, d.scene, d.clock, |d.scene.mixer|);
    if !s.ok then s.clock
    else Forward(n, s.scene, s.clock, Requested(d.setting.last, volume, muted)).out.clock
  }

  // ----- commands -----

  predicate IsSet(request: string) {
    |request| > 4 && request[..4] == "set " && AllDigits(request[4..]) && Value(request[4..]) <= 100
  }

  /** What process_command asks commit_state for; None for `get` and for anything unknown. */
  function Wanted(d: Daemon, request: string): Option<(int, bool)> {
    var v := d.setting.volume;
    if request == "up" then
      var volume := if v > 95 then 100 else v + 5;
      Some((volume, volume == 0))
    else if request == "down" then
      var volume := if v < 5 then 0 else v - 5;
      Some((volume, volume == 0))
    else if request == "mute-toggle" then
      if d.setting.muted then Some((if v == 0 then d.setting.last else v, false)) else Some((v, true))
    else if IsSet(request) then
      Some((Value(request[4..]), Value(request[4..]) == 0))
    else None
  }

  /** process_command */
  function Process(n: Nature, d: Daemon, request: string): Reply
    requires Sane(d)
  {
    match Wanted(d, request)
    case None => Reply(d, request == "get", [])
    case Some((volume, muted)) => Commit(n, d, volume, muted)
  }

  // ----- start-up -----

  /** load_persistent_state with the defaults that stand in for a missing or bad file. */
  function Load(n: Nature, convert: Conversion, s: Scene, c: nat): (t: Setting)
    ensures Good(t)
  {
    if s.file.None? || !n(c).ok then Setting(DEFAULT_VOLUME, false, DEFAULT_VOLUME)
    else match Parse(convert, s.file.value)
      case None => Setting(DEFAULT_VOLUME, false, DEFAULT_VOLUME)
      case Some(t) => t
  }

  /** A start: the marker is removed, the file read, and what it says committed. */
  function Start(n: Nature, convert: Conversion, s: Scene, c: nat): Reply {
    var t := Load(n, convert, s, c);
    var d := Daemon(Setting(0, false, t.last), false, s.(marker := None), c + 1);
    Commit(n, d, t.volume, t.muted)
  }
}
