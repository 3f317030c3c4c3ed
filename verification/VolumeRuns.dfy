// Whole runs of the volume daemon: any requests, any failures, restarts and power loss.

module VolumeRuns {
  import opened Options
  import opened Decimal
  import opened VolumeFormat
  import opened VolumeDaemon
  import opened VolumeAtomicity

  /** The daemon up and running with a setting it can print. */
  predicate Running(d: Daemon) {
    d.initialized && Good(d.setting)
  }

  function Serve(n: Nature, d: Daemon, requests: seq<string>): Daemon
    requires Running(d)
    decreases |requests|
  {
    if requests == [] then d
    else
      RequestKeepsGood(n, d, requests[0]);
      Serve(n, Process(n, d, requests[0]).daemon, requests[1..])
  }

  /** One request either leaves the setting alone or moves it to the one it asks for. */
  lemma RequestKeepsGood(n: Nature, d: Daemon, request: string)
    requires Running(d)
    ensures var r := Process(n, d, request);
            && Running(r.daemon)
            && (!r.ok ==> r.daemon.setting == d.setting)
            && (r.ok && request != "get" ==>
                  && Wanted(d, request).Some? && 0 <= Wanted(d, request).value.0 <= 100
                  && r.daemon.setting == Requested(d.setting.last, Wanted(d, request).value.0, Wanted(d, request).value.1))
  {
    match Wanted(d, request) {
      case None =>
      case Some((volume, muted)) =>
        if Commit(n, d, volume, muted).ok {
          CommitAgrees(n, d, volume, muted);
        }
    }
  }

  /** Every run keeps level and flags consistent, whatever fails on the way. */
  lemma {:induction false} RunsKeepGood(n: Nature, d: Daemon, requests: seq<string>)
    requires Running(d)
    ensures Running(Serve(n, d, requests))
    decreases |requests|
  {
    if requests != [] {
      RequestKeepsGood(n, d, requests[0]);
      RunsKeepGood(n, Process(n, d, requests[0]).daemon, requests[1..]);
    }
  }

  /** If this request fails, the calls that undo it succeed. */
  ghost predicate Undoable(n: Nature, d: Daemon, request: string)
    requires Running(d)
  {
    match Wanted(d, request)
    case None => true
    case Some((volume, muted)) =>
      !Commit(n, d, volume, muted).ok && 0 <= volume <= 100 ==>
        Faithful(n, RollbackStart(n, d, volume, muted), Commit(n, d, volume, muted).daemon.clock)
  }

  ghost predicate RunUndoable(n: Nature, d: Daemon, requests: seq<string>)
    requires Running(d)
    decreases |requests|
  {
    requests != [] ==>
      && Undoable(n, d, requests[0])
      && (RequestKeepsGood(n, d, requests[0]);
          RunUndoable(n, Process(n, d, requests[0]).daemon, requests[1..]))
  }

  lemma RequestKeepsAgreement(n: Nature, d: Daemon, request: string)
    requires Running(d) && Says(d.scene, d.setting) && Undoable(n, d, request)
    ensures var e := Process(n, d, request).daemon;
            Running(e) && Says(e.scene, e.setting)
  {
    RequestKeepsGood(n, d, request);
    match Wanted(d, request) {
      case None =>
      case Some((volume, muted)) =>
        if Commit(n, d, volume, muted).ok {
          CommitAgrees(n, d, volume, muted);
        } else {
          FailedCommitChangesNothing(n, d, volume, muted);
        }
    }
  }

  /** After any run whose failures could be undone, memory, mixer, volume.v1 and marker agree. */
  lemma {:induction false} RunsStayInAgreement(n: Nature, d: Daemon, requests: seq<string>)
    requires Running(d) && Says(d.scene, d.setting) && RunUndoable(n, d, requests)
    ensures var e := Serve(n, d, requests);
            Running(e) && Says(e.scene, e.setting)
    decreases |requests|
  {
    if requests != [] {
      RequestKeepsAgreement(n, d, requests[0]);
      RunsStayInAgreement(n, Process(n, d, requests[0]).daemon, requests[1..]);
    }
  }

  // ----- restart -----

  /** What is left after a stop: the mixer anyhow, one of the two possible file contents. */
  predicate Survives(s: Scene, before: Scene) {
    s.file == before.file || s.file == before.disk
  }

  lemma LoadReads(n: Nature, convert: Conversion, s: Scene, c: nat, t: Setting)
    requires Good(t) && s.file == Some(Text(t)) && n(c).ok
    ensures Load(n, convert, s, c) == t
  {
    ParseExactlyCanonical(convert, Text(t), t);
  }

  /** Any completed start plays and records what was loaded. */
  lemma StartCommitsLoaded(n: Nature, convert: Conversion, s: Scene, c: nat)
    requires Start(n, convert, s, c).ok
    ensures var e := Start(n, convert, s, c).daemon;
            Running(e) && e.setting == Load(n, convert, s, c) && Says(e.scene, e.setting)
  {
    var t := Load(n, convert, s, c);
    var d := Daemon(Setting(0, false, t.last), false, s.(marker := None), c + 1);
    CommitAgrees(n, d, t.volume, t.muted);
  }

  /** A start from a good file goes back to exactly that setting, level, mute and
      last level included. */
  lemma StartRestores(n: Nature, convert: Conversion, s: Scene, c: nat, t: Setting)
    requires Good(t) && s.file == Some(Text(t)) && n(c).ok
    requires Start(n, convert, s, c).ok
    ensures var e := Start(n, convert, s, c).daemon;
            Running(e) && Says(e.scene, e.setting) && e.setting == t
  {
    LoadReads(n, convert, s, c, t);
    StartCommitsLoaded(n, convert, s, c);
  }

  /** Whatever was requested and whatever failed before the stop, a restart that can read
      volume.v1 and completes comes back with the last committed setting. */
  lemma RestartRestoresLastCommitted(n: Nature, d: Daemon, requests: seq<string>,
                                     convert: Conversion, s: Scene, c: nat)
    requires Running(d) && Says(d.scene, d.setting) && RunUndoable(n, d, requests)
    requires Survives(s, Serve(n, d, requests).scene)
    requires n(c).ok && Start(n, convert, s, c).ok
    ensures Start(n, convert, s, c).daemon.setting == Serve(n, d, requests).setting
  {
    RunsStayInAgreement(n, d, requests);
    StartRestores(n, convert, s, c, Serve(n, d, requests).setting);
  }

  /** Power lost after any call of a commit: the next start comes back with the setting
      before the commit or the one after it, never with a default or a mixture. */
  lemma PowerLossKeepsOldOrNew(n: Nature, d: Daemon, volume: int, muted: bool, k: nat,
                               m: Nature, convert: Conversion, s: Scene, c: nat)
    requires Running(d) && 0 <= volume <= 100
    requires d.scene.file == Some(Text(d.setting)) && d.scene.disk == d.scene.file
    requires k < |Commit(n, d, volume, muted).trail| && Survives(s, Commit(n, d, volume, muted).trail[k])
    requires m(c).ok && Start(m, convert, s, c).ok
    ensures var t := Start(m, convert, s, c).daemon.setting;
            t == d.setting || t == Requested(d.setting.last, volume, muted)
  {
    FileAlwaysWhole(n, d, volume, muted);
    var t := Requested(d.setting.last, volume, muted);
    assert Whole(Commit(n, d, volume, muted).trail[k], Text(d.setting), Text(t));
    StartRestores(m, convert, s, c, if s.file == Some(Text(t)) then t else d.setting);
  }

  // ----- the first commit -----

  /** Before initialization there is no old state to go back to: a failed first commit
      whose undoing works leaves no marker, and deletes volume.v1 exactly if all controls
      had been read and applied. */
  lemma FailedFirstCommit(n: Nature, d: Daemon, volume: int, muted: bool)
    requires !d.initialized && 0 <= volume <= 100 && d.scene.marker == None
    requires !Commit(n, d, volume, muted).ok
    requires Faithful(n, RollbackStart(n, d, volume, muted), Commit(n, d, volume, muted).daemon.clock)
    ensures var e := Commit(n, d, volume, muted).daemon;
            var s := SnapshotControls(n, d.scene, d.clock, |d.scene.mixer|);
            var t := Requested(d.setting.last, volume, muted);
            && e.scene.mixer == d.scene.mixer && e.scene.marker == None && !e.initialized
            && e.scene.file == if s.ok && ApplyControls(n, s.scene, s.clock, t, ApplyOrder(t.muted)).ok then None else d.scene.file
  {
    SnapshotReads(n, d.scene, d.clock, |d.scene.mixer|);
    var s := SnapshotControls(n, d.scene, d.clock, |d.scene.mixer|);
    if s.ok {
      var t := Requested(d.setting.last, volume, muted);
      var a := Forward(n, s.scene, s.clock, t);
      ForwardShape(n, s.scene, s.clock, t);
      RollbackUndoesMixer(n, a, d.scene.mixer, d);
      FirstRollbackFiles(n, a, d.scene.mixer, d);
    }
  }

  lemma FirstRollbackFiles(n: Nature, a: Attempt, saved: Mixer, d: Daemon)
    requires !d.initialized && Faithful(n, a.out.clock, Rollback(n, a, saved, d).clock)
    requires a.publishing || a.out.scene.marker == None
    ensures var r := Rollback(n, a, saved, d).scene;
            r.marker == None && r.file == if a.persisting then None else a.out.scene.file
  {
    RestoreTouchesOnlyMixer(n, a.out.scene, a.out.clock, saved, |saved|);
  }

  /** Every call works except this one. */
  function FailsAt(k: nat): Nature {
    c => Answer(c != k, true, [])
  }

  lemma {:induction false} SnapshotWorks(n: Nature, s: Scene, c: nat, k: nat)
    requires Faithful(n, c, c + k)
    ensures SnapshotControls(n, s, c, k).ok && SnapshotControls(n, s, c, k).clock == c + k
    decreases k
  {
    if k > 0 {
      SnapshotWorks(n, s, c + 1, k - 1);
    }
  }

  lemma {:induction false} ApplyWorks(n: Nature, s: Scene, c: nat, t: Setting, order: seq<Control>)
    requires Faithful(n, c, c + 2 * |order|)
    ensures ApplyControls(n, s, c, t, order).ok && ApplyControls(n, s, c, t, order).clock == c + 2 * |order|
    decreases |order|
  {
    if order != [] {
      var a := WriteAndVerify(n, s, c, order[0], Desired(t, order[0]));
      ApplyWorks(n, a.scene, a.clock, t, order[1..]);
    }
  }

  /** The first commit reads 7 controls, makes 14 calls to apply them and 3 to persist; if
      then only the rename of the marker fails, volume.v1 is deleted whatever it held. */
  lemma FirstCommitLosesFile(d: Daemon, volume: int, muted: bool)
    requires !d.initialized && d.scene.marker == None && 0 <= volume <= 100
    ensures var r := Commit(FailsAt(d.clock + 25), d, volume, muted);
            !r.ok && r.daemon.scene.file == None
  {
    var n := FailsAt(d.clock + 25);
    var s := SnapshotControls(n, d.scene, d.clock, |d.scene.mixer|);
    SnapshotWorks(n, d.scene, d.clock, |d.scene.mixer|);
    var t := Requested(d.setting.last, volume, muted);
    ApplyWorks(n, s.scene, s.clock, t, ApplyOrder(t.muted));
    assert RollbackStart(n, d, volume, muted) == d.clock + 26;
    FailedFirstCommit(n, d, volume, muted);
  }

  /** So one failing rename at start loses the setting saved before: the start fails, and
      the next one comes up with the default. */
  lemma StartCanLoseSetting(convert: Conversion, s: Scene, c: nat, m: Nature, c': nat)
    ensures var r := Start(FailsAt(c + 26), convert, s, c);
            !r.ok && Load(m, convert, r.daemon.scene, c') == Setting(DEFAULT_VOLUME, false, DEFAULT_VOLUME)
  {
    var t := Load(FailsAt(c + 26), convert, s, c);
    FirstCommitLosesFile(Daemon(Setting(0, false, t.last), false, s.(marker := None), c + 1), t.volume, t.muted);
  }

  // ----- levels -----

  /** Louder requests never play softer, only 0 is silent, and the control's range is kept. */
  lemma LineRawMonotone(a: int, b: int)
    requires a <= b <= 100
    ensures LineRaw(a) <= LineRaw(b)
    ensures LineRaw(a) == 0 <==> a <= 0
    ensures 0 <= LineRaw(a) <= 31 && (a == 100 ==> LineRaw(a) == 31)
  {
  }

  function Toggle(n: Nature, d: Daemon): (r: Reply)
    requires Running(d)
    ensures Running(r.daemon)
  {
    RequestKeepsGood(n, d, "mute-toggle");
    Process(n, d, "mute-toggle")
  }

  /** Two successful mute toggles undo each other exactly when the level is not 0. */
  lemma MuteToggleTwice(n: Nature, d: Daemon, m: Nature)
    requires Running(d) && Toggle(n, d).ok && Toggle(m, Toggle(n, d).daemon).ok
    ensures Toggle(m, Toggle(n, d).daemon).daemon.setting == d.setting <==> d.setting.volume > 0
  {
    RequestKeepsGood(n, d, "mute-toggle");
    RequestKeepsGood(m, Toggle(n, d).daemon, "mute-toggle");
  }
}
