// What a committed setting sounds like: the values of the seven controls, the order in
// which they change, and what each request asks for, in numbers.

module VolumePlaying {
  import opened Options
  import opened Decimal
  import opened VolumeFormat
  import opened VolumeDaemon
  import opened VolumeAtomicity
  import opened VolumeRuns

  // ----- the values -----

  /** The line level of a volume: 31 steps, rounded to the nearest, half up, and at least 2
      unless the volume is 0. */
  predicate LineLevel(volume: int, raw: int) {
    if volume <= 0 then raw == 0
    else if volume <= 4 then raw == 2
    else 100 * raw - 50 <= 31 * volume < 100 * raw + 50
  }

  /** The seven controls by value. */
  predicate Sounds(m: Mixer, volume: int, muted: bool) {
    && AllAre(m[SPEAKER_SWITCH], if muted then 0 else 1) && AllAre(m[LINE_SWITCH], if muted then 0 else 1)
    && AllAre(m[DAC_VOLUME], 63) && AllAre(m[DAC_SWITCH], 1)
    && AllAre(m[DAC_REVERSED_SWITCH], 0) && AllAre(m[LINE_SOURCE_ROUTE], 0)
    && forall k :: 0 <= k < |m[LINE_VOLUME]| ==> LineLevel(volume, m[LINE_VOLUME][k])
  }

  lemma LineRawIsLevel(volume: int, raw: int)
    ensures LineRaw(volume) == raw <==> LineLevel(volume, raw)
    ensures LineRaw(60) == 19 && LineRaw(100) == 31 && LineRaw(5) == 2 && LineRaw(1) == 2
  {
  }

  lemma PlayedSounds(m: Mixer, t: Setting)
    requires Plays(m, t)
    ensures Sounds(m, t.volume, t.muted)
  {
    forall i: Control ensures AllAre(m[i], Desired(t, i)) {
    }
    LineRawIsLevel(t.volume, LineRaw(t.volume));
  }

  /** After every successful commit the speaker and line switches are on exactly if the new
      setting is not muted, the line plays the level, and the other four are fixed. */
  lemma CommitSounds(n: Nature, d: Daemon, volume: int, muted: bool)
    requires Sane(d) && Commit(n, d, volume, muted).ok
    ensures Sounds(Commit(n, d, volume, muted).daemon.scene.mixer, volume, muted || volume == 0)
  {
    CommitAgrees(n, d, volume, muted);
    PlayedSounds(Commit(n, d, volume, muted).daemon.scene.mixer, Commit(n, d, volume, muted).daemon.setting);
  }

  // ----- the order -----

  predicate AllKeep(trail: seq<Scene>, i: Control, v: seq<int>) {
    forall k :: 0 <= k < |trail| ==> trail[k].mixer[i] == v
  }

  /** Controls outside the order are left alone. */
  lemma {:induction false} ApplyLeaves(n: Nature, s: Scene, c: nat, t: Setting, order: seq<Control>, i: Control)
    requires i !in order
    ensures var r := ApplyControls(n, s, c, t, order);
            AllKeep(r.trail, i, s.mixer[i]) && r.scene.mixer[i] == s.mixer[i]
    decreases |order|
  {
    if order != [] {
      var a := WriteAndVerify(n, s, c, order[0], Desired(t, order[0]));
      assert AllKeep(a.trail, i, s.mixer[i]);
      ApplyLeaves(n, a.scene, a.clock, t, order[1..], i);
    }
  }

  predicate AllQuiet(trail: seq<Scene>, i: Control) {
    forall k :: 0 <= k < |trail| ==> AllAre(trail[k].mixer[i], 0)
  }

  lemma QuietJoins(a: seq<Scene>, b: seq<Scene>, i: Control)
    requires AllQuiet(a, i) && AllQuiet(b, i)
    ensures AllQuiet(a + b, i)
  {
  }

  /** The control written first is at its value in every scene. */
  lemma FirstIsQuiet(n: Nature, s: Scene, c: nat, t: Setting, order: seq<Control>)
    requires order != [] && order[0] !in order[1..] && Desired(t, order[0]) == 0 && ApplyControls(n, s, c, t, order).ok
    ensures var r := ApplyControls(n, s, c, t, order);
            AllQuiet(r.trail, order[0]) && AllAre(r.scene.mixer[order[0]], 0)
  {
    var i := order[0];
    var a := WriteAndVerify(n, s, c, i, 0);
    assert a.ok && AllAre(a.scene.mixer[i], 0);
    assert AllQuiet(a.trail, i);
    ApplyLeaves(n, a.scene, a.clock, t, order[1..], i);
    QuietJoins(a.trail, ApplyControls(n, a.scene, a.clock, t, order[1..]).trail, i);
  }

  lemma FilesKeepMixer(n: Nature, applied: Out, t: Setting, i: Control)
    requires Good(t) && applied.ok
    ensures var r := ForwardFiles(n, applied, t).out;
            && applied.trail <= r.trail && r.scene.mixer == applied.scene.mixer
            && forall k :: |applied.trail| <= k < |r.trail| ==> r.trail[k].mixer == applied.scene.mixer
  {
  }

  lemma {:induction false} SnapshotCalls(n: Nature, s: Scene, c: nat, k: nat)
    requires SnapshotControls(n, s, c, k).ok
    ensures |SnapshotControls(n, s, c, k).trail| == k
    decreases k
  {
    if k > 0 {
      SnapshotCalls(n, s, c + 1, k - 1);
    }
  }

  /** The trail of a successful commit: seven reads, the controls, the files. */
  lemma CommitTrail(n: Nature, d: Daemon, volume: int, muted: bool) returns (s: Out, applied: Out, t: Setting)
    requires Sane(d) && Commit(n, d, volume, muted).ok
    ensures 0 <= volume <= 100 && t == Requested(d.setting.last, volume, muted)
    ensures s == SnapshotControls(n, d.scene, d.clock, CONTROLS) && s.ok && |s.trail| == CONTROLS && s.scene == d.scene
    ensures applied == ApplyControls(n, d.scene, s.clock, t, ApplyOrder(t.muted)) && applied.ok
    ensures Commit(n, d, volume, muted).trail == s.trail + ForwardFiles(n, applied, t).out.trail
  {
    t := Requested(d.setting.last, volume, muted);
    s := SnapshotControls(n, d.scene, d.clock, |d.scene.mixer|);
    SnapshotReads(n, d.scene, d.clock, |d.scene.mixer|);
    SnapshotCalls(n, d.scene, d.clock, |d.scene.mixer|);
    applied := ApplyControls(n, s.scene, s.clock, t, ApplyOrder(t.muted));
  }

  /** The scene after call k of a successful commit. */
  lemma SceneOf(whole: seq<Scene>, snapshot: seq<Scene>, trail: seq<Scene>, k: nat)
    requires whole == snapshot + trail && |snapshot| <= k < |whole|
    ensures k - |snapshot| < |trail| && whole[k] == trail[k - |snapshot|]
  {
  }

  lemma QuietForward(n: Nature, s: Scene, c: nat, t: Setting, applied: Out, k: nat)
    requires Good(t) && t.muted && applied == ApplyControls(n, s, c, t, ApplyOrder(t.muted)) && applied.ok
    requires k < |ForwardFiles(n, applied, t).out.trail|
    ensures AllAre(ForwardFiles(n, applied, t).out.trail[k].mixer[SPEAKER_SWITCH], 0)
  {
    FirstIsQuiet(n, s, c, t, ApplyOrder(t.muted));
    FilesKeepMixer(n, applied, t, SPEAKER_SWITCH);
    assert k < |applied.trail| ==> ForwardFiles(n, applied, t).out.trail[k] == applied.trail[k];
  }

  /** Muting is heard at once: in a successful commit of a muted setting, the speaker is off
      in every scene from the first control write on, whatever the calls answer. */
  lemma MutesSpeakerFirst(n: Nature, d: Daemon, volume: int, muted: bool, k: nat)
    requires Sane(d) && Commit(n, d, volume, muted).ok && (muted || volume == 0)
    requires CONTROLS <= k < |Commit(n, d, volume, muted).trail|
    ensures AllAre(Commit(n, d, volume, muted).trail[k].mixer[SPEAKER_SWITCH], 0)
  {
    var s, applied, t := CommitTrail(n, d, volume, muted);
    SceneOf(Commit(n, d, volume, muted).trail, s.trail, ForwardFiles(n, applied, t).out.trail, k);
    QuietForward(n, d.scene, s.clock, t, applied, k - CONTROLS);
  }

  lemma {:induction false} ApplyAppends(n: Nature, s: Scene, c: nat, t: Setting, a: seq<Control>, x: Control)
    requires ApplyControls(n, s, c, t, a + [x]).ok
    ensures var r := ApplyControls(n, s, c, t, a);
            var w := WriteAndVerify(n, r.scene, r.clock, x, Desired(t, x));
            r.ok && w.ok && ApplyControls(n, s, c, t, a + [x]).trail == r.trail + w.trail
    decreases |a|
  {
    if a == [] {
      assert a + [x] == [x] && [x][1..] == [];
      var w := WriteAndVerify(n, s, c, x, Desired(t, x));
      assert ApplyControls(n, s, c, t, [x]).trail == w.trail + [];
    } else {
      var f := WriteAndVerify(n, s, c, a[0], Desired(t, a[0]));
      assert (a + [x])[0] == a[0] && (a + [x])[1..] == a[1..] + [x];
      ApplyAppends(n, f.scene, f.clock, t, a[1..], x);
    }
  }

  /** Every control but the speaker is at the value of the setting. */
  predicate OthersSet(m: Mixer, t: Setting) {
    forall i: Control :: i != SPEAKER_SWITCH ==> AllAre(m[i], Desired(t, i))
  }

  lemma LastIsSpeaker(n: Nature, s: Scene, c: nat, t: Setting, front: seq<Control>, k: nat)
    requires forall i: Control :: i != SPEAKER_SWITCH <==> i in front
    requires ApplyControls(n, s, c, t, front + [SPEAKER_SWITCH]).ok
    requires k < |ApplyControls(n, s, c, t, front + [SPEAKER_SWITCH]).trail|
    ensures var m := ApplyControls(n, s, c, t, front + [SPEAKER_SWITCH]).trail[k].mixer;
            m[SPEAKER_SWITCH] == s.mixer[SPEAKER_SWITCH] || OthersSet(m, t)
  {
    ApplyAppends(n, s, c, t, front, SPEAKER_SWITCH);
    var r := ApplyControls(n, s, c, t, front);
    ApplyLeaves(n, s, c, t, front, SPEAKER_SWITCH);
    if k >= |r.trail| {
      var m := ApplyControls(n, s, c, t, front + [SPEAKER_SWITCH]).trail[k].mixer;
      forall i: Control | i != SPEAKER_SWITCH ensures AllAre(m[i], Desired(t, i)) {
        ApplySets(n, s, c, t, front, i);
      }
    }
  }

  /** The speaker is as it was, or everything else is set. */
  predicate SpeakerLast(m: Mixer, was: seq<int>, volume: int) {
    || m[SPEAKER_SWITCH] == was
    || (AllAre(m[LINE_SWITCH], 1) && AllAre(m[DAC_VOLUME], 63) && AllAre(m[DAC_SWITCH], 1)
        && AllAre(m[DAC_REVERSED_SWITCH], 0) && AllAre(m[LINE_SOURCE_ROUTE], 0)
        && forall j :: 0 <= j < |m[LINE_VOLUME]| ==> LineLevel(volume, m[LINE_VOLUME][j]))
  }

  lemma OthersSound(m: Mixer, t: Setting, was: seq<int>)
    requires !t.muted && OthersSet(m, t)
    ensures SpeakerLast(m, was, t.volume)
  {
    LineRawIsLevel(t.volume, LineRaw(t.volume));
    assert AllAre(m[LINE_VOLUME], LineRaw(t.volume)) && AllAre(m[LINE_SWITCH], 1);
    assert AllAre(m[DAC_VOLUME], 63) && AllAre(m[DAC_SWITCH], 1) && AllAre(m[DAC_REVERSED_SWITCH], 0) && AllAre(m[LINE_SOURCE_ROUTE], 0);
  }

  lemma UnmutedOrder() returns (front: seq<Control>)
    ensures ApplyOrder(false) == front + [SPEAKER_SWITCH]
    ensures forall i: Control :: i != SPEAKER_SWITCH <==> i in front
  {
    front := ApplyOrder(false)[..6];
    assert front[0] == 0 && front[1] == 1 && front[2] == 3 && front[3] == 4 && front[4] == 5 && front[5] == 2;
  }

  lemma SpeakerLastForward(n: Nature, s: Scene, c: nat, t: Setting, applied: Out, k: nat)
    requires Good(t) && !t.muted && applied == ApplyControls(n, s, c, t, ApplyOrder(t.muted)) && applied.ok
    requires k < |ForwardFiles(n, applied, t).out.trail|
    ensures SpeakerLast(ForwardFiles(n, applied, t).out.trail[k].mixer, s.mixer[SPEAKER_SWITCH], t.volume)
  {
    FilesKeepMixer(n, applied, t, SPEAKER_SWITCH);
    var m := ForwardFiles(n, applied, t).out.trail[k].mixer;
    if k < |applied.trail| {
      assert m == applied.trail[k].mixer;
      var front := UnmutedOrder();
      LastIsSpeaker(n, s, c, t, front, k);
      if OthersSet(m, t) {
        OthersSound(m, t, s.mixer[SPEAKER_SWITCH]);
      }
    } else {
      ApplyPlays(n, s, c, t);
      OthersSound(m, t, s.mixer[SPEAKER_SWITCH]);
    }
  }

  /** Unmuting is heard last: in a successful commit of a setting that is not muted, the
      speaker is as it was until every other control is at its new value. */
  lemma UnmutesSpeakerLast(n: Nature, d: Daemon, volume: int, muted: bool, k: nat)
    requires Sane(d) && Commit(n, d, volume, muted).ok && !muted && volume > 0
    requires k < |Commit(n, d, volume, muted).trail|
    ensures SpeakerLast(Commit(n, d, volume, muted).trail[k].mixer, d.scene.mixer[SPEAKER_SWITCH], volume)
  {
    var s, applied, t := CommitTrail(n, d, volume, muted);
    SnapshotReads(n, d.scene, d.clock, CONTROLS);
    if k < CONTROLS {
      assert Commit(n, d, volume, muted).trail[k] == s.trail[k];
    } else {
      SceneOf(Commit(n, d, volume, muted).trail, s.trail, ForwardFiles(n, applied, t).out.trail, k);
      SpeakerLastForward(n, d.scene, s.clock, t, applied, k - CONTROLS);
    }
  }

  // ----- the requests -----

  /** The setting after a level was asked for. */
  predicate Moved(was: Setting, now: Setting, volume: int, muted: bool) {
    now.volume == volume && now.muted == muted && now.last == if volume > 0 then volume else was.last
  }

  /** A successful request is for the level and mute it is taken for. */
  lemma TakenAs(n: Nature, d: Daemon, request: string, volume: int, muted: bool)
    requires Running(d) && Wanted(d, request) == Some((volume, muted)) && Process(n, d, request).ok
    ensures 0 <= volume <= 100 && Moved(d.setting, Process(n, d, request).daemon.setting, volume, muted || volume == 0)
  {
    CommitAgrees(n, d, volume, muted);
  }

  lemma UpMeans(n: Nature, d: Daemon)
    requires Running(d) && Process(n, d, "up").ok
    ensures Moved(d.setting, Process(n, d, "up").daemon.setting, if d.setting.volume <= 95 then d.setting.volume + 5 else 100, false)
  {
    TakenAs(n, d, "up", if d.setting.volume <= 95 then d.setting.volume + 5 else 100, false);
  }

  lemma DownMeans(n: Nature, d: Daemon)
    requires Running(d) && Process(n, d, "down").ok
    ensures Moved(d.setting, Process(n, d, "down").daemon.setting, if d.setting.volume >= 5 then d.setting.volume - 5 else 0, d.setting.volume <= 5)
  {
    TakenAs(n, d, "down", if d.setting.volume >= 5 then d.setting.volume - 5 else 0, d.setting.volume <= 5);
  }

  lemma ToggleMeans(n: Nature, d: Daemon)
    requires Running(d) && Process(n, d, "mute-toggle").ok
    ensures if d.setting.volume == 0 then Moved(d.setting, Process(n, d, "mute-toggle").daemon.setting, d.setting.last, false)
            else Moved(d.setting, Process(n, d, "mute-toggle").daemon.setting, d.setting.volume, !d.setting.muted)
  {
    TakenAs(n, d, "mute-toggle", if d.setting.volume == 0 then d.setting.last else d.setting.volume, !d.setting.muted);
  }

  lemma SetMeans(n: Nature, d: Daemon, level: nat)
    requires Running(d) && level <= 100 && Process(n, d, "set " + Print(level)).ok
    ensures Moved(d.setting, Process(n, d, "set " + Print(level)).daemon.setting, level, level == 0)
  {
    SetIsSet(level);
    TakenAs(n, d, "set " + Print(level), level, level == 0);
  }

  /** What a successful request leaves: five up or down within 0..100 and not muted unless 0;
      mute switched, from level 0 back to the last one; or the level named. */
  lemma RequestsMean(n: Nature, d: Daemon, level: nat)
    requires Running(d) && level <= 100
    ensures var r := Process(n, d, "up");
            r.ok ==> Moved(d.setting, r.daemon.setting, if d.setting.volume <= 95 then d.setting.volume + 5 else 100, false)
    ensures var r := Process(n, d, "down");
            r.ok ==> Moved(d.setting, r.daemon.setting, if d.setting.volume >= 5 then d.setting.volume - 5 else 0, d.setting.volume <= 5)
    ensures var r := Process(n, d, "mute-toggle");
            r.ok ==> if d.setting.volume == 0 then Moved(d.setting, r.daemon.setting, d.setting.last, false)
                     else Moved(d.setting, r.daemon.setting, d.setting.volume, !d.setting.muted)
    ensures var r := Process(n, d, "set " + Print(level));
            r.ok ==> Moved(d.setting, r.daemon.setting, level, level == 0)
    ensures Process(n, d, "get").ok && Process(n, d, "get").daemon == d
  {
    if Process(n, d, "up").ok { UpMeans(n, d); }
    if Process(n, d, "down").ok { DownMeans(n, d); }
    if Process(n, d, "mute-toggle").ok { ToggleMeans(n, d); }
    if Process(n, d, "set " + Print(level)).ok { SetMeans(n, d, level); }
  }

  lemma SetIsSet(level: nat)
    requires level <= 100
    ensures var request := "set " + Print(level);
            IsSet(request) && Value(request[4..]) == level && request[0] == 's'
  {
    var request := "set " + Print(level);
    ValueOfPrint(level);
    assert request[..4] == "set " && request[4..] == Print(level);
  }

  /** If every call works, every one of these succeeds. */
  lemma RequestsSucceed(n: Nature, d: Daemon, request: string)
    requires Running(d) && forall c: nat :: n(c).ok && n(c).exact
    requires request in ["up", "down", "mute-toggle", "get"] || IsSet(request)
    ensures Process(n, d, request).ok
  {
    match Wanted(d, request) {
      case None =>
      case Some((volume, muted)) => CommitSucceeds(n, d, volume, muted);
    }
  }

  lemma CommitSucceeds(n: Nature, d: Daemon, volume: int, muted: bool)
    requires Sane(d) && 0 <= volume <= 100 && forall c: nat :: n(c).ok && n(c).exact
    ensures Commit(n, d, volume, muted).ok
  {
    var s := SnapshotControls(n, d.scene, d.clock, |d.scene.mixer|);
    SnapshotWorks(n, d.scene, d.clock, |d.scene.mixer|);
    var t := Requested(d.setting.last, volume, muted);
    ApplyWorks(n, s.scene, s.clock, t, ApplyOrder(t.muted));
  }

  /** The request names a level by digits. */
  ghost predicate NamesLevel(request: string) {
    exists digits: string :: digits != [] && AllDigits(digits) && Value(digits) <= 100 && request == "set " + digits
  }

  /** Anything else is refused, without a call, and changes nothing. */
  lemma OthersRefused(n: Nature, d: Daemon, request: string)
    requires Running(d)
    ensures request !in ["up", "down", "mute-toggle", "get"] && !NamesLevel(request) ==>
              Process(n, d, request) == Reply(d, false, [])
  {
    if IsSet(request) {
      assert request == "set " + request[4..];
    }
  }

  /** Whatever is requested and whatever fails: the level stays from 0 to 100, silence is
      muted, and the last level is from 1 to 100 and equals the level unless that is 0. */
  lemma RunsStayConsistent(n: Nature, d: Daemon, requests: seq<string>)
    requires Running(d)
    ensures var t := Serve(n, d, requests).setting;
            && 0 <= t.volume <= 100 && (t.volume == 0 ==> t.muted)
            && 1 <= t.last <= 100 && (t.volume > 0 ==> t.last == t.volume)
  {
    RunsKeepGood(n, d, requests);
  }

  // ----- starting -----

  /** A completed start comes up with the setting volume.v1 prints, if it can be read and
      prints one, and otherwise with 60 per cent, not muted. */
  lemma StartsWith(n: Nature, convert: Conversion, s: Scene, c: nat)
    requires Start(n, convert, s, c).ok
    ensures var t := Start(n, convert, s, c).daemon.setting;
            || (n(c).ok && Good(t) && s.file == Some(Text(t)))
            || (t == Setting(60, false, 60) && (n(c).ok ==> forall u: Setting :: Good(u) ==> s.file != Some(Text(u))))
  {
    StartCommitsLoaded(n, convert, s, c);
    if s.file.Some? && n(c).ok {
      forall u: Setting ensures Parse(convert, s.file.value) == Some(u) <==> Good(u) && s.file.value == Text(u) {
        ParseExactlyCanonical(convert, s.file.value, u);
      }
    }
  }
}
