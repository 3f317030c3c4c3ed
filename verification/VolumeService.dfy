// The volume daemon as it runs: its fields, the mixer and the files changed call by call,
// with the rollback of commit_state.  Each method is proved to be the corresponding
// function of VolumeDaemon, so what is shown there for every pattern of failures holds here.

module VolumeService {
  import opened Options
  import opened Decimal
  import opened VolumeFormat
  import opened VolumeDaemon

  /** parse_set_request: accept digits as long as they stay within 100. */
  method ParseSetRequest(request: string) returns (percent: Option<nat>)
    ensures percent == if IsSet(request) then Some(Value(request[4..])) else None
  {
    if |request| < 4 || request[..4] != "set " { return None; }
    var digits := request[4..];
    if digits == [] { return None; }
    var value := 0;
    for k := 0 to |digits|
      invariant AllDigits(digits[..k]) && value == Value(digits[..k]) <= 100
    {
      if !IsDigit(digits[k]) { return None; }
      assert digits[..k + 1][..k] == digits[..k];
      value := value * 10 + DigitValue(digits[k]);
      if value > 100 {
        if AllDigits(digits) { ValueOfPrefix(digits, k + 1); }
        return None;
      }
    }
    assert digits[..|digits|] == digits;
    percent := Some(value);
  }

  /** Having recorded `now` since `base`, at scene `s` and clock `c`, what `rest` still does
      completes `whole`. */
  ghost predicate Leads(whole: Out, base: seq<Scene>, now: seq<Scene>, rest: Out) {
    && whole.scene == rest.scene && whole.clock == rest.clock && whole.ok == rest.ok
    && base + whole.trail == now + rest.trail
  }

  lemma ApplyAdvances(n: Nature, whole: Out, base: seq<Scene>, now: seq<Scene>, s: Scene, c: nat, t: Setting, rest: seq<Control>)
    requires rest != [] && Leads(whole, base, now, ApplyControls(n, s, c, t, rest))
    ensures var a := WriteAndVerify(n, s, c, rest[0], Desired(t, rest[0]));
            Leads(whole, base, now + a.trail,
                  if a.ok then ApplyControls(n, a.scene, a.clock, t, rest[1..]) else Out(a.scene, a.clock, false, []))
  {
    var a := WriteAndVerify(n, s, c, rest[0], Desired(t, rest[0]));
    if a.ok {
      var b := ApplyControls(n, a.scene, a.clock, t, rest[1..]);
      assert now + (a.trail + b.trail) == now + a.trail + b.trail;
    }
  }

  lemma SnapshotAdvances(n: Nature, whole: Out, base: seq<Scene>, now: seq<Scene>, s: Scene, c: nat, k: nat)
    requires k > 0 && Leads(whole, base, now, SnapshotControls(n, s, c, k))
    ensures Leads(whole, base, now + [s], if n(c).ok then SnapshotControls(n, s, c + 1, k - 1) else Out(s, c + 1, false, []))
  {
    if n(c).ok {
      var b := SnapshotControls(n, s, c + 1, k - 1);
      assert now + ([s] + b.trail) == now + [s] + b.trail;
    }
  }

  lemma RestoreAdvances(n: Nature, whole: Out, base: seq<Scene>, now: seq<Scene>, s: Scene, c: nat, saved: Mixer, k: nat, ok: bool)
    requires 0 < k <= CONTROLS
    requires var r := RestoreControls(n, s, c, saved, k);
             Leads(whole, base, now, r.(ok := ok && r.ok))
    ensures var a := WriteControl(n, s, c, k - 1, saved[k - 1]);
            var r := RestoreControls(n, a.scene, a.clock, saved, k - 1);
            Leads(whole, base, now + a.trail, r.(ok := (ok && a.ok) && r.ok))
  {
    var a := WriteControl(n, s, c, k - 1, saved[k - 1]);
    var b := RestoreControls(n, a.scene, a.clock, saved, k - 1);
    assert now + (a.trail + b.trail) == now + a.trail + b.trail;
  }

  lemma RollbackComposes(n: Nature, a: Attempt, saved: Mixer, d: Daemon, base: seq<Scene>)
    requires Sane(d)
    ensures var r := RestoreControls(n, a.out.scene, a.out.clock, saved, |saved|);
            var m := RollbackMarker(n, r.scene, r.clock, d, a.publishing);
            var f := RollbackFile(n, m.scene, m.clock, d, a.persisting);
            var whole := Rollback(n, a, saved, d);
            && whole.scene == f.scene && whole.clock == f.clock
            && base + whole.trail == base + r.trail + m.trail + f.trail
  {
    var r := RestoreControls(n, a.out.scene, a.out.clock, saved, |saved|);
    var m := RollbackMarker(n, r.scene, r.clock, d, a.publishing);
    var f := RollbackFile(n, m.scene, m.clock, d, a.persisting);
    Associate(base, r.trail, m.trail, f.trail);
  }

  lemma Associate(x: seq<Scene>, y: seq<Scene>, z: seq<Scene>, w: seq<Scene>)
    ensures x + (y + (z + w)) == x + y + z + w
  {
  }

  class Service {
    const nature: Nature
    const mixer: array<seq<int>>
    var file: Option<string>
    var disk: Option<string>
    var marker: Option<string>
    var clock: nat
    var setting: Setting
    var initialized: bool
    ghost var trail: seq<Scene>

    ghost predicate Valid()
      reads this
    {
      mixer.Length == CONTROLS && (initialized ==> Good(setting))
    }

    ghost function Scenery(): Scene
      reads this, mixer
      requires mixer.Length == CONTROLS
    {
      Scene(mixer[..], file, disk, marker)
    }

    ghost function Abs(): Daemon
      reads this, mixer
      requires Valid()
    {
      Daemon(setting, initialized, Scenery(), clock)
    }

    /** A process just started, its marker removed. */
    constructor (nature: Nature, mixer: array<seq<int>>, file: Option<string>, disk: Option<string>)
      requires mixer.Length == CONTROLS
      ensures Valid() && this.nature == nature && this.mixer == mixer && trail == []
      ensures Abs() == Daemon(Setting(0, false, 0), false, Scene(mixer[..], file, disk, None), 0)
    {
      this.nature, this.mixer, this.file, this.disk, marker := nature, mixer, file, disk, None;
      clock, setting, initialized, trail := 0, Setting(0, false, 0), false, [];
    }

    /** One system call: the outside answers, and the scene it leaves is recorded. */
    method Call() returns (a: Answer)
      requires mixer.Length == CONTROLS
      modifies this`clock, this`trail
      ensures a == nature(old(clock)) && clock == old(clock) + 1 && trail == old(trail) + [Scenery()]
    {
      a := nature(clock);
      clock := clock + 1;
      trail := trail + [Scenery()];
    }

    ghost predicate Did(out: Out, done: seq<Scene>)
      reads this, mixer
      requires mixer.Length == CONTROLS
    {
      Scenery() == out.scene && clock == out.clock && trail == done + out.trail
    }

    method MixerWrite(i: Control, values: seq<int>) returns (ok: bool)
      requires mixer.Length == CONTROLS
      modifies this`clock, this`trail, mixer
      ensures var out := WriteControl(nature, old(Scenery()), old(clock), i, values);
              Did(out, old(trail)) && ok == out.ok
    {
      mixer[i] := Stored(nature(clock), values);
      var a := Call();
      ok := a.ok;
    }

    /** write_and_verify: one value for all channels, then read back channel by channel. */
    method WriteAndVerifyControl(i: Control, desired: int) returns (ok: bool)
      requires mixer.Length == CONTROLS
      modifies this`clock, this`trail, mixer
      ensures var out := WriteAndVerify(nature, old(Scenery()), old(clock), i, desired);
              Did(out, old(trail)) && ok == out.ok
    {
      ok := MixerWrite(i, Filled(|mixer[i]|, desired));
      if !ok { return; }
      var a := Call();
      if !a.ok { return false; }
      var readback := mixer[i];
      for k := 0 to |readback|
        invariant forall j :: 0 <= j < k ==> readback[j] == desired
      {
        if readback[k] != desired { return false; }
      }
    }

    method SnapshotMixer() returns (ok: bool, saved: Mixer)
      requires mixer.Length == CONTROLS
      modifies this`clock, this`trail
      ensures var out := SnapshotControls(nature, old(Scenery()), old(clock), |old(Scenery()).mixer|);
              Did(out, old(trail)) && ok == out.ok && (ok ==> saved == old(mixer[..]))
    {
      ghost var whole := SnapshotControls(nature, Scenery(), clock, |Scenery().mixer|);
      saved := [[], [], [], [], [], [], []];
      for i := 0 to mixer.Length
        invariant Scenery() == old(Scenery())
        invariant forall j :: 0 <= j < i ==> saved[j] == mixer[j]
        invariant Leads(whole, old(trail), trail, SnapshotControls(nature, Scenery(), clock, mixer.Length - i))
      {
        SnapshotAdvances(nature, whole, old(trail), trail, Scenery(), clock, mixer.Length - i);
        var a := Call();
        if !a.ok { return false, saved; }
        saved := saved[i := mixer[i]];
      }
      return true, saved;
    }

    /** restore_controls: from the last control to the first, past failures. */
    method RestoreMixer(saved: Mixer) returns (ok: bool)
      requires mixer.Length == CONTROLS
      modifies this`clock, this`trail, mixer
      ensures var out := RestoreControls(nature, old(Scenery()), old(clock), saved, |saved|);
              Did(out, old(trail)) && ok == out.ok
    {
      ghost var whole := RestoreControls(nature, Scenery(), clock, saved, |saved|);
      ok := true;
      var k := |saved|;
      while k > 0
        invariant 0 <= k <= |saved|
        invariant var rest := RestoreControls(nature, Scenery(), clock, saved, k);
                  Leads(whole, old(trail), trail, rest.(ok := ok && rest.ok))
      {
        RestoreAdvances(nature, whole, old(trail), trail, Scenery(), clock, saved, k, ok);
        var written := MixerWrite(k - 1, saved[k - 1]);
        if !written { ok := false; }
        k := k - 1;
      }
    }

    method ApplyMixer(t: Setting) returns (ok: bool)
      requires mixer.Length == CONTROLS
      modifies this`clock, this`trail, mixer
      ensures var out := ApplyControls(nature, old(Scenery()), old(clock), t, ApplyOrder(t.muted));
              Did(out, old(trail)) && ok == out.ok
    {
      ok := ApplyAlong(t, ApplyOrder(t.muted));
    }

    method ApplyAlong(t: Setting, order: seq<Control>) returns (ok: bool)
      requires mixer.Length == CONTROLS
      modifies this`clock, this`trail, mixer
      ensures var out := ApplyControls(nature, old(Scenery()), old(clock), t, order);
              Did(out, old(trail)) && ok == out.ok
    {
      ghost var whole := ApplyControls(nature, Scenery(), clock, t, order);
      for k := 0 to |order|
        invariant Leads(whole, old(trail), trail, ApplyControls(nature, Scenery(), clock, t, order[k..]))
      {
        ApplyAdvances(nature, whole, old(trail), trail, Scenery(), clock, t, order[k..]);
        assert order[k..][1..] == order[k + 1..];
        var done := WriteAndVerifyControl(order[k], Desired(t, order[k]));
        if !done { return false; }
      }
      return true;
    }

    method PersistState(t: Setting) returns (ok: bool)
      requires mixer.Length == CONTROLS && Good(t)
      modifies this`clock, this`trail, this`file, this`disk
      ensures var out := Persist(nature, old(Scenery()), old(clock), t);
              Did(out, old(trail)) && ok == out.ok
    {
      var prepared := Call();
      if !prepared.ok { return false; }
      if nature(clock).ok { file := Some(Text(t)); }
      var renamed := Call();
      if !renamed.ok { return false; }
      if nature(clock).ok { disk := file; }
      var synced := Call();
      ok := synced.ok;
    }

    method PublishState(t: Setting) returns (ok: bool)
      requires mixer.Length == CONTROLS && Good(t)
      modifies this`clock, this`trail, this`marker
      ensures var out := Publish(nature, old(Scenery()), old(clock), t);
              Did(out, old(trail)) && ok == out.ok
    {
      var prepared := Call();
      if !prepared.ok { return false; }
      if nature(clock).ok { marker := Some(MarkerText(t)); }
      var renamed := Call();
      if !renamed.ok { return false; }
      var synced := Call();
      ok := synced.ok;
    }

    method UndoMarker(needed: bool, ghost d: Daemon)
      requires Valid() && d.setting == setting && d.initialized == initialized
      modifies this`clock, this`trail, this`marker
      ensures Did(RollbackMarker(nature, old(Scenery()), old(clock), d, needed), old(trail))
    {
      if needed {
        if initialized {
          var _ := PublishState(setting);
        } else {
          if nature(clock).ok { marker := None; }
          var _ := Call();
          var _ := Call();
        }
      }
    }

    method UndoFile(needed: bool, ghost d: Daemon)
      requires Valid() && d.setting == setting && d.initialized == initialized
      modifies this`clock, this`trail, this`file, this`disk
      ensures Did(RollbackFile(nature, old(Scenery()), old(clock), d, needed), old(trail))
    {
      if needed {
        if initialized {
          var _ := PersistState(setting);
        } else {
          if nature(clock).ok { file := None; }
          var _ := Call();
          if file.None? {
            if nature(clock).ok { disk := None; }
            var _ := Call();
          }
        }
      }
    }

    /** commit_state up to its first failure. */
    method GoForward(t: Setting) returns (ok: bool, persisting: bool, publishing: bool)
      requires mixer.Length == CONTROLS && Good(t)
      modifies this`clock, this`trail, this`file, this`disk, this`marker, mixer
      ensures var a := Forward(nature, old(Scenery()), old(clock), t);
              Did(a.out, old(trail)) && ok == a.out.ok && persisting == a.persisting && publishing == a.publishing
    {
      ghost var applied := ApplyControls(nature, Scenery(), clock, t, ApplyOrder(t.muted));
      ok := ApplyMixer(t);
      ok, persisting, publishing := GoForwardFiles(t, ok, applied, trail[..|old(trail)|]);
    }

    method GoForwardFiles(t: Setting, applied: bool, ghost out: Out, ghost base: seq<Scene>)
      returns (ok: bool, persisting: bool, publishing: bool)
      requires mixer.Length == CONTROLS && Good(t) && Did(out, base) && applied == out.ok
      modifies this`clock, this`trail, this`file, this`disk, this`marker
      ensures var a := ForwardFiles(nature, out, t);
              Did(a.out, base) && ok == a.out.ok && persisting == a.persisting && publishing == a.publishing
    {
      ok, persisting, publishing := applied, false, false;
      if !ok { return; }
      persisting := true;
      ghost var persisted := Persist(nature, out.scene, out.clock, t);
      ok := PersistState(t);
      if !ok { return; }
      publishing := true;
      ok := PublishState(t);
    }

    /** commit_state from its rollback label on. */
    method GoBack(ghost a: Attempt, saved: Mixer, persisting: bool, publishing: bool, ghost d: Daemon)
      requires Valid() && d.setting == setting && d.initialized == initialized
      requires a.persisting == persisting && a.publishing == publishing
      requires Scenery() == a.out.scene && clock == a.out.clock
      modifies this`clock, this`trail, this`file, this`disk, this`marker, mixer
      ensures Did(Rollback(nature, a, saved, d), old(trail))
    {
      RollbackComposes(nature, a, saved, d, trail);
      ghost var r := RestoreControls(nature, a.out.scene, a.out.clock, saved, |saved|);
      var _ := RestoreMixer(saved);
      ghost var m := RollbackMarker(nature, r.scene, r.clock, d, publishing);
      UndoMarker(publishing, d);
      UndoFile(persisting, d);
    }

    /** commit_state */
    method CommitState(volume: int, muted: bool) returns (ok: bool)
      requires Valid()
      modifies this, mixer
      ensures Valid()
      ensures var r := Commit(nature, old(Abs()), volume, muted);
              Abs() == r.daemon && ok == r.ok && trail == old(trail) + r.trail
    {
      if volume < 0 || volume > 100 { return false; }
      var next := if volume > 0 then volume else setting.last;
      if next < 1 || next > 100 { next := DEFAULT_VOLUME; }
      var t := Setting(volume, muted || volume == 0, next);
      assert t == Requested(setting.last, volume, muted);
      ghost var d, base := Abs(), trail;
      ghost var s := SnapshotControls(nature, d.scene, d.clock, |d.scene.mixer|);
      var saved, persisting, publishing;
      ok, saved := SnapshotMixer();
      if !ok { return; }
      ghost var a := Forward(nature, s.scene, s.clock, t);
      ok, persisting, publishing := GoForward(t);
      Conclude(t, ok, saved, persisting, publishing, a, d, base, s.trail);
    }

    /** commit_state once its forward part is over. */
    method Conclude(t: Setting, ok: bool, saved: Mixer, persisting: bool, publishing: bool,
                    ghost a: Attempt, ghost d: Daemon, ghost base: seq<Scene>, ghost seen: seq<Scene>)
      requires Valid() && Good(t) && d.setting == setting && d.initialized == initialized && d.scene.mixer == saved
      requires ok == a.out.ok && a.persisting == persisting && a.publishing == publishing && Did(a.out, base + seen)
      modifies this, mixer
      ensures Valid()
      ensures var r := Settle(nature, d, t, seen, a);
              Abs() == r.daemon && trail == base + r.trail
    {
      if ok {
        setting, initialized := t, true;
      } else {
        GoBack(a, saved, persisting, publishing, d);
        Associate(base, seen, a.out.trail, Rollback(nature, a, saved, d).trail);
      }
    }

    /** What a request asks for. */
    method Interpret(request: string) returns (wanted: Option<(int, bool)>)
      requires Valid()
      ensures wanted == Wanted(Abs(), request)
    {
      var volume, muted := setting.volume, setting.muted;
      if request == "up" {
        volume := if volume > 95 then 100 else volume + 5;
        muted := volume == 0;
      } else if request == "down" {
        volume := if volume < 5 then 0 else volume - 5;
        muted := volume == 0;
      } else if request == "mute-toggle" {
        if muted {
          if volume == 0 { volume := setting.last; }
          muted := false;
        } else {
          muted := true;
        }
      } else {
        var percent := ParseSetRequest(request);
        if percent.None? { return None; }
        volume, muted := percent.value, percent.value == 0;
      }
      wanted := Some((volume, muted));
    }

    /** process_command */
    method ProcessCommand(request: string) returns (ok: bool)
      requires Valid()
      modifies this, mixer
      ensures Valid()
      ensures var r := Process(nature, old(Abs()), request);
              Abs() == r.daemon && ok == r.ok && trail == old(trail) + r.trail
    {
      var wanted := Interpret(request);
      if wanted.None? { return request == "get"; }
      ok := CommitState(wanted.value.0, wanted.value.1);
    }

    /** load_persistent_state, with the default for a missing or invalid file. */
    method LoadPersistentState(convert: Conversion) returns (t: Setting)
      requires mixer.Length == CONTROLS
      modifies this`clock, this`trail
      ensures t == Load(nature, convert, Scenery(), old(clock))
      ensures clock == old(clock) + 1 && trail == old(trail) + [Scenery()]
    {
      t := Setting(DEFAULT_VOLUME, false, DEFAULT_VOLUME);
      var a := Call();
      if file.Some? && a.ok {
        var parsed := Parse(convert, file.value);
        if parsed.Some? { t := parsed.value; }
      }
    }

    /** initialize_audio_state */
    method InitializeAudioState(convert: Conversion) returns (ok: bool)
      requires Valid() && !initialized && setting.volume == 0 && !setting.muted && marker == None
      modifies this, mixer
      ensures Valid()
      ensures var r := Start(nature, convert, old(Scenery()), old(clock));
              Abs() == r.daemon && ok == r.ok && trail == old(trail) + [old(Scenery())] + r.trail
    {
      var t := LoadPersistentState(convert);
      setting := setting.(last := t.last);
      assert Abs() == Daemon(Setting(0, false, t.last), false, old(Scenery()).(marker := None), old(clock) + 1);
      ok := CommitState(t.volume, t.muted);
    }
  }
}
