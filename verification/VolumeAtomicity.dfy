// What the volume transaction promises, against every pattern of failing calls.

module VolumeAtomicity {
  import opened Options
  import opened Decimal
  import opened VolumeFormat
  import opened VolumeDaemon

  /** The mixer plays `t`. */
  predicate Plays(m: Mixer, t: Setting) {
    forall i: Control :: AllAre(m[i], Desired(t, i))
  }

  predicate AllAre(channels: seq<int>, v: int) {
    forall k :: 0 <= k < |channels| ==> channels[k] == v
  }

  /** Mixer, file, disk and marker all say `t`. */
  predicate Says(s: Scene, t: Setting)
    requires Good(t)
  {
    Plays(s.mixer, t) && Records(s, t)
  }

  predicate Records(s: Scene, t: Setting)
    requires Good(t)
  {
    s.file == Some(Text(t)) && s.disk == s.file && s.marker == Some(MarkerText(t))
  }

  /** Between these clocks every call succeeds and control writes store what was asked. */
  ghost predicate Faithful(n: Nature, from: nat, to: nat) {
    forall c :: from <= c < to ==> n(c).ok && n(c).exact
  }

  // ----- snapshots and restores -----

  lemma {:induction false} SnapshotReads(n: Nature, s: Scene, c: nat, k: nat)
    ensures var r := SnapshotControls(n, s, c, k);
            r.scene == s && r.clock >= c && forall i :: 0 <= i < |r.trail| ==> r.trail[i] == s
    decreases k
  {
    if k > 0 {
      SnapshotReads(n, s, c + 1, k - 1);
    }
  }

  /** A scene with the files of `s`, whatever its mixer. */
  predicate SameFiles(a: Scene, s: Scene) {
    a.file == s.file && a.disk == s.disk && a.marker == s.marker
  }

  predicate AllSameFiles(trail: seq<Scene>, s: Scene) {
    forall k :: 0 <= k < |trail| ==> SameFiles(trail[k], s)
  }

  lemma {:induction false} RestoreTouchesOnlyMixer(n: Nature, s: Scene, c: nat, saved: Mixer, k: nat)
    requires k <= CONTROLS
    ensures var r := RestoreControls(n, s, c, saved, k);
            SameFiles(r.scene, s) && AllSameFiles(r.trail, s) && r.clock == c + k
    decreases k
  {
    if k > 0 {
      RestoreTouchesOnlyMixer(n, WriteControl(n, s, c, k - 1, saved[k - 1]).scene, c + 1, saved, k - 1);
    }
  }

  lemma {:induction false} RestoreRestores(n: Nature, s: Scene, c: nat, saved: Mixer, k: nat)
    requires k <= CONTROLS && Faithful(n, c, c + k)
    ensures var m := RestoreControls(n, s, c, saved, k).scene.mixer;
            forall i: Control :: m[i] == if i < k then saved[i] else s.mixer[i]
    decreases k
  {
    if k > 0 {
      RestoreRestores(n, WriteControl(n, s, c, k - 1, saved[k - 1]).scene, c + 1, saved, k - 1);
    }
  }

  // ----- applying the controls -----

  lemma {:induction false} ApplyTouchesOnlyMixer(n: Nature, s: Scene, c: nat, t: Setting, order: seq<Control>)
    ensures var r := ApplyControls(n, s, c, t, order);
            SameFiles(r.scene, s) && AllSameFiles(r.trail, s) && r.clock >= c
    decreases |order|
  {
    if order != [] {
      var a := WriteAndVerify(n, s, c, order[0], Desired(t, order[0]));
      ApplyTouchesOnlyMixer(n, a.scene, a.clock, t, order[1..]);
    }
  }

  /** What was applied and verified stays so while the other controls are written. */
  lemma {:induction false} ApplySets(n: Nature, s: Scene, c: nat, t: Setting, order: seq<Control>, i: Control)
    requires ApplyControls(n, s, c, t, order).ok
    requires i in order || AllAre(s.mixer[i], Desired(t, i))
    ensures AllAre(ApplyControls(n, s, c, t, order).scene.mixer[i], Desired(t, i))
    decreases |order|
  {
    if order != [] {
      var a := WriteAndVerify(n, s, c, order[0], Desired(t, order[0]));
      assert AllAre(a.scene.mixer[order[0]], Desired(t, order[0]));
      ApplySets(n, a.scene, a.clock, t, order[1..], i);
    }
  }

  lemma ApplyPlays(n: Nature, s: Scene, c: nat, t: Setting)
    requires ApplyControls(n, s, c, t, ApplyOrder(t.muted)).ok
    ensures Plays(ApplyControls(n, s, c, t, ApplyOrder(t.muted)).scene.mixer, t)
  {
    forall i: Control {
      ApplySets(n, s, c, t, ApplyOrder(t.muted), i);
    }
  }

  // ----- the forward part -----

  /** If every step reports success, all four places hold the new setting. */
  lemma ForwardSucceeds(n: Nature, s: Scene, c: nat, t: Setting)
    requires Good(t) && Forward(n, s, c, t).out.ok
    ensures Says(Forward(n, s, c, t).out.scene, t)
  {
    ApplyPlays(n, s, c, t);
  }

  /** How far a failed forward part got: nothing of the files before persisting, and
      nothing of the marker before publishing. */
  lemma ForwardShape(n: Nature, s: Scene, c: nat, t: Setting)
    requires Good(t)
    ensures var a := Forward(n, s, c, t);
            && a.out.clock >= c
            && (a.publishing ==> a.persisting)
            && (!a.persisting ==> a.out.scene.file == s.file && a.out.scene.disk == s.disk)
            && (!a.publishing ==> a.out.scene.marker == s.marker)
  {
    ApplyTouchesOnlyMixer(n, s, c, t, ApplyOrder(t.muted));
  }

  lemma RollbackUndoesFiles(n: Nature, a: Attempt, saved: Mixer, d: Daemon)
    requires d.initialized && Good(d.setting) && Records(d.scene, d.setting)
    requires !a.persisting ==> a.out.scene.file == d.scene.file && a.out.scene.disk == d.scene.disk
    requires !a.publishing ==> a.out.scene.marker == d.scene.marker
    requires Faithful(n, a.out.clock, Rollback(n, a, saved, d).clock)
    ensures var r := Rollback(n, a, saved, d).scene;
            SameFiles(r, d.scene)
  {
    RestoreTouchesOnlyMixer(n, a.out.scene, a.out.clock, saved, |saved|);
  }

  lemma FileRollbackKeepsMixer(n: Nature, s: Scene, c: nat, d: Daemon, marker: bool, file: bool)
    requires Sane(d)
    ensures var m := RollbackMarker(n, s, c, d, marker);
            var f := RollbackFile(n, m.scene, m.clock, d, file);
            f.scene.mixer == s.mixer && f.clock >= c
  {
  }

  lemma RollbackUndoesMixer(n: Nature, a: Attempt, saved: Mixer, d: Daemon)
    requires Sane(d) && Faithful(n, a.out.clock, Rollback(n, a, saved, d).clock)
    ensures Rollback(n, a, saved, d).scene.mixer == saved
  {
    var r := RestoreControls(n, a.out.scene, a.out.clock, saved, |saved|);
    RestoreTouchesOnlyMixer(n, a.out.scene, a.out.clock, saved, |saved|);
    FileRollbackKeepsMixer(n, r.scene, r.clock, d, a.publishing, a.persisting);
    RestoreRestores(n, a.out.scene, a.out.clock, saved, |saved|);
    assert forall i: Control :: r.scene.mixer[i] == saved[i];
  }

  // ----- main results -----

  /** A commit that reports success leaves memory, mixer, volume.v1 (on disk) and marker
      in agreement, whatever they were before. */
  lemma CommitAgrees(n: Nature, d: Daemon, volume: int, muted: bool)
    requires Sane(d) && Commit(n, d, volume, muted).ok
    ensures 0 <= volume <= 100
    ensures var e := Commit(n, d, volume, muted).daemon;
            && e.initialized && e.setting == Requested(d.setting.last, volume, muted)
            && Says(e.scene, e.setting)
  {
    SnapshotReads(n, d.scene, d.clock, |d.scene.mixer|);
    var s := SnapshotControls(n, d.scene, d.clock, |d.scene.mixer|);
    ForwardSucceeds(n, s.scene, s.clock, Requested(d.setting.last, volume, muted));
  }

  /** A commit that reports failure changes nothing, provided the calls that undo it work:
      for every failure of reads, writes, read-backs, renames and syncs before that. */
  lemma FailedCommitChangesNothing(n: Nature, d: Daemon, volume: int, muted: bool)
    requires d.initialized && Good(d.setting) && Records(d.scene, d.setting)
    requires !Commit(n, d, volume, muted).ok
    requires 0 <= volume <= 100 ==>
               Faithful(n, RollbackStart(n, d, volume, muted), Commit(n, d, volume, muted).daemon.clock)
    ensures var e := Commit(n, d, volume, muted).daemon;
            e.scene == d.scene && e.setting == d.setting && e.initialized
  {
    if 0 <= volume <= 100 {
      SnapshotReads(n, d.scene, d.clock, |d.scene.mixer|);
      var s := SnapshotControls(n, d.scene, d.clock, |d.scene.mixer|);
      if s.ok {
        var t := Requested(d.setting.last, volume, muted);
        var a := Forward(n, s.scene, s.clock, t);
        ForwardShape(n, s.scene, s.clock, t);
        RollbackUndoesFiles(n, a, d.scene.mixer, d);
        RollbackUndoesMixer(n, a, d.scene.mixer, d);
      }
    }
  }

  // ----- at every instant -----

  predicate OneOf(x: Option<string>, a: string, b: string) {
    x == Some(a) || x == Some(b)
  }

  /** volume.v1 is whole, as seen now and as it would be after power loss. */
  predicate Whole(s: Scene, a: string, b: string) {
    OneOf(s.file, a, b) && OneOf(s.disk, a, b)
  }

  predicate AllWhole(trail: seq<Scene>, a: string, b: string) {
    forall k :: 0 <= k < |trail| ==> Whole(trail[k], a, b)
  }

  lemma SameFilesWhole(trail: seq<Scene>, s: Scene, a: string, b: string)
    requires AllSameFiles(trail, s) && Whole(s, a, b)
    ensures AllWhole(trail, a, b)
  {
  }

  lemma PersistWhole(n: Nature, s: Scene, c: nat, t: Setting, a: string, b: string)
    requires Good(t) && Whole(s, a, b) && (Text(t) == a || Text(t) == b)
    ensures var r := Persist(n, s, c, t);
            Whole(r.scene, a, b) && AllWhole(r.trail, a, b)
  {
  }

  lemma PublishWhole(n: Nature, s: Scene, c: nat, t: Setting, a: string, b: string)
    requires Good(t) && Whole(s, a, b)
    ensures var r := Publish(n, s, c, t);
            Whole(r.scene, a, b) && AllWhole(r.trail, a, b)
  {
  }

  lemma ForwardWhole(n: Nature, s: Scene, c: nat, t: Setting, a: string, b: string)
    requires Good(t) && Whole(s, a, b) && Text(t) == b
    ensures var r := Forward(n, s, c, t).out;
            Whole(r.scene, a, b) && AllWhole(r.trail, a, b)
  {
    var applied := ApplyControls(n, s, c, t, ApplyOrder(t.muted));
    ApplyTouchesOnlyMixer(n, s, c, t, ApplyOrder(t.muted));
    SameFilesWhole(applied.trail, s, a, b);
    if applied.ok {
      PersistWhole(n, applied.scene, applied.clock, t, a, b);
      var persisted := Persist(n, applied.scene, applied.clock, t);
      PublishWhole(n, persisted.scene, persisted.clock, t, a, b);
    }
  }

  lemma RollbackWhole(n: Nature, f: Attempt, saved: Mixer, d: Daemon, a: string, b: string)
    requires d.initialized && Good(d.setting) && Whole(f.out.scene, a, b) && Text(d.setting) == a
    ensures var r := Rollback(n, f, saved, d);
            Whole(r.scene, a, b) && AllWhole(r.trail, a, b)
  {
    var r := RestoreControls(n, f.out.scene, f.out.clock, saved, |saved|);
    RestoreTouchesOnlyMixer(n, f.out.scene, f.out.clock, saved, |saved|);
    SameFilesWhole(r.trail, f.out.scene, a, b);
    if f.publishing { PublishWhole(n, r.scene, r.clock, d.setting, a, b); }
    var m := RollbackMarker(n, r.scene, r.clock, d, f.publishing);
    if f.persisting { PersistWhole(n, m.scene, m.clock, d.setting, a, b); }
  }

  /** After every call of a commit, successful or not and whatever fails, volume.v1 holds
      the old or the new setting: as it stands and as power loss would leave it. */
  lemma FileAlwaysWhole(n: Nature, d: Daemon, volume: int, muted: bool)
    requires d.initialized && Good(d.setting) && 0 <= volume <= 100
    requires d.scene.file == Some(Text(d.setting)) && d.scene.disk == d.scene.file
    ensures var r := Commit(n, d, volume, muted);
            AllWhole(r.trail, Text(d.setting), Text(Requested(d.setting.last, volume, muted)))
  {
    var t := Requested(d.setting.last, volume, muted);
    var a, b := Text(d.setting), Text(t);
    var s := SnapshotControls(n, d.scene, d.clock, |d.scene.mixer|);
    SnapshotReads(n, d.scene, d.clock, |d.scene.mixer|);
    SameFilesWhole(s.trail, d.scene, a, b);
    if s.ok {
      ForwardWhole(n, s.scene, s.clock, t, a, b);
      var f := Forward(n, s.scene, s.clock, t);
      if !f.out.ok {
        RollbackWhole(n, f, d.scene.mixer, d, a, b);
      }
    }
  }

  // ----- the marker is the last thing to change -----

  function Before(from: Scene, trail: seq<Scene>, k: nat): Scene
    requires k <= |trail|
  {
    if k == 0 then from else trail[k - 1]
  }

  /** Wherever the marker turns into that of `t`, controls and volume.v1 already hold `t`. */
  predicate MarkerAppearsLast(from: Scene, trail: seq<Scene>, t: Setting)
    requires Good(t)
  {
    forall k :: 0 <= k < |trail| && trail[k].marker == Some(MarkerText(t)) && Before(from, trail, k).marker != trail[k].marker
      ==> Plays(trail[k].mixer, t) && trail[k].file == Some(Text(t))
  }

  predicate Ends(from: Scene, trail: seq<Scene>, to: Scene) {
    Before(from, trail, |trail|) == to
  }

  lemma AppearsLastJoins(from: Scene, x: seq<Scene>, mid: Scene, y: seq<Scene>, t: Setting)
    requires Good(t) && MarkerAppearsLast(from, x, t) && Ends(from, x, mid) && MarkerAppearsLast(mid, y, t)
    ensures MarkerAppearsLast(from, x + y, t)
  {
    forall k | 0 <= k < |x + y| && (x + y)[k].marker == Some(MarkerText(t)) && Before(from, x + y, k).marker != (x + y)[k].marker
      ensures Plays((x + y)[k].mixer, t) && (x + y)[k].file == Some(Text(t))
    {
      if k >= |x| {
        assert (x + y)[k] == y[k - |x|];
        assert Before(from, x + y, k) == Before(mid, y, k - |x|);
      }
    }
  }

  lemma EndsJoins(from: Scene, x: seq<Scene>, mid: Scene, y: seq<Scene>, to: Scene)
    requires Ends(from, x, mid) && Ends(mid, y, to)
    ensures Ends(from, x + y, to)
  {
  }

  /** While the marker does not change there is nothing to show. */
  lemma SteadyMarker(from: Scene, trail: seq<Scene>, t: Setting)
    requires Good(t) && forall k :: 0 <= k < |trail| ==> trail[k].marker == from.marker
    ensures MarkerAppearsLast(from, trail, t)
  {
  }

  lemma {:induction false} ApplyEnds(n: Nature, s: Scene, c: nat, t: Setting, order: seq<Control>)
    ensures var r := ApplyControls(n, s, c, t, order);
            Ends(s, r.trail, r.scene)
    decreases |order|
  {
    if order != [] {
      var a := WriteAndVerify(n, s, c, order[0], Desired(t, order[0]));
      ApplyEnds(n, a.scene, a.clock, t, order[1..]);
      if a.ok {
        EndsJoins(s, a.trail, a.scene, ApplyControls(n, a.scene, a.clock, t, order[1..]).trail,
                  ApplyControls(n, a.scene, a.clock, t, order[1..]).scene);
      }
    }
  }

  lemma {:induction false} RestoreEnds(n: Nature, s: Scene, c: nat, saved: Mixer, k: nat)
    requires k <= CONTROLS
    ensures var r := RestoreControls(n, s, c, saved, k);
            Ends(s, r.trail, r.scene)
    decreases k
  {
    if k > 0 {
      var a := WriteControl(n, s, c, k - 1, saved[k - 1]);
      RestoreEnds(n, a.scene, a.clock, saved, k - 1);
      EndsJoins(s, a.trail, a.scene, RestoreControls(n, a.scene, a.clock, saved, k - 1).trail,
                RestoreControls(n, a.scene, a.clock, saved, k - 1).scene);
    }
  }

  /** Persisting never touches the marker. */
  lemma PersistAppearsLast(n: Nature, s: Scene, c: nat, written: Setting, t: Setting)
    requires Good(written) && Good(t)
    ensures var r := Persist(n, s, c, written);
            MarkerAppearsLast(s, r.trail, t) && Ends(s, r.trail, r.scene) && r.scene.mixer == s.mixer
  {
    SteadyMarker(s, Persist(n, s, c, written).trail, t);
  }

  /** Publishing is the one step that may bring the new marker. */
  lemma PublishAppearsLast(n: Nature, s: Scene, c: nat, written: Setting, t: Setting)
    requires Good(written) && Good(t)
    requires MarkerText(written) == MarkerText(t) && s.marker != Some(MarkerText(t)) ==> Plays(s.mixer, t) && s.file == Some(Text(t))
    ensures var r := Publish(n, s, c, written);
            MarkerAppearsLast(s, r.trail, t) && Ends(s, r.trail, r.scene)
  {
  }

  lemma FilesAppearLast(n: Nature, s: Scene, applied: Out, t: Setting)
    requires Good(t) && MarkerAppearsLast(s, applied.trail, t) && Ends(s, applied.trail, applied.scene)
    requires applied.ok ==> Plays(applied.scene.mixer, t)
    ensures var r := ForwardFiles(n, applied, t).out;
            MarkerAppearsLast(s, r.trail, t) && Ends(s, r.trail, r.scene)
  {
    if applied.ok {
      PersistAppearsLast(n, applied.scene, applied.clock, t, t);
      var persisted := Persist(n, applied.scene, applied.clock, t);
      AppearsLastJoins(s, applied.trail, applied.scene, persisted.trail, t);
      EndsJoins(s, applied.trail, applied.scene, persisted.trail, persisted.scene);
      if persisted.ok {
        PublishAppearsLast(n, persisted.scene, persisted.clock, t, t);
        var published := Publish(n, persisted.scene, persisted.clock, t);
        AppearsLastJoins(s, applied.trail + persisted.trail, persisted.scene, published.trail, t);
        EndsJoins(s, applied.trail + persisted.trail, persisted.scene, published.trail, published.scene);
        assert applied.trail + persisted.trail + published.trail == applied.trail + (persisted.trail + published.trail);
      }
    }
  }

  lemma ForwardAppearsLast(n: Nature, s: Scene, c: nat, t: Setting)
    requires Good(t)
    ensures var r := Forward(n, s, c, t).out;
            MarkerAppearsLast(s, r.trail, t) && Ends(s, r.trail, r.scene)
  {
    var applied := ApplyControls(n, s, c, t, ApplyOrder(t.muted));
    ApplyTouchesOnlyMixer(n, s, c, t, ApplyOrder(t.muted));
    SteadyMarker(s, applied.trail, t);
    ApplyEnds(n, s, c, t, ApplyOrder(t.muted));
    if applied.ok {
      ApplyPlays(n, s, c, t);
    }
    FilesAppearLast(n, s, applied, t);
  }

  /** Removing marker and file brings no marker. */
  lemma RemoveAppearsLast(n: Nature, s: Scene, c: nat, t: Setting)
    requires Good(t)
    ensures var m := RemoveMarker(n, s, c);
            MarkerAppearsLast(s, m.trail, t) && Ends(s, m.trail, m.scene)
    ensures var f := RemoveFile(n, s, c);
            MarkerAppearsLast(s, f.trail, t) && Ends(s, f.trail, f.scene)
  {
    SteadyMarker(s, RemoveFile(n, s, c).trail, t);
  }

  lemma MarkerRollbackAppearsLast(n: Nature, s: Scene, c: nat, d: Daemon, needed: bool, t: Setting)
    requires Sane(d) && Good(t) && (d.initialized ==> MarkerText(d.setting) != MarkerText(t))
    ensures var m := RollbackMarker(n, s, c, d, needed);
            MarkerAppearsLast(s, m.trail, t) && Ends(s, m.trail, m.scene)
  {
    if d.initialized {
      PublishAppearsLast(n, s, c, d.setting, t);
    } else {
      RemoveAppearsLast(n, s, c, t);
    }
  }

  lemma FileRollbackAppearsLast(n: Nature, s: Scene, c: nat, d: Daemon, needed: bool, t: Setting)
    requires Sane(d) && Good(t)
    ensures MarkerAppearsLast(s, RollbackFile(n, s, c, d, needed).trail, t)
  {
    if d.initialized {
      PersistAppearsLast(n, s, c, d.setting, t);
    } else {
      RemoveAppearsLast(n, s, c, t);
    }
  }

  lemma RollbackAppearsLast(n: Nature, f: Attempt, saved: Mixer, d: Daemon, t: Setting)
    requires Sane(d) && Good(t) && (d.initialized ==> MarkerText(d.setting) != MarkerText(t))
    ensures MarkerAppearsLast(f.out.scene, Rollback(n, f, saved, d).trail, t)
  {
    var from := f.out.scene;
    var r := RestoreControls(n, from, f.out.clock, saved, |saved|);
    RestoreTouchesOnlyMixer(n, from, f.out.clock, saved, |saved|);
    RestoreEnds(n, from, f.out.clock, saved, |saved|);
    SteadyMarker(from, r.trail, t);
    var m := RollbackMarker(n, r.scene, r.clock, d, f.publishing);
    MarkerRollbackAppearsLast(n, r.scene, r.clock, d, f.publishing, t);
    FileRollbackAppearsLast(n, m.scene, m.clock, d, f.persisting, t);
    var p := RollbackFile(n, m.scene, m.clock, d, f.persisting);
    AppearsLastJoins(r.scene, m.trail, m.scene, p.trail, t);
    AppearsLastJoins(from, r.trail, r.scene, m.trail + p.trail, t);
  }

  lemma NewMarkerAppearsLast(n: Nature, d: Daemon, volume: int, muted: bool)
    requires Sane(d) && 0 <= volume <= 100
    requires d.initialized ==> MarkerText(d.setting) != MarkerText(Requested(d.setting.last, volume, muted))
    ensures MarkerAppearsLast(d.scene, Commit(n, d, volume, muted).trail, Requested(d.setting.last, volume, muted))
  {
    var t := Requested(d.setting.last, volume, muted);
    var s := SnapshotControls(n, d.scene, d.clock, |d.scene.mixer|);
    SnapshotReads(n, d.scene, d.clock, |d.scene.mixer|);
    SteadyMarker(d.scene, s.trail, t);
    if s.ok {
      ForwardAppearsLast(n, s.scene, s.clock, t);
      var f := Forward(n, s.scene, s.clock, t);
      AppearsLastJoins(d.scene, s.trail, d.scene, f.out.trail, t);
      if !f.out.ok {
        RollbackAppearsLast(n, f, d.scene.mixer, d, t);
        var r := Rollback(n, f, d.scene.mixer, d);
        AppearsLastJoins(d.scene, f.out.trail, f.out.scene, r.trail, t);
        AppearsLastJoins(d.scene, s.trail, d.scene, f.out.trail + r.trail, t);
      }
    }
  }

  // ----- a commit that leaves the marker's text alone -----

  predicate AllMarked(trail: seq<Scene>, m: Option<string>) {
    forall k :: 0 <= k < |trail| ==> trail[k].marker == m
  }

  lemma FilesMarked(n: Nature, s: Scene, c: nat, t: Setting, m: Option<string>)
    requires Good(t) && s.marker == m
    ensures AllMarked(Persist(n, s, c, t).trail, m) && Persist(n, s, c, t).scene.marker == m
    ensures m == Some(MarkerText(t)) ==> AllMarked(Publish(n, s, c, t).trail, m) && Publish(n, s, c, t).scene.marker == m
  {
  }

  lemma MarkedJoin(a: seq<Scene>, b: seq<Scene>, m: Option<string>)
    requires AllMarked(a, m) && AllMarked(b, m)
    ensures AllMarked(a + b, m)
  {
  }

  lemma ForwardMarked(n: Nature, s: Scene, c: nat, t: Setting)
    requires Good(t) && s.marker == Some(MarkerText(t))
    ensures var r := Forward(n, s, c, t).out;
            AllMarked(r.trail, s.marker) && r.scene.marker == s.marker
  {
    var applied := ApplyControls(n, s, c, t, ApplyOrder(t.muted));
    ApplyTouchesOnlyMixer(n, s, c, t, ApplyOrder(t.muted));
    assert AllMarked(applied.trail, s.marker);
    ForwardFilesMarked(n, applied, t);
  }

  lemma ForwardFilesMarked(n: Nature, applied: Out, t: Setting)
    requires Good(t) && applied.scene.marker == Some(MarkerText(t)) && AllMarked(applied.trail, applied.scene.marker)
    ensures var r := ForwardFiles(n, applied, t).out;
            AllMarked(r.trail, applied.scene.marker) && r.scene.marker == applied.scene.marker
  {
    var m := applied.scene.marker;
    FilesMarked(n, applied.scene, applied.clock, t, m);
    var persisted := Persist(n, applied.scene, applied.clock, t);
    FilesMarked(n, persisted.scene, persisted.clock, t, m);
    MarkedJoin(applied.trail, persisted.trail, m);
    var published := Publish(n, persisted.scene, persisted.clock, t);
    MarkedJoin(persisted.trail, published.trail, m);
    MarkedJoin(applied.trail, persisted.trail + published.trail, m);
  }

  lemma RollbackMarked(n: Nature, f: Attempt, saved: Mixer, d: Daemon)
    requires d.initialized && Good(d.setting) && f.out.scene.marker == Some(MarkerText(d.setting))
    ensures AllMarked(Rollback(n, f, saved, d).trail, f.out.scene.marker)
  {
    var m := f.out.scene.marker;
    var r := RestoreControls(n, f.out.scene, f.out.clock, saved, |saved|);
    RestoreTouchesOnlyMixer(n, f.out.scene, f.out.clock, saved, |saved|);
    assert AllMarked(r.trail, m);
    FilesMarked(n, r.scene, r.clock, d.setting, m);
    var marker := RollbackMarker(n, r.scene, r.clock, d, f.publishing);
    FilesMarked(n, marker.scene, marker.clock, d.setting, m);
    var file := RollbackFile(n, marker.scene, marker.clock, d, f.persisting);
    MarkedJoin(marker.trail, file.trail, m);
    MarkedJoin(r.trail, marker.trail + file.trail, m);
  }

  lemma SettleMarked(n: Nature, d: Daemon, t: Setting, seen: seq<Scene>, f: Attempt)
    requires d.initialized && Good(d.setting) && d.scene.marker == Some(MarkerText(d.setting))
    requires AllMarked(seen, d.scene.marker) && AllMarked(f.out.trail, d.scene.marker) && f.out.scene.marker == d.scene.marker
    ensures AllMarked(Settle(n, d, t, seen, f).trail, d.scene.marker)
  {
    var m := d.scene.marker;
    MarkedJoin(seen, f.out.trail, m);
    if !f.out.ok {
      RollbackMarked(n, f, d.scene.mixer, d);
      var r := Rollback(n, f, d.scene.mixer, d);
      MarkedJoin(f.out.trail, r.trail, m);
      MarkedJoin(seen, f.out.trail + r.trail, m);
    }
  }

  lemma SameMarkerStays(n: Nature, d: Daemon, volume: int, muted: bool)
    requires d.initialized && Good(d.setting) && 0 <= volume <= 100
    requires MarkerText(d.setting) == MarkerText(Requested(d.setting.last, volume, muted))
    requires d.scene.marker == Some(MarkerText(d.setting))
    ensures AllMarked(Commit(n, d, volume, muted).trail, d.scene.marker)
  {
    var t := Requested(d.setting.last, volume, muted);
    var s := SnapshotControls(n, d.scene, d.clock, |d.scene.mixer|);
    SnapshotReads(n, d.scene, d.clock, |d.scene.mixer|);
    if s.ok {
      ForwardMarked(n, s.scene, s.clock, t);
      SettleMarked(n, d, t, s.trail, Forward(n, s.scene, s.clock, t));
    }
  }

  /** Throughout a commit and its rollback, the first commit included and whatever fails: at
      the call where the new marker becomes visible the mixer and volume.v1 already hold the
      new setting.  Once initialized, the marker is that of the setting in memory, or the new
      one is different. */
  lemma MarkerIsPublishedLast(n: Nature, d: Daemon, volume: int, muted: bool)
    requires Sane(d) && 0 <= volume <= 100
    requires d.initialized ==>
               || d.scene.marker == Some(MarkerText(d.setting))
               || MarkerText(d.setting) != MarkerText(Requested(d.setting.last, volume, muted))
    ensures MarkerAppearsLast(d.scene, Commit(n, d, volume, muted).trail, Requested(d.setting.last, volume, muted))
  {
    var t := Requested(d.setting.last, volume, muted);
    if d.initialized && MarkerText(d.setting) == MarkerText(t) {
      SameMarkerStays(n, d, volume, muted);
      SteadyMarker(d.scene, Commit(n, d, volume, muted).trail, t);
    } else {
      NewMarkerAppearsLast(n, d, volume, muted);
    }
  }
}
