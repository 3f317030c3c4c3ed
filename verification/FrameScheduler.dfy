// frame_scheduler.c: when to draw next, computed on a 32-bit millisecond clock that wraps.

module FrameScheduler {
  import opened Clock32

  const ANIMATION := 16
  const FADE := 33
  const MARQUEE := 100
  const STATIC := 1000
  const FADE_WINDOW := 420
  const RAW_EVDEV_MAX := 50

  // ----- the code, on wrapped times -----

  /** (int32_t)(now - deadline) >= 0 */
  predicate DeadlinePassed(now: U32, deadline: U32) {
    Wrap(now - deadline) < HALF
  }

  function TimeUntil(now: U32, deadline: U32): int {
    if DeadlinePassed(now, deadline) then 0
    else
      var remaining := Wrap(deadline - now);
      if remaining > HALF - 1 then HALF - 1 else remaining
  }

  function Sooner(current: int, candidate: int): int {
    if candidate < 0 then current else if current < 0 || candidate < current then candidate else current
  }

  datatype Query = Query(required: int, visible: bool, animate: bool, marquee: bool, action: bool, rawEvdev: bool)

  function OverlayWait(last: U32, now: U32, until: U32, wait: int): int {
    var w := Sooner(wait, TimeUntil(now, until));
    if DeadlinePassed(now, until) then w
    else
      var remaining := Wrap(until - now);
      if remaining > FADE_WINDOW then Sooner(w, remaining - FADE_WINDOW)
      else Sooner(w, TimeUntil(now, Wrap(last + FADE)))
  }

  function RenderWait(last: U32, dirty: bool, now: U32, until: U32, q: Query): int {
    if !q.visible then -1
    else if dirty then 0
    else
      var w := TimeUntil(now, Wrap(last + STATIC));
      var w1 := if q.animate then Sooner(w, TimeUntil(now, Wrap(last + ANIMATION))) else w;
      var w2 := if q.marquee then Sooner(w1, TimeUntil(now, Wrap(last + MARQUEE))) else w1;
      if q.action && !DeadlinePassed(last, until) then OverlayWait(last, now, until, w2) else w2
  }

  predicate RenderDue(last: U32, dirty: bool, now: U32, until: U32, q: Query) {
    q.visible && RenderWait(last, dirty, now, until, q) == 0
  }

  function Bounded(wait: int, q: Query): int {
    var w := if wait < 0 then STATIC else wait;
    if q.rawEvdev && w > RAW_EVDEV_MAX then RAW_EVDEV_MAX else w
  }

  function NextWait(last: U32, dirty: bool, now: U32, until: U32, q: Query): int {
    Bounded(Sooner(RenderWait(last, dirty, now, until, q), q.required), q)
  }

  // ----- the same on a clock that never wraps -----

  function Max0(x: int): int {
    if x > 0 then x else 0
  }

  function ExactOverlay(last: int, now: int, until: int, wait: int): int {
    var w := Sooner(wait, Max0(until - now));
    if now >= until then w
    else if until - now > FADE_WINDOW then Sooner(w, until - now - FADE_WINDOW)
    else Sooner(w, Max0(last + FADE - now))
  }

  function ExactWait(last: int, dirty: bool, now: int, until: int, q: Query): int {
    if !q.visible then -1
    else if dirty then 0
    else
      var w := Max0(last + STATIC - now);
      var w1 := if q.animate then Sooner(w, Max0(last + ANIMATION - now)) else w;
      var w2 := if q.marquee then Sooner(w1, Max0(last + MARQUEE - now)) else w1;
      if q.action && last < until then ExactOverlay(last, now, until, w2) else w2
  }

  function ExactNext(last: int, dirty: bool, now: int, until: int, q: Query): int {
    Bounded(Sooner(ExactWait(last, dirty, now, until, q), q.required), q)
  }

  // ----- wrapping does not matter -----

  predicate Close(a: int, b: int) {
    -HALF < a - b < HALF
  }

  lemma DeadlineExact(now: int, deadline: int)
    requires Close(now, deadline)
    ensures DeadlinePassed(Wrap(now), Wrap(deadline)) <==> now >= deadline
    ensures TimeUntil(Wrap(now), Wrap(deadline)) == Max0(deadline - now)
    ensures now < deadline ==> Wrap(Wrap(deadline) - Wrap(now)) == deadline - now
  {
    WrapDifference(now, deadline);
    WrapDifference(deadline, now);
    if now >= deadline {
      WrapUnique(now - deadline, now - deadline, 0);
    } else {
      WrapUnique(now - deadline, now - deadline + M, -1);
      WrapUnique(deadline - now, deadline - now, 0);
    }
  }

  /** The last frame is less than 2^31 ms old, with room for a second, and the end of an
      overlay that is active is less than 2^31 ms from it. */
  predicate InRange(last: int, now: int, until: int, q: Query) {
    last <= now < last + HALF - STATIC && (q.action ==> Close(last, until))
  }

  lemma OverlayExact(last: int, now: int, until: int, wait: int)
    requires last <= now < last + HALF - STATIC && last < until < last + HALF
    ensures OverlayWait(Wrap(last), Wrap(now), Wrap(until), wait) == ExactOverlay(last, now, until, wait)
  {
    DeadlineExact(now, until);
    WrapSum(last, FADE);
    DeadlineExact(now, last + FADE);
  }

  /** The wrapped computation agrees with exact arithmetic, at any time of the clock. */
  lemma WaitsAreExact(last: int, dirty: bool, now: int, until: int, q: Query)
    requires InRange(last, now, until, q)
    ensures RenderWait(Wrap(last), dirty, Wrap(now), Wrap(until), q) == ExactWait(last, dirty, now, until, q)
    ensures NextWait(Wrap(last), dirty, Wrap(now), Wrap(until), q) == ExactNext(last, dirty, now, until, q)
  {
    WrapSum(last, STATIC);
    DeadlineExact(now, last + STATIC);
    WrapSum(last, ANIMATION);
    DeadlineExact(now, last + ANIMATION);
    WrapSum(last, MARQUEE);
    DeadlineExact(now, last + MARQUEE);
    if q.action {
      DeadlineExact(last, until);
      if last < until {
        var w := Max0(last + STATIC - now);
        var w1 := if q.animate then Sooner(w, Max0(last + ANIMATION - now)) else w;
        OverlayExact(last, now, until, if q.marquee then Sooner(w1, Max0(last + MARQUEE - now)) else w1);
      }
    }
  }

  // ----- nothing is missed -----

  lemma ExactNotDue(last: int, dirty: bool, now: int, until: int, q: Query, t: int)
    requires q.visible && last <= now <= t < now + ExactNext(last, dirty, now, until, q)
    ensures t < last + STATIC && ExactWait(last, dirty, t, until, q) != 0
  {
  }

  /** Whoever sleeps as long as told misses no instant at which a frame was due. */
  lemma NoDueInstantInside(last: int, dirty: bool, now: int, until: int, q: Query, t: int)
    requires InRange(last, now, until, q)
    requires now <= t < now + NextWait(Wrap(last), dirty, Wrap(now), Wrap(until), q)
    ensures !RenderDue(Wrap(last), dirty, Wrap(t), Wrap(until), q)
  {
    if q.visible {
      WaitsAreExact(last, dirty, now, until, q);
      ExactNotDue(last, dirty, now, until, q, t);
      WaitsAreExact(last, dirty, t, until, q);
    }
  }

  /** When a frame is due, in milliseconds: always if something changed; a second after the
      last frame, 16 ms if something moves, 100 ms if a text scrolls; when an overlay shown
      since ends; and every 33 ms while it fades out in its last 420 ms. */
  predicate DueBy(last: int, dirty: bool, now: int, until: int, q: Query) {
    && q.visible
    && (|| dirty || now >= last + 1000 || (q.animate && now >= last + 16) || (q.marquee && now >= last + 100)
        || (q.action && last < until && (now >= until || (now >= until - 420 && now >= last + 33))))
  }

  lemma DueExactly(last: int, dirty: bool, now: int, until: int, q: Query)
    requires InRange(last, now, until, q)
    ensures RenderDue(Wrap(last), dirty, Wrap(now), Wrap(until), q) <==> DueBy(last, dirty, now, until, q)
  {
    WaitsAreExact(last, dirty, now, until, q);
  }

  /** A wait is never shorter than it must be: it ends with a frame due, with an overlay
      beginning to fade, at the wake-up asked for, or after the second (50 ms with raw
      input) that the loop may sleep at most. */
  lemma WaitIsNotShort(last: int, dirty: bool, now: int, until: int, q: Query)
    requires InRange(last, now, until, q)
    ensures var wait := NextWait(Wrap(last), dirty, Wrap(now), Wrap(until), q);
            var t := now + wait;
            || DueBy(last, dirty, t, until, q) || (q.visible && q.action && last < until && t == until - 420)
            || (q.required >= 0 && wait == q.required) || (q.rawEvdev && wait == 50) || (!q.visible && wait == 1000)
    ensures q.rawEvdev ==> NextWait(Wrap(last), dirty, Wrap(now), Wrap(until), q) <= 50
    ensures q.required >= 0 ==> NextWait(Wrap(last), dirty, Wrap(now), Wrap(until), q) <= q.required
  {
    WaitsAreExact(last, dirty, now, until, q);
  }

  /** The bound on the wait: it is kept exactly unless the screen is off, a later wake-up is
      asked for, and raw input does not shorten it. */
  lemma WaitIsBounded(last: int, dirty: bool, now: int, until: int, q: Query)
    requires InRange(last, now, until, q)
    ensures var wait := NextWait(Wrap(last), dirty, Wrap(now), Wrap(until), q);
            0 <= wait && (wait <= STATIC <==> q.visible || q.required <= STATIC || q.rawEvdev)
  {
    WaitsAreExact(last, dirty, now, until, q);
  }

  /** With the screen off the wait asked for is taken as it is. */
  lemma LongWaitWhenHidden()
    ensures NextWait(0, false, 0, 0, Query(5000, false, false, false, false, false)) == 5000
  {
  }

  // ----- the action overlay -----

  /** An overlay that ran out since the last frame is due to be cleared; once a frame has
      been shown after that, it plays no part any more. */
  lemma OverlayIsClearedOnce(last: int, dirty: bool, now: int, until: int, q: Query)
    requires InRange(last, now, until, q) && q.visible && q.action
    ensures last < until <= now ==> RenderDue(Wrap(last), dirty, Wrap(now), Wrap(until), q)
    ensures until <= last ==>
              RenderWait(Wrap(last), dirty, Wrap(now), Wrap(until), q) == RenderWait(Wrap(last), dirty, Wrap(now), Wrap(until), q.(action := false))
  {
    WaitsAreExact(last, dirty, now, until, q);
    WaitsAreExact(last, dirty, now, until, q.(action := false));
  }

  // ----- runs of the loop -----

  /** The loop of main.c between two turns, on a clock that never wraps. */
  datatype Loop = Loop(last: int, dirty: bool, now: int)

  /** One turn: what was invalidated before the wait, the query for the wait, how long it
      lasted, whether it ended with something to do, what that invalidated, and the query
      for drawing.  Each query comes with the end of the overlay at that time. */
  datatype Turn = Turn(invalidated: bool, sleeping: Query, sleepUntil: int, slept: int,
                       woken: bool, touched: bool, drawing: Query, drawUntil: int)

  predicate Dirty(s: Loop, t: Turn) {
    s.dirty || t.invalidated
  }

  /** The wait the scheduler asks for. */
  function Told(s: Loop, t: Turn): int {
    NextWait(Wrap(s.last), Dirty(s, t), Wrap(s.now), Wrap(t.sleepUntil), t.sleeping)
  }

  /** A wait that runs out leads straight to the next turn; otherwise the hidden screen is
      left alone, and a visible one drawn if a frame is due. */
  function Next(s: Loop, t: Turn): Loop {
    var now, dirty := s.now + t.slept, Dirty(s, t) || t.touched;
    if Told(s, t) > 0 && !t.woken then Loop(s.last, Dirty(s, t), now)
    else if !t.drawing.visible then Loop(s.last, false, now)
    else if RenderDue(Wrap(s.last), dirty, Wrap(now), Wrap(t.drawUntil), t.drawing) then Loop(now, false, now)
    else Loop(s.last, dirty, now)
  }

  function Turns(s: Loop, turns: seq<Turn>): Loop
    decreases |turns|
  {
    if turns == [] then s else Turns(Next(s, turns[0]), turns[1..])
  }

  /** No wait is longer than told, overlays end within 2^31 ms of the last frame, and the
      screen is not hidden for that long. */
  predicate Plausible(s: Loop, t: Turn) {
    && 0 <= t.slept <= Told(s, t)
    && (t.sleeping.action ==> Close(s.last, t.sleepUntil)) && (t.drawing.action ==> Close(s.last, t.drawUntil))
    && (!t.sleeping.visible ==> s.now + t.slept < s.last + HALF - STATIC)
  }

  predicate AllPlausible(s: Loop, turns: seq<Turn>)
    decreases |turns|
  {
    turns != [] ==> Plausible(s, turns[0]) && AllPlausible(Next(s, turns[0]), turns[1..])
  }

  predicate Started(s: Loop) {
    s.last <= s.now < s.last + HALF - STATIC
  }

  /** With the screen on: the wait does not run past the second the last frame may stand,
      nor past the end of an overlay it shows. */
  predicate WaitEndsInTime(s: Loop, t: Turn) {
    t.sleeping.visible ==>
      && s.now + t.slept <= Max(s.now, s.last + STATIC)
      && (t.sleeping.action && s.last < t.sleepUntil ==> s.now + t.slept <= Max(s.now, t.sleepUntil))
  }

  function Max(a: int, b: int): int {
    if a > b then a else b
  }

  /** If it then comes to drawing, whatever calls for a frame gets it at once. */
  predicate DrawnAtOnce(s: Loop, t: Turn) {
    var now := s.now + t.slept;
    t.drawing.visible && (t.woken || Told(s, t) == 0) ==>
      && !Next(s, t).dirty
      && (Dirty(s, t) || t.touched || now >= s.last + STATIC || (t.drawing.action && s.last < t.drawUntil <= now) ==>
            Next(s, t).last == now)
  }

  ghost predicate OnTime(s: Loop, t: Turn) {
    && WaitEndsInTime(s, t) && DrawnAtOnce(s, t)
    && forall i :: s.now <= i < s.now + t.slept ==>
         !RenderDue(Wrap(s.last), Dirty(s, t), Wrap(i), Wrap(t.sleepUntil), t.sleeping)
  }

  ghost predicate AllOnTime(s: Loop, turns: seq<Turn>)
    decreases |turns|
  {
    turns != [] ==> OnTime(s, turns[0]) && AllOnTime(Next(s, turns[0]), turns[1..])
  }

  lemma WaitIsInTime(s: Loop, t: Turn)
    requires Started(s) && Plausible(s, t)
    ensures WaitEndsInTime(s, t) && s.now + t.slept < s.last + HALF - STATIC
  {
    WaitsAreExact(s.last, Dirty(s, t), s.now, t.sleepUntil, t.sleeping);
  }

  lemma DrawingIsAtOnce(s: Loop, t: Turn)
    requires Started(s) && Plausible(s, t)
    ensures DrawnAtOnce(s, t) && Started(Next(s, t))
  {
    WaitIsInTime(s, t);
    WaitsAreExact(s.last, Dirty(s, t) || t.touched, s.now + t.slept, t.drawUntil, t.drawing);
  }

  lemma TurnIsOnTime(s: Loop, t: Turn)
    requires Started(s) && Plausible(s, t)
    ensures OnTime(s, t) && Started(Next(s, t))
  {
    WaitIsInTime(s, t);
    DrawingIsAtOnce(s, t);
    forall i | s.now <= i < s.now + t.slept
      ensures !RenderDue(Wrap(s.last), Dirty(s, t), Wrap(i), Wrap(t.sleepUntil), t.sleeping)
    {
      NoDueInstantInside(s.last, Dirty(s, t), s.now, t.sleepUntil, t.sleeping, i);
    }
  }

  /** However long the loop runs and whatever happens in it: every turn is on time. */
  lemma {:induction false} LoopStaysPrompt(s: Loop, turns: seq<Turn>)
    requires Started(s) && AllPlausible(s, turns)
    ensures AllOnTime(s, turns) && Started(Turns(s, turns))
    decreases |turns|
  {
    if turns != [] {
      TurnIsOnTime(s, turns[0]);
      LoopStaysPrompt(Next(s, turns[0]), turns[1..]);
    }
  }

  predicate AlwaysVisible(turns: seq<Turn>) {
    forall i :: 0 <= i < |turns| ==> turns[i].sleeping.visible && turns[i].drawing.visible
  }

  /** With the screen on throughout, the last frame is never more than a second old. */
  lemma {:induction false} FramesStayFresh(s: Loop, turns: seq<Turn>)
    requires s.last <= s.now <= s.last + STATIC && AllPlausible(s, turns) && AlwaysVisible(turns)
    ensures var e := Turns(s, turns);
            e.last <= e.now <= e.last + STATIC
    decreases |turns|
  {
    if turns != [] {
      TurnIsOnTime(s, turns[0]);
      FramesStayFresh(Next(s, turns[0]), turns[1..]);
    }
  }

  // ----- the object -----

  class Scheduler {
    var lastPresent: U32
    var dirty: bool

    constructor (now: U32)
      ensures lastPresent == now && dirty
    {
      lastPresent, dirty := now, true;
    }

    method Invalidate()
      modifies this
      ensures dirty && lastPresent == old(lastPresent)
    {
      dirty := true;
    }

    method Clear()
      modifies this
      ensures !dirty && lastPresent == old(lastPresent)
    {
      dirty := false;
    }

    method Presented(now: U32)
      modifies this
      ensures !dirty && lastPresent == now
    {
      lastPresent, dirty := now, false;
    }

    /** frame_scheduler_next_wait_ms with its wait built up in place. */
    method NextWaitMs(now: U32, until: U32, q: Query) returns (wait: int)
      ensures wait == NextWait(lastPresent, dirty, now, until, q)
    {
      wait := -1;
      if q.visible {
        if dirty {
          wait := 0;
        } else {
          wait := TimeUntil(now, Wrap(lastPresent + STATIC));
          if q.animate { wait := Sooner(wait, TimeUntil(now, Wrap(lastPresent + ANIMATION))); }
          if q.marquee { wait := Sooner(wait, TimeUntil(now, Wrap(lastPresent + MARQUEE))); }
          if q.action && !DeadlinePassed(lastPresent, until) { wait := OverlayWait(lastPresent, now, until, wait); }
        }
      }
      wait := Sooner(wait, q.required);
      if wait < 0 { wait := STATIC; }
      if q.rawEvdev && wait > RAW_EVDEV_MAX { wait := RAW_EVDEV_MAX; }
    }

    /** main.c up to the wait. */
    method BeforeWait(invalidated: bool, now: U32, until: U32, q: Query) returns (wait: int)
      modifies this
      ensures lastPresent == old(lastPresent) && dirty == (old(dirty) || invalidated)
      ensures wait == NextWait(lastPresent, dirty, now, until, q)
    {
      if invalidated { Invalidate(); }
      wait := NextWaitMs(now, until, q);
    }

    /** main.c after a wait that ended with something to do. */
    method AfterWait(touched: bool, now: U32, until: U32, q: Query) returns (drawn: bool)
      modifies this
      ensures drawn <==> RenderDue(old(lastPresent), old(dirty) || touched, now, until, q)
      ensures lastPresent == if drawn then now else old(lastPresent)
      ensures !dirty
    {
      if touched { Invalidate(); }
      if !q.visible {
        Clear();
        return false;
      }
      if !RenderDue(lastPresent, dirty, now, until, q) { return false; }
      Presented(now);
      drawn := true;
    }

    /** One turn of the loop, given how long the wait lasts and how it ends. */
    method LoopTurn(ghost s: Loop, t: Turn, now: U32, after: U32)
      requires lastPresent == Wrap(s.last) && dirty == s.dirty && now == Wrap(s.now) && after == Wrap(s.now + t.slept)
      modifies this
      ensures lastPresent == Wrap(Next(s, t).last) && dirty == Next(s, t).dirty
    {
      var wait := BeforeWait(t.invalidated, now, Wrap(t.sleepUntil), t.sleeping);
      if wait > 0 && !t.woken { return; }
      var drawn := AfterWait(t.touched, after, Wrap(t.drawUntil), t.drawing);
    }
  }
}
