// input_navigation.c: sticks and hats turned into single navigation steps with hysteresis.

module InputNavigation {
  const INT_MIN := -0x8000_0000
  const INT_MAX := 0x7FFF_FFFF

  type Int32 = x: int | INT_MIN <= x <= INT_MAX

  /** What the kernel reports about an axis. */
  datatype AbsInfo = AbsInfo(value: Int32, minimum: Int32, maximum: Int32, flat: Int32)

  datatype Axis =
    | Off
    | Hat
    | Analog(minimum: int, maximum: int, center: int, negativePress: int, negativeRelease: int, positiveRelease: int, positivePress: int)

  // ----- configuration -----

  function Max(a: int, b: int): int {
    if a > b then a else b
  }

  function Abs(a: int): int {
    if a < 0 then -a else a
  }

  /** How far from the centre one side presses. */
  function Press(extent: int, flat: int): int {
    var p := Max((extent + 1) / 2, flat + 1);
    if p > extent then extent else p
  }

  /** How near to the centre it must come to let go. */
  function Release(extent: int, flat: int): int {
    var r := Max(extent / 4, flat);
    var p := Press(extent, flat);
    if r >= p then (if p > 0 then p - 1 else 0) else r
  }

  function Center(info: AbsInfo): int {
    var span := info.maximum - info.minimum;
    var flat := Max(info.flat, 0);
    var midpoint := info.minimum + span / 2;
    var wide := Max(flat * 4, span / 20);
    var tolerance := if wide > span / 4 then span / 4 else wide;
    if info.minimum < info.value < info.maximum && Abs(info.value - midpoint) <= tolerance then info.value else midpoint
  }

  /** input_navigation_configure_axis */
  function Configure(info: AbsInfo): Axis {
    if info.maximum <= info.minimum || info.maximum - info.minimum < 2 then Off
    else
      AxisAround(info.minimum, info.maximum, Max(info.flat, 0), Center(info))
  }

  /** configure_thresholds */
  function AxisAround(minimum: int, maximum: int, flat: int, c: int): Axis {
    var low, high := c - minimum, maximum - c;
    Analog(minimum, maximum, c, c - Press(low, flat), c - Release(low, flat), c + Release(high, flat), c + Press(high, flat))
  }

  predicate InOrder(a: Axis) {
    a.Analog? ==>
      a.minimum <= a.negativePress < a.negativeRelease <= a.center <= a.positiveRelease < a.positivePress <= a.maximum
  }

  /** For every range, flat zone and resting value: the thresholds come out in order and
      within the axis, so that every result fits an int. */
  lemma ThresholdsInOrder(info: AbsInfo)
    ensures var a := Configure(info);
            && InOrder(a) && (a.Analog? <==> info.maximum - info.minimum >= 2)
            && (a.Analog? ==> INT_MIN <= a.negativePress && a.positivePress <= INT_MAX)
  {
    if info.maximum - info.minimum >= 2 {
      CenterInside(info);
    }
  }

  lemma CenterInside(info: AbsInfo)
    requires info.maximum - info.minimum >= 2
    ensures info.minimum < Center(info) < info.maximum
  {
  }

  /** The centre is the resting value if that is inside the range and within a twentieth of
      the span of its middle; never if it is more than a quarter away; and the middle then. */
  lemma CenterFollowsRest(info: AbsInfo)
    requires info.maximum - info.minimum >= 2
    ensures var span := info.maximum - info.minimum;
            var middle := info.minimum + span / 2;
            && (info.minimum < info.value < info.maximum && -(span / 20) <= info.value - middle <= span / 20 ==> Center(info) == info.value)
            && (info.value - middle > span / 4 || middle - info.value > span / 4 ==> Center(info) == middle)
            && (Center(info) == info.value || Center(info) == middle)
  {
  }

  /** With a small flat zone a side presses at half its extent, rounded up, and lets go at a
      quarter, rounded down. */
  lemma HalfAndQuarter(extent: int, flat: int)
    requires extent >= 2 && 0 <= flat && 4 * flat <= extent
    ensures Press(extent, flat) * 2 == extent || Press(extent, flat) * 2 == extent + 1
    ensures 0 <= extent - 4 * Release(extent, flat) < 4
  {
  }

  /** A side never presses inside the flat zone, unless that is all there is, and lets go
      no nearer than its edge, unless it presses there. */
  lemma FlatZoneIsQuiet(extent: int, flat: int)
    requires extent >= 1 && flat >= 0
    ensures flat < extent ==> Press(extent, flat) > flat && (flat + 1 < Press(extent, flat) ==> Release(extent, flat) >= flat)
    ensures flat >= extent ==> Press(extent, flat) == extent && Release(extent, flat) == extent - 1
  {
  }

  const INT64_MAX := 0x7FFF_FFFF_FFFF_FFFF

  /** No intermediate of the 64-bit arithmetic overflows. */
  lemma NoOverflow(info: AbsInfo)
    requires info.maximum - info.minimum >= 2
    ensures var span, flat := info.maximum - info.minimum, Max(info.flat, 0);
            && 0 <= span <= INT64_MAX && 0 <= flat * 4 <= INT64_MAX && flat + 1 <= INT64_MAX
            && -INT64_MAX <= info.value - (info.minimum + span / 2) <= INT64_MAX
            && Center(info) - info.minimum + 1 <= INT64_MAX && info.maximum - Center(info) + 1 <= INT64_MAX
  {
    CenterInside(info);
  }

  // ----- one sample -----

  /** analog_direction, and the sign for a hat */
  function NextDirection(a: Axis, direction: int, value: int): int {
    match a
    case Off => direction
    case Hat => if value < 0 then -1 else if value > 0 then 1 else 0
    case Analog(_, _, _, negativePress, negativeRelease, positiveRelease, positivePress) =>
      if direction < 0 then
        if value < negativeRelease then -1 else if value >= positivePress then 1 else 0
      else if direction > 0 then
        if value > positiveRelease then 1 else if value <= negativePress then -1 else 0
      else if value <= negativePress then -1 else if value >= positivePress then 1 else 0
  }

  /** Where the sample keeps the axis on this side. */
  predicate Holds(a: Axis, side: int, value: int) {
    match a
    case Off => true
    case Hat => if side < 0 then value < 0 else value > 0
    case Analog(_, _, _, _, negativeRelease, positiveRelease, _) => if side < 0 then value < negativeRelease else value > positiveRelease
  }

  /** input_navigation_abs_is_neutral */
  predicate IsNeutral(a: Axis, value: int) {
    match a
    case Off => true
    case Hat => value == 0
    case Analog(_, _, _, _, negativeRelease, positiveRelease, _) => negativeRelease <= value <= positiveRelease
  }

  predicate Emits(a: Axis, before: int, after: int) {
    !a.Off? && after != 0 && after != before
  }

  lemma NeutralReleases(a: Axis, direction: int, value: int)
    requires InOrder(a) && (a.Off? ==> direction == 0) && IsNeutral(a, value)
    ensures NextDirection(a, direction, value) == 0
  {
  }

  lemma HeldStays(a: Axis, side: int, value: int)
    requires InOrder(a) && (side == -1 || side == 1) && Holds(a, side, value)
    ensures NextDirection(a, side, value) == side
  {
  }

  // ----- whole runs -----

  const ANALOG_AXES := 4
  const AXES := 6

  /** The four stick axes, configured or not, and the two hats, each with its direction. */
  datatype Pad = Pad(axes: seq<Axis>, directions: seq<int>)

  function AtRest(n: nat): (d: seq<int>)
    ensures |d| == n && forall i :: 0 <= i < n ==> d[i] == 0
  {
    seq(n, _ => 0)
  }

  /** input_navigation_init */
  function Unplugged(): (p: Pad)
    ensures |p.axes| == |p.directions| == AXES
    ensures forall i :: 0 <= i < AXES ==> p.axes[i] == (if i < ANALOG_AXES then Off else Hat) && p.directions[i] == 0
  {
    Pad(seq(AXES, i => if i < ANALOG_AXES then Off else Hat), AtRest(AXES))
  }

  /** A sample, a stick axis configured anew, or input_navigation_reset_state. */
  datatype Event = Sample(axis: nat, value: int) | Reconfigure(axis: nat, info: AbsInfo) | ResetState

  predicate Shaped(p: Pad) {
    |p.axes| == |p.directions| == AXES
  }

  function Next(p: Pad, e: Event): (r: Pad)
    requires Shaped(p)
    ensures Shaped(r)
  {
    match e
    case Sample(a, value) => if a < AXES then p.(directions := p.directions[a := NextDirection(p.axes[a], p.directions[a], value)]) else p
    case Reconfigure(a, info) => if a < ANALOG_AXES then Pad(p.axes[a := Configure(info)], p.directions[a := 0]) else p
    case ResetState => p.(directions := AtRest(AXES))
  }

  /** The pad after the first n events. */
  function After(events: seq<Event>, n: nat): (p: Pad)
    requires n <= |events|
    ensures Shaped(p)
    decreases n
  {
    if n == 0 then Unplugged() else Next(After(events, n - 1), events[n - 1])
  }

  predicate SoundAxis(a: Axis, direction: int) {
    InOrder(a) && -1 <= direction <= 1 && (a.Off? ==> direction == 0)
  }

  /** However it was configured, thresholds are in order, and what is off is at rest. */
  lemma {:induction false} RunsStaySound(events: seq<Event>, n: nat, axis: nat)
    requires n <= |events| && axis < AXES
    ensures SoundAxis(After(events, n).axes[axis], After(events, n).directions[axis])
    decreases n
  {
    if n > 0 {
      RunsStaySound(events, n - 1, axis);
      match events[n - 1] {
        case Reconfigure(a, info) => ThresholdsInOrder(info);
        case _ =>
      }
    }
  }

  /** In every run, a neutral sample brings its axis to rest. */
  lemma NeutralResets(events: seq<Event>, n: nat, axis: nat, value: int)
    requires n <= |events| && axis < AXES && IsNeutral(After(events, n).axes[axis], value)
    ensures Next(After(events, n), Sample(axis, value)).directions[axis] == 0
  {
    RunsStaySound(events, n, axis);
    NeutralReleases(After(events, n).axes[axis], After(events, n).directions[axis], value);
  }

  /** Event n makes the axis emit a step towards this side. */
  predicate EmitsAt(events: seq<Event>, n: nat, axis: nat, side: int)
    requires n < |events| && axis < AXES
  {
    && events[n].Sample? && events[n].axis == axis
    && After(events, n + 1).directions[axis] == side
    && Emits(After(events, n).axes[axis], After(events, n).directions[axis], side)
  }

  /** What lets go of a side: a sample outside the region that holds it, configuring the
      axis anew, or resetting all. */
  predicate LetsGo(events: seq<Event>, k: nat, axis: nat, side: int)
    requires k < |events| && axis < AXES
  {
    match events[k]
    case Sample(a, value) => a == axis && !Holds(After(events, k).axes[axis], side, value)
    case Reconfigure(a, _) => a == axis
    case ResetState => true
  }

  lemma HeldThrough(events: seq<Event>, k: nat, axis: nat, side: int)
    requires k < |events| && axis < AXES && (side == -1 || side == 1)
    requires After(events, k).directions[axis] == side && !LetsGo(events, k, axis, side)
    ensures After(events, k + 1).directions[axis] == side
  {
    RunsStaySound(events, k, axis);
    match events[k] {
      case Sample(a, value) => if a == axis { HeldStays(After(events, k).axes[axis], side, value); }
      case _ =>
    }
  }

  lemma {:induction false} HeldUntilLetGo(events: seq<Event>, i: nat, j: nat, axis: nat, side: int)
    requires i <= j <= |events| && axis < AXES && (side == -1 || side == 1)
    requires After(events, i).directions[axis] == side
    requires forall k :: i <= k < j ==> !LetsGo(events, k, axis, side)
    ensures After(events, j).directions[axis] == side
    decreases j - i
  {
    if i < j {
      assert !LetsGo(events, i, axis, side);
      HeldThrough(events, i, axis, side);
      HeldUntilLetGo(events, i + 1, j, axis, side);
    }
  }

  /** In every run of samples, configurations and resets, two equal steps of one axis are
      separated by something that lets go of that side. */
  lemma EqualStepsAreSeparated(events: seq<Event>, i: nat, j: nat, axis: nat, side: int)
    requires i < j < |events| && axis < AXES
    requires EmitsAt(events, i, axis, side) && EmitsAt(events, j, axis, side)
    ensures exists k :: i < k < j && LetsGo(events, k, axis, side)
  {
    RunsStaySound(events, i + 1, axis);
    if forall k :: i < k < j ==> !LetsGo(events, k, axis, side) {
      HeldUntilLetGo(events, i + 1, j, axis, side);
      assert false;
    }
  }

  // ----- the object -----

  datatype Step = NoStep | Left | Right | Up | Down

  function Mapped(index: int, direction: int): Step {
    if index == 0 || index == 2 then (if direction < 0 then Left else Right)
    else (if direction < 0 then Up else Down)
  }

  /** Either end of what an axis reports. */
  function LowEnd(a: Axis): int { if a.Analog? then a.minimum else -1 }
  function HighEnd(a: Axis): int { if a.Analog? then a.maximum else 1 }

  lemma PushedFully(a: Axis, d: int)
    requires SoundAxis(a, d) && !a.Off?
    ensures NextDirection(a, d, LowEnd(a)) == -1 && NextDirection(a, d, HighEnd(a)) == 1
    ensures (d != -1 ==> Emits(a, d, -1)) && (d != 1 ==> Emits(a, d, 1))
  {
  }

  /** Which way each axis steps. */
  lemma StepsByAxis(axis: nat)
    requires axis < AXES
    ensures Mapped(axis % 4, -1) == if axis % 2 == 0 then Left else Up
    ensures Mapped(axis % 4, 1) == if axis % 2 == 0 then Right else Down
  {
  }

  /** In every run: a stick pushed to the end of its range steps that way, left and right
      for the first and third axis, up and down for the others, unless it is there already;
      and a hat does the same by sign. */
  lemma FullPushSteps(events: seq<Event>, n: nat, axis: nat)
    requires n <= |events| && axis < AXES && !After(events, n).axes[axis].Off?
    ensures var a, d := After(events, n).axes[axis], After(events, n).directions[axis];
            && NextDirection(a, d, LowEnd(a)) == -1 && NextDirection(a, d, HighEnd(a)) == 1
            && (d != -1 ==> Emits(a, d, -1)) && (d != 1 ==> Emits(a, d, 1))
    ensures Mapped(axis % 4, -1) == if axis % 2 == 0 then Left else Up
    ensures Mapped(axis % 4, 1) == if axis % 2 == 0 then Right else Down
    ensures After(events, n).axes[axis].Hat? <==> axis >= 4
  {
    RunsStaySound(events, n, axis);
    HatsStay(events, n, axis);
    PushedFully(After(events, n).axes[axis], After(events, n).directions[axis]);
    StepsByAxis(axis);
  }

  lemma {:induction false} HatsStay(events: seq<Event>, n: nat, axis: nat)
    requires n <= |events| && axis < AXES
    ensures if axis < ANALOG_AXES then !After(events, n).axes[axis].Hat? else After(events, n).axes[axis].Hat?
    decreases n
  {
    if n > 0 {
      HatsStay(events, n - 1, axis);
    }
  }

  class Navigation {
    const analog: array<Axis>
    const directions: array<int>
    const hat: array<int>

    ghost predicate Valid()
      reads this
    {
      analog.Length == directions.Length == ANALOG_AXES && hat.Length == 2 && directions != hat
    }

    ghost function AsPad(): Pad
      requires Valid()
      reads this, analog, directions, hat
    {
      Pad(analog[..] + [Hat, Hat], directions[..] + hat[..])
    }

    constructor ()
      ensures Valid() && fresh(analog) && fresh(directions) && fresh(hat)
      ensures AsPad() == Unplugged()
    {
      analog := new Axis[ANALOG_AXES](_ => Off);
      directions := new int[ANALOG_AXES](_ => 0);
      hat := new int[2](_ => 0);
    }

    /** configure_thresholds, for one side. */
    method Thresholds(extent: int, flat: int) returns (press: int, release: int)
      ensures press == Press(extent, flat) && release == Release(extent, flat)
      ensures extent >= 1 && flat >= 0 ==> 0 <= release < press <= extent
    {
      press, release := Max((extent + 1) / 2, flat + 1), Max(extent / 4, flat);
      if press > extent { press := extent; }
      if release >= press { release := if press > 0 then press - 1 else 0; }
    }

    method AroundCenter(minimum: int, maximum: int, flat: int, center: int) returns (axis: Axis)
      ensures axis == AxisAround(minimum, maximum, flat, center)
    {
      var negativePress, negativeRelease := Thresholds(center - minimum, flat);
      var positivePress, positiveRelease := Thresholds(maximum - center, flat);
      axis := Analog(minimum, maximum, center, center - negativePress, center - negativeRelease,
                     center + positiveRelease, center + positivePress);
    }

    /** input_navigation_configure_axis */
    method ConfigureAxis(index: nat, info: AbsInfo) returns (ok: bool)
      requires Valid() && index < ANALOG_AXES
      modifies analog, directions
      ensures AsPad() == Next(old(AsPad()), Reconfigure(index, info))
      ensures ok <==> Configure(info).Analog?
    {
      analog[index], directions[index] := Off, 0;
      if info.maximum <= info.minimum || info.maximum - info.minimum < 2 { return false; }
      var axis := AroundCenter(info.minimum, info.maximum, if info.flat > 0 then info.flat else 0, Center(info));
      analog[index] := axis;
      ok := true;
    }

    /** input_navigation_reset_state */
    method ResetDirections()
      requires Valid()
      modifies directions, hat
      ensures AsPad() == Next(old(AsPad()), ResetState)
    {
      for i := 0 to ANALOG_AXES
        invariant forall k :: 0 <= k < i ==> directions[k] == 0
      {
        directions[i] := 0;
      }
      for i := 0 to 2
        invariant forall k :: 0 <= k < i ==> hat[k] == 0
        invariant forall k :: 0 <= k < ANALOG_AXES ==> directions[k] == 0
      {
        hat[i] := 0;
      }
    }

    /** input_navigation_handle_abs for a stick axis. */
    method HandleAnalog(index: nat, value: int) returns (step: Step)
      requires Valid() && index < ANALOG_AXES
      modifies directions
      ensures AsPad() == Next(old(AsPad()), Sample(index, value))
      ensures var next := directions[index];
              step == if Emits(analog[index], old(directions[index]), next) then Mapped(index, next) else NoStep
    {
      if analog[index].Off? { return NoStep; }
      var previous := directions[index];
      var direction := NextDirection(analog[index], previous, value);
      directions[index] := direction;
      if direction == 0 || direction == previous { return NoStep; }
      step := Mapped(index, direction);
    }

    /** input_navigation_handle_abs for a hat axis. */
    method HandleHat(index: nat, value: int) returns (step: Step)
      requires Valid() && index < 2
      modifies hat
      ensures AsPad() == Next(old(AsPad()), Sample(ANALOG_AXES + index, value))
      ensures var next := hat[index];
              step == if Emits(Hat, old(hat[index]), next) then Mapped(index, next) else NoStep
    {
      var previous := hat[index];
      var direction := if value < 0 then -1 else if value > 0 then 1 else 0;
      hat[index] := direction;
      if direction == 0 || direction == previous { return NoStep; }
      step := Mapped(index, direction);
    }
  }
}
