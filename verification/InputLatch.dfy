// input_latch.c: input is ignored until every control has been at rest for a while.  The
// controls held are bits of two 64-bit words.

module InputLatch {
  import opened Clock32

  const CAPACITY := 128

  // ----- words as bits -----

  function Pow2(k: nat): nat {
    if k == 0 then 1 else 2 * Pow2(k - 1)
  }

  predicate Bit(v: nat, k: nat) {
    if k == 0 then v % 2 == 1 else Bit(v / 2, k - 1)
  }

  /** `a & b` */
  function And(a: nat, b: nat): nat {
    if a == 0 || b == 0 then 0 else 2 * And(a / 2, b / 2) + (if a % 2 == 1 && b % 2 == 1 then 1 else 0)
  }

  /** `a | b` */
  function Or(a: nat, b: nat): nat {
    if a == 0 then b else if b == 0 then a
    else 2 * Or(a / 2, b / 2) + (if a % 2 == 1 || b % 2 == 1 then 1 else 0)
  }

  /** `a & ~b` */
  function AndNot(a: nat, b: nat): nat {
    if a == 0 then 0 else if b == 0 then a
    else 2 * AndNot(a / 2, b / 2) + (if a % 2 == 1 && b % 2 == 0 then 1 else 0)
  }

  lemma {:induction false} ZeroBit(k: nat)
    ensures !Bit(0, k)
  {
    if k > 0 {
      ZeroBit(k - 1);
    }
  }

  lemma {:induction false} AndBit(a: nat, b: nat, k: nat)
    ensures Bit(And(a, b), k) <==> Bit(a, k) && Bit(b, k)
    decreases k
  {
    if a == 0 || b == 0 {
      ZeroBit(k);
    } else if k > 0 {
      AndBit(a / 2, b / 2, k - 1);
    }
  }

  lemma {:induction false} OrBit(a: nat, b: nat, k: nat)
    ensures Bit(Or(a, b), k) <==> Bit(a, k) || Bit(b, k)
    decreases k
  {
    if a == 0 || b == 0 {
      ZeroBit(k);
    } else if k > 0 {
      OrBit(a / 2, b / 2, k - 1);
    }
  }

  lemma {:induction false} AndNotBit(a: nat, b: nat, k: nat)
    ensures Bit(AndNot(a, b), k) <==> Bit(a, k) && !Bit(b, k)
    decreases k
  {
    if a == 0 || b == 0 {
      ZeroBit(k);
    } else if k > 0 {
      AndNotBit(a / 2, b / 2, k - 1);
    }
  }

  lemma {:induction false} MaskBit(m: nat, k: nat)
    ensures Bit(Pow2(m), k) <==> m == k
    decreases k
  {
    if m == 0 {
      if k > 0 { ZeroBit(k - 1); }
    } else if k > 0 {
      MaskBit(m - 1, k - 1);
    }
  }

  /** A word with no bit among the first n is zero, if it has no others. */
  lemma {:induction false} NoBits(v: nat, n: nat)
    requires v < Pow2(n) && forall k: nat :: k < n ==> !Bit(v, k)
    ensures v == 0
    decreases n
  {
    if n > 0 {
      assert !Bit(v, 0);
      forall k: nat | k < n - 1 ensures !Bit(v / 2, k) {
        assert !Bit(v, k + 1);
      }
      NoBits(v / 2, n - 1);
    }
  }

  // ----- counting -----

  /** How many of the first n bits are set. */
  function Count(v: nat, n: nat): nat {
    if n == 0 then 0 else Count(v, n - 1) + (if Bit(v, n - 1) then 1 else 0)
  }

  lemma {:induction false} CountShift(v: nat, n: nat)
    requires n > 0
    ensures Count(v, n) == Count(v / 2, n - 1) + v % 2
    decreases n
  {
    if n > 1 {
      CountShift(v, n - 1);
    } else {
      assert Count(v, 0) == 0 && Count(v / 2, 0) == 0;
    }
  }

  lemma {:induction false} AndSelf(v: nat)
    ensures And(v, v) == v
  {
    if v > 0 {
      AndSelf(v / 2);
    }
  }

  /** `value &= value - 1` takes exactly one bit away and adds none. */
  lemma {:induction false} ClearsLowest(v: nat, n: nat)
    requires 0 < v < Pow2(n)
    ensures And(v, v - 1) < v && Count(And(v, v - 1), n) == Count(v, n) - 1
    ensures forall k: nat :: Bit(And(v, v - 1), k) ==> Bit(v, k)
    decreases n
  {
    forall k: nat {
      AndBit(v, v - 1, k);
    }
    CountShift(v, n);
    CountShift(And(v, v - 1), n);
    if v % 2 == 1 {
      assert (v - 1) / 2 == v / 2;
      AndSelf(v / 2);
      if v == 1 {
        assert And(1, 0) == 0;
      } else {
        assert And(v, v - 1) == 2 * (v / 2);
      }
    } else {
      ClearsLowest(v / 2, n - 1);
      assert (v - 1) / 2 == v / 2 - 1;
      assert v - 1 > 0 && And(v, v - 1) == 2 * And(v / 2, v / 2 - 1);
    }
  }

  lemma {:induction false} CountZero(n: nat)
    ensures Count(0, n) == 0
  {
    if n > 0 {
      CountZero(n - 1);
      ZeroBit(n - 1);
    }
  }

  /** The counting loop of input_latch_active_count for one word. */
  method CountWord(word: nat) returns (count: nat)
    requires word < Pow2(64)
    ensures count == Count(word, 64)
  {
    var value: nat := word;
    count := 0;
    while value != 0
      invariant value < Pow2(64) && count + Count(value, 64) == Count(word, 64)
      decreases value
    {
      ClearsLowest(value, 64);
      value := And(value, value - 1);
      count := count + 1;
    }
    CountZero(64);
  }

  // ----- the two words as a set of controls -----

  predicate Active(words: (nat, nat), c: nat) {
    if c < 64 then Bit(words.0, c) else c < CAPACITY && Bit(words.1, c - 64)
  }

  function ActiveBelow(words: (nat, nat), n: nat): (s: set<nat>)
    ensures forall c: nat :: c in s <==> c < n && Active(words, c)
  {
    set c: nat | c < n && Active(words, c)
  }

  function ActiveSet(words: (nat, nat)): set<nat> {
    ActiveBelow(words, CAPACITY)
  }

  lemma {:induction false} Cardinality(words: (nat, nat), n: nat)
    requires n <= CAPACITY
    ensures |ActiveBelow(words, n)| == if n <= 64 then Count(words.0, n) else Count(words.0, 64) + Count(words.1, n - 64)
    decreases n
  {
    if n > 0 {
      Cardinality(words, n - 1);
      var before, now := ActiveBelow(words, n - 1), ActiveBelow(words, n);
      assert now == if Active(words, n - 1) then before + {n - 1} else before;
    } else {
      assert ActiveBelow(words, 0) == {};
    }
  }

  /** input_latch_active_count is the number of controls held. */
  method ActiveCount(words: (nat, nat)) returns (count: nat)
    requires words.0 < Pow2(64) && words.1 < Pow2(64)
    ensures count == |ActiveSet(words)|
  {
    var low := CountWord(words.0);
    var high := CountWord(words.1);
    Cardinality(words, CAPACITY);
    count := low + high;
  }

  /** input_latch_any_active */
  lemma AnyActive(words: (nat, nat))
    requires words.0 < Pow2(64) && words.1 < Pow2(64)
    ensures words.0 == 0 && words.1 == 0 <==> ActiveSet(words) == {}
  {
    if ActiveSet(words) == {} {
      forall k: nat | k < 64 ensures !Bit(words.0, k) {
        assert k !in ActiveSet(words);
      }
      forall k: nat | k < 64 ensures !Bit(words.1, k) {
        assert k + 64 !in ActiveSet(words);
      }
      NoBits(words.0, 64);
      NoBits(words.1, 64);
    } else {
      var c: nat :| c in ActiveSet(words);
      ZeroBit(c);
      if c >= 64 { ZeroBit(c - 64); }
    }
  }

  // ----- the latch, on the set -----

  datatype Latch = Latch(active: set<nat>, since: nat, interval: nat, valid: bool, waiting: bool)

  function Init(now: int, interval: nat): Latch {
    Latch({}, Wrap(now), interval, true, true)
  }

  /** input_latch_set */
  function Set(l: Latch, control: nat, on: bool, now: int): Latch {
    if control >= CAPACITY || on == (control in l.active) then l
    else if on then l.(active := l.active + {control}, valid := false)
    else
      var rest := l.active - {control};
      if rest == {} then l.(active := rest, since := Wrap(now), valid := true) else l.(active := rest)
  }

  /** input_latch_update */
  function Update(l: Latch, now: int): Latch {
    if !l.waiting || l.active != {} then l
    else if !l.valid then l.(since := Wrap(now), valid := true)
    else if Wrap(Wrap(now) - l.since) < l.interval then l
    else l.(waiting := false)
  }

  /** What happens, at which true time. */
  datatype Event = Control(control: nat, on: bool, at: int) | Poll(at: int)

  function Next(l: Latch, e: Event): Latch {
    match e
    case Control(control, on, at) => Set(l, control, on, at)
    case Poll(at) => Update(l, at)
  }

  /** The latch after the first n events. */
  function After(start: Latch, events: seq<Event>, n: nat): Latch
    requires n <= |events|
  {
    if n == 0 then start else Next(After(start, events, n - 1), events[n - 1])
  }

  /** The time of state n: of the start or of the event before it. */
  function TimeOf(began: int, events: seq<Event>, n: nat): int
    requires n <= |events|
  {
    if n == 0 then began else events[n - 1].at
  }

  predicate TimesRise(began: int, events: seq<Event>) {
    forall i, j :: 0 <= i <= j <= |events| ==> TimeOf(began, events, i) <= TimeOf(began, events, j)
  }

  /** The flag says exactly that nothing is held. */
  lemma {:induction false} ValidMeansNeutral(start: Latch, events: seq<Event>, n: nat)
    requires n <= |events| && (start.valid <==> start.active == {})
    ensures After(start, events, n).valid <==> After(start, events, n).active == {}
    decreases n
  {
    if n > 0 {
      ValidMeansNeutral(start, events, n - 1);
      var l, e := After(start, events, n - 1), events[n - 1];
      if e.Control? && e.on && e.control < CAPACITY {
        assert e.control in l.active + {e.control};
      }
    }
  }

  lemma {:induction false} IntervalStays(start: Latch, events: seq<Event>, n: nat)
    requires n <= |events|
    ensures After(start, events, n).interval == start.interval
    decreases n
  {
    if n > 0 {
      IntervalStays(start, events, n - 1);
    }
  }

  /** At rest from state i to state j. */
  ghost predicate AtRest(start: Latch, events: seq<Event>, i: nat, j: nat)
    requires i <= j <= |events|
  {
    forall k :: i <= k <= j ==> After(start, events, k).active == {}
  }

  /** While nothing is held, `since` is when that began. */
  lemma {:induction false} SinceRestBegan(start: Latch, began: int, events: seq<Event>, n: nat) returns (j: nat)
    requires n <= |events| && start.active == {} && start.valid && start.since == Wrap(began)
    requires After(start, events, n).active == {}
    ensures j <= n && After(start, events, n).since == Wrap(TimeOf(began, events, j)) && AtRest(start, events, j, n)
    ensures j == 0 || After(start, events, j - 1).active != {}
    decreases n
  {
    if n == 0 {
      j := 0;
    } else {
      ValidMeansNeutral(start, events, n - 1);
      var l := After(start, events, n - 1);
      if l.active == {} {
        j := SinceRestBegan(start, began, events, n - 1);
      } else {
        j := n;
      }
    }
  }

  /** Whatever is pressed and released and whenever it is polled, across any number of
      clock wraps: the latch opens only after everything stayed at rest for the interval. */
  lemma OpensOnlyAfterRest(began: int, interval: nat, events: seq<Event>, m: nat) returns (j: nat)
    requires TimesRise(began, events) && m < |events|
    requires After(Init(began, interval), events, m).waiting && !After(Init(began, interval), events, m + 1).waiting
    ensures j <= m && AtRest(Init(began, interval), events, j, m + 1)
    ensures events[m].at - TimeOf(began, events, j) >= interval
  {
    var start := Init(began, interval);
    j := SinceRestBegan(start, began, events, m);
    IntervalStays(start, events, m);
    WrapDifference(events[m].at, TimeOf(began, events, j));
    assert TimeOf(began, events, j) <= TimeOf(began, events, m + 1) == events[m].at;
  }

  /** And it does open: while the latch waits with nothing held, a poll opens it if and only
      if the rest, which began at state j, has lasted for the interval, on the 32-bit clock;
      so within 2^32 ms of its beginning, exactly from the end of the interval on. */
  lemma PollOpensExactly(began: int, interval: nat, events: seq<Event>, m: nat) returns (j: nat)
    requires TimesRise(began, events) && m < |events| && events[m].Poll?
    requires After(Init(began, interval), events, m).waiting && After(Init(began, interval), events, m).active == {}
    ensures j <= m && AtRest(Init(began, interval), events, j, m)
    ensures j == 0 || After(Init(began, interval), events, j - 1).active != {}
    ensures var rested := events[m].at - TimeOf(began, events, j);
            && rested >= 0
            && (!After(Init(began, interval), events, m + 1).waiting <==> rested % 0x1_0000_0000 >= interval)
            && (rested < 0x1_0000_0000 ==> (!After(Init(began, interval), events, m + 1).waiting <==> rested >= interval))
  {
    var start := Init(began, interval);
    j := SinceRestBegan(start, began, events, m);
    IntervalStays(start, events, m);
    ValidMeansNeutral(start, events, m);
    WrapDifference(events[m].at, TimeOf(began, events, j));
    assert TimeOf(began, events, j) <= TimeOf(began, events, m + 1) == events[m].at;
  }

  /** Open, it stays open. */
  lemma {:induction false} StaysOpen(start: Latch, events: seq<Event>, i: nat, j: nat)
    requires i <= j <= |events| && !After(start, events, i).waiting
    ensures !After(start, events, j).waiting
    decreases j
  {
    if i < j {
      StaysOpen(start, events, i, j - 1);
    }
  }

  /** What was last said about a control before state n; released at first. */
  function LastSaid(events: seq<Event>, n: nat, control: nat): bool
    requires n <= |events|
  {
    if n == 0 then false
    else if events[n - 1].Control? && events[n - 1].control == control then events[n - 1].on
    else LastSaid(events, n - 1, control)
  }

  /** In every run the controls held are those of the 128 that were last pressed. */
  lemma {:induction false} HeldExactly(began: int, interval: nat, events: seq<Event>, n: nat, control: nat)
    requires n <= |events|
    ensures control in After(Init(began, interval), events, n).active <==> control < 128 && LastSaid(events, n, control)
    decreases n
  {
    if n > 0 {
      HeldExactly(began, interval, events, n - 1, control);
    }
  }

  // ----- the object -----

  lemma {:induction false} OrBound(a: nat, b: nat, n: nat)
    requires a < Pow2(n) && b < Pow2(n)
    ensures Or(a, b) < Pow2(n)
    decreases n
  {
    if a != 0 && b != 0 {
      OrBound(a / 2, b / 2, n - 1);
    }
  }

  lemma {:induction false} AndNotBound(a: nat, b: nat)
    ensures AndNot(a, b) <= a
  {
    if a != 0 && b != 0 {
      AndNotBound(a / 2, b / 2);
    }
  }

  lemma {:induction false} Pow2Increases(k: nat, n: nat)
    requires k < n
    ensures Pow2(k) < Pow2(n)
    decreases n
  {
    if k > 0 {
      Pow2Increases(k - 1, n - 1);
    } else if n > 1 {
      Pow2Increases(0, n - 1);
    }
  }

  /** Raising or lowering one bit of a word changes that bit only. */
  lemma MaskedWord(v: nat, k: nat, i: nat)
    ensures Bit(Or(v, Pow2(k)), i) <==> Bit(v, i) || i == k
    ensures Bit(AndNot(v, Pow2(k)), i) <==> Bit(v, i) && i != k
  {
    OrBit(v, Pow2(k), i);
    AndNotBit(v, Pow2(k), i);
    MaskBit(k, i);
  }

  /** `active[word] & mask` is non-zero exactly when the bit is set. */
  lemma {:induction false} TestBit(v: nat, k: nat)
    ensures And(v, Pow2(k)) != 0 <==> Bit(v, k)
    decreases k
  {
    if v == 0 {
      ZeroBit(k);
    } else if k > 0 {
      TestBit(v / 2, k - 1);
      assert Pow2(k) / 2 == Pow2(k - 1) && Pow2(k) % 2 == 0;
    } else {
      assert And(v, 1) == 2 * And(v / 2, 0) + v % 2;
    }
  }

  class LatchObject {
    var low: nat
    var high: nat
    var since: nat
    var interval: nat
    var neutral: bool
    var waiting: bool

    ghost predicate Valid()
      reads this
    {
      low < Pow2(64) && high < Pow2(64)
    }

    ghost function Abs(): Latch
      reads this
    {
      Latch(ActiveSet((low, high)), since, interval, neutral, waiting)
    }

    /** input_latch_init */
    constructor (now: int, interval: nat)
      ensures Valid() && Abs() == Init(now, interval)
    {
      low, high, since, this.interval, neutral, waiting := 0, 0, Wrap(now), interval, true, true;
      new;
      Pow2Increases(0, 64);
      AnyActive((0, 0));
    }

    method AnyHeld() returns (held: bool)
      requires Valid()
      ensures held <==> ActiveSet((low, high)) != {}
    {
      AnyActive((low, high));
      held := low != 0 || high != 0;
    }

    /** input_latch_set */
    method SetControl(control: nat, on: bool, now: int)
      requires Valid()
      modifies this
      ensures Valid() && Abs() == Set(old(Abs()), control, on, now)
    {
      if control >= CAPACITY { return; }
      var word := if control < 64 then low else high;
      var bit := if control < 64 then control else control - 64;
      TestBit(word, bit);
      if on == (And(word, Pow2(bit)) != 0) { return; }
      FlipBit((low, high), control, on);
      var flipped := if on then Or(word, Pow2(bit)) else AndNot(word, Pow2(bit));
      if control < 64 { low := flipped; } else { high := flipped; }
      if on {
        neutral := false;
      } else {
        var held := AnyHeld();
        if !held { since, neutral := Wrap(now), true; }
      }
    }

    /** input_latch_update */
    method UpdateLatch(now: int) returns (open: bool)
      requires Valid()
      modifies this
      ensures Valid() && Abs() == Update(old(Abs()), now)
      ensures open <==> !waiting
    {
      if !waiting { return true; }
      var held := AnyHeld();
      if held { return false; }
      if !neutral {
        since, neutral := Wrap(now), true;
        return false;
      }
      if Wrap(Wrap(now) - since) < interval { return false; }
      waiting := false;
      open := true;
    }
  }

  /** The words after raising or lowering the bit of one control. */
  function Flipped(words: (nat, nat), control: nat, on: bool): (nat, nat)
    requires control < CAPACITY
  {
    var word := if control < 64 then words.0 else words.1;
    var bit := if control < 64 then control else control - 64;
    var flipped := if on then Or(word, Pow2(bit)) else AndNot(word, Pow2(bit));
    if control < 64 then (flipped, words.1) else (words.0, flipped)
  }

  /** The set gains or loses exactly that control. */
  lemma FlipBit(words: (nat, nat), control: nat, on: bool)
    requires words.0 < Pow2(64) && words.1 < Pow2(64) && control < CAPACITY
    ensures var w := Flipped(words, control, on);
            && w.0 < Pow2(64) && w.1 < Pow2(64)
            && ActiveSet(w) == if on then ActiveSet(words) + {control} else ActiveSet(words) - {control}
  {
    var w := Flipped(words, control, on);
    var word := if control < 64 then words.0 else words.1;
    var bit := if control < 64 then control else control - 64;
    Pow2Increases(bit, 64);
    OrBound(word, Pow2(bit), 64);
    AndNotBound(word, Pow2(bit));
    forall c: nat | c < CAPACITY ensures Active(w, c) <==> (if on then Active(words, c) || c == control else Active(words, c) && c != control) {
      MaskedWord(word, bit, if c < 64 then c else c - 64);
    }
  }
}
