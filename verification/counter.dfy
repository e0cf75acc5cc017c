/**
 The bounded counter: a raw count that moves by a fixed increment on every
 counting interrupt, a copy of it folded into the displayable range
 [0, 9999], an optional stop value that halts counting, and the run-time
 controls of the counter.
 */
module Counter {

  import opened Wrappers
  import opened Clocks

  /**
   The count direction. The C code keeps it as a string and only ever tests
   whether it is "UP"; anything else (including the initial empty string)
   counts down.
   */
  datatype Direction = Up | Down

  datatype Counter = Counter(
    start: int,
    current: int,
    normalized: int,
    direction: Direction,
    increment: int,
    rate: int,
    clock: Option<Clock>,
    paused: bool,
    stopEnabled: bool,
    stopValue: int)

  /** The counter globals before any setup. */
  const PowerOn: Counter := Counter(-1, -1, -1, Down, 0, -1, None, false, true, 0)

  /** The amount one unpaused tick adds to the count. */
  function Delta(c: Counter): int {
    if c.direction == Up then c.increment else -c.increment
  }

  /**
   The displayed count is in range and differs from the raw count by a
   whole number of wraps of 10000.
   */
  predicate Coherent(c: Counter) {
    0 <= c.normalized <= 9999 && (c.current - c.normalized) % 10000 == 0
  }

  /** An increment small enough for the single-step wrap to keep the displayed count in range. */
  predicate SmallIncrement(c: Counter) {
    -10000 <= c.increment <= 10000
  }

  /**
   setupSevenSegmentCounter (the part after the clock check): start, raw and
   displayed count all take `start`; "UP" selects counting up and any other
   name counting down; the pause flag is left as it was.
   */
  function Configure(c: Counter, start: int, directionName: string, increment: int,
                     stopValue: int, stopEnabled: bool, rate: int, clock: Clock): (r: Counter)
    ensures r.start == start && r.current == start && r.normalized == start
    ensures r.direction == Up <==> directionName == "UP"
    ensures r.increment == increment && r.rate == rate && r.clock == Some(clock)
    ensures r.stopValue == stopValue && r.stopEnabled == stopEnabled
    ensures r.paused == c.paused
    ensures 0 <= start <= 9999 ==> Coherent(r)
  {
    Counter(start, start, start, if directionName == "UP" then Up else Down,
            increment, rate, Some(clock), c.paused, stopEnabled, stopValue)
  }

  /**
   updateSevenSegmentCounterInterrupt: when running, moves the raw and the
   displayed count by the increment in the counting direction, folds the
   displayed count back by one wrap of 10000 if it left [0, 9999], and pauses
   when the raw count has reached an enabled stop value.
   */
  function Tick(c: Counter): (r: Counter)
    ensures c.paused ==> r == c
    ensures !c.paused && c.direction == Up ==> r.current == c.current + c.increment
    ensures !c.paused && c.direction == Down ==> r.current == c.current - c.increment
    ensures !c.paused ==> (r.paused <==> r.current == c.stopValue && c.stopEnabled)
    ensures !c.paused && 0 <= c.normalized <= 9999 && SmallIncrement(c) ==> 0 <= r.normalized <= 9999
    ensures ((r.current - r.normalized) - (c.current - c.normalized)) % 10000 == 0
    ensures r == c.(current := r.current, normalized := r.normalized, paused := r.paused)
  {
    if c.paused then c
    else
      var current := c.current + Delta(c);
      var moved := c.normalized + Delta(c);
      var normalized := if moved > 9999 then moved - 10000 else if moved < 0 then 10000 + moved else moved;
      c.(current := current, normalized := normalized,
         paused := current == c.stopValue && c.stopEnabled)
  }

  /** `k` consecutive counting interrupts. */
  function TickTimes(c: Counter, k: nat): Counter
    decreases k
  {
    if k == 0 then c else TickTimes(Tick(c), k - 1)
  }

  /**
   Over any number of ticks the displayed count stays in [0, 9999] and in
   step with the raw count modulo 10000, provided the increment is at most
   one wrap; and nothing but the two counts and the pause flag ever changes.
   */
  lemma {:induction false} TicksStayCoherent(c: Counter, k: nat)
    requires Coherent(c) && SmallIncrement(c)
    ensures Coherent(TickTimes(c, k))
    ensures TickTimes(c, k) == c.(current := TickTimes(c, k).current,
                                  normalized := TickTimes(c, k).normalized,
                                  paused := TickTimes(c, k).paused)
    decreases k
  {
    if k > 0 {
      var t := Tick(c);
      assert (t.current - t.normalized) % 10000 == 0 by {
        WrapCongruence(c.current - c.normalized, (t.current - t.normalized) - (c.current - c.normalized));
      }
      TicksStayCoherent(t, k - 1);
    }
  }

  /**
   getSevenSegmentDisplayCount: the count the display shows, which for a
   coherent counter is in range and agrees with the raw count modulo 10000.
   */
  function DisplayCount(c: Counter): (r: int)
    ensures Coherent(c) ==> 0 <= r <= 9999 && (c.current - r) % 10000 == 0
  {
    c.normalized
  }

  /** getSevenSegmentTotalCount: the raw count, which moves by the increment on every running tick. */
  function TotalCount(c: Counter): (r: int)
    ensures !c.paused ==> Tick(c).current == r + Delta(c)
  {
    c.current
  }

  /** Adding a multiple of 10000 to a multiple of 10000 gives one. */
  lemma WrapCongruence(a: int, b: int)
    requires a % 10000 == 0 && b % 10000 == 0
    ensures (a + b) % 10000 == 0
  {
    var p := a / 10000;
    var q := b / 10000;
    assert a + b == 10000 * (p + q);
  }

  /** A paused counter is frozen: no number of ticks changes anything. */
  lemma {:induction false} PausedIsFrozen(c: Counter, k: nat)
    requires c.paused
    ensures TickTimes(c, k) == c
    decreases k
  {
    if k > 0 {
      PausedIsFrozen(Tick(c), k - 1);
    }
  }

  /**
   Reaching an enabled stop value halts the counter: the tick that lands on
   it pauses, and every later tick leaves the counts where they are.
   */
  lemma StopHalts(c: Counter, k: nat)
    requires !c.paused && c.stopEnabled && c.current + Delta(c) == c.stopValue
    ensures Tick(c).paused && Tick(c).current == c.stopValue
    ensures TickTimes(Tick(c), k) == Tick(c)
  {
    PausedIsFrozen(Tick(c), k);
  }

  /** toggleSevenSegmentCounterPause: flips the pause flag only. */
  function TogglePause(c: Counter): (r: Counter)
    ensures r.paused != c.paused
    ensures r.(paused := c.paused) == c
  {
    c.(paused := !c.paused)
  }

  /** pauseSevenSegmentCounter. */
  function Pause(c: Counter): (r: Counter)
    ensures r.paused && r.(paused := c.paused) == c
  {
    c.(paused := true)
  }

  /** runSevenSegmentCounter. */
  function Run(c: Counter): (r: Counter)
    ensures !r.paused && r.(paused := c.paused) == c
  {
    c.(paused := false)
  }

  /**
   The pause controls: pausing freezes the counter under ticks, running
   undoes a pause, and toggling twice changes nothing.
   */
  lemma PauseControls(c: Counter, k: nat)
    ensures TickTimes(Pause(c), k) == Pause(c)
    ensures !c.paused ==> Run(Pause(c)) == c
    ensures c.paused ==> Pause(Run(c)) == c
    ensures TogglePause(TogglePause(c)) == c
    ensures TogglePause(c) == (if c.paused then Run(c) else Pause(c))
  {
    PausedIsFrozen(Pause(c), k);
  }

  /** resetSevenSegmentCount: back to the start value, running. */
  function Reset(c: Counter): (r: Counter)
    ensures r.current == c.start && r.normalized == c.start && !r.paused
    ensures r.start == c.start && r.direction == c.direction && r.increment == c.increment
    ensures r.stopValue == c.stopValue && r.stopEnabled == c.stopEnabled
    ensures r.(current := c.current, normalized := c.normalized, paused := c.paused) == c
  {
    c.(current := c.start, normalized := c.start, paused := false)
  }

  /** Reset forgets every tick since the setup: the history makes no difference. */
  lemma {:induction false} ResetForgetsTicks(c: Counter, k: nat)
    ensures Reset(TickTimes(c, k)) == Reset(c)
    decreases k
  {
    if k > 0 {
      ResetForgetsTicks(Tick(c), k - 1);
      assert Reset(Tick(c)) == Reset(c);
    }
  }

  /** setSevenSegmentCount: start, raw and displayed count all become `v`, running. */
  function SetCount(c: Counter, v: int): (r: Counter)
    ensures r.start == v && r.current == v && r.normalized == v && !r.paused
    ensures r.direction == c.direction && r.increment == c.increment
    ensures r.stopValue == c.stopValue && r.stopEnabled == c.stopEnabled
    ensures r.(start := c.start, current := c.current, normalized := c.normalized, paused := c.paused) == c
  {
    c.(start := v, current := v, normalized := v, paused := false)
  }

  /**
   Setting the count re-arms the counter from the new value: a later reset
   returns to it, and a value in range leaves the counter coherent.
   */
  lemma SetCountRearms(c: Counter, v: int, k: nat)
    ensures Reset(TickTimes(SetCount(c, v), k)) == SetCount(c, v)
    ensures 0 <= v <= 9999 ==> Coherent(SetCount(c, v))
  {
    ResetForgetsTicks(SetCount(c, v), k);
  }

  /** updateSevenSegmentIncrementer. */
  function SetIncrement(c: Counter, v: int): (r: Counter)
    ensures !r.paused ==> Tick(r).current == c.current + (if c.direction == Up then v else -v)
    ensures r.(increment := c.increment) == c
  {
    c.(increment := v)
  }

  /**
   changeSevenSegmentCountDirection: "UP" and "DOWN" are accepted, any other
   name leaves the counter unchanged.
   */
  function ChangeDirection(c: Counter, name: string): (r: Counter)
    ensures name == "UP" ==> r == c.(direction := Up)
    ensures name == "DOWN" ==> r == c.(direction := Down)
    ensures name != "UP" && name != "DOWN" ==> r == c
  {
    if name == "UP" then c.(direction := Up)
    else if name == "DOWN" then c.(direction := Down)
    else c
  }

  /** After a direction change the next tick moves the count that way. */
  lemma DirectionSteersTick(c: Counter)
    requires !c.paused
    ensures Tick(ChangeDirection(c, "UP")).current == c.current + c.increment
    ensures Tick(ChangeDirection(c, "DOWN")).current == c.current - c.increment
    ensures Tick(ChangeDirection(c, "up")) == Tick(c)
  {
  }

  /**
   setCountStopValue: enables stopping at `v`, and pauses exactly when the
   raw count already equals `v` (otherwise it resumes counting).
   */
  function SetStop(c: Counter, v: int): (r: Counter)
    ensures r.stopEnabled && r.stopValue == v
    ensures r.paused <==> c.current == v
    ensures r.current == c.current && r.normalized == c.normalized && r.start == c.start
    ensures r.(stopEnabled := c.stopEnabled, stopValue := c.stopValue, paused := c.paused) == c
  {
    c.(stopEnabled := true, stopValue := v, paused := c.current == v)
  }

  /**
   A stop value set at the current count holds the counter there for good;
   one set elsewhere lets the next tick run.
   */
  lemma SetStopHolds(c: Counter, v: int, k: nat)
    ensures c.current == v ==> TickTimes(SetStop(c, v), k) == SetStop(c, v)
    ensures c.current != v ==> Tick(SetStop(c, v)).current == c.current + Delta(c)
  {
    if c.current == v {
      PausedIsFrozen(SetStop(c, v), k);
    }
  }

  /** clearCountStopValue: disables stopping, zeroes the stop value and resumes. */
  function ClearStop(c: Counter): (r: Counter)
    ensures !r.stopEnabled && r.stopValue == 0 && !r.paused
    ensures r.current == c.current && r.normalized == c.normalized && r.start == c.start
    ensures r.(stopEnabled := c.stopEnabled, stopValue := c.stopValue, paused := c.paused) == c
  {
    c.(stopEnabled := false, stopValue := 0, paused := false)
  }

  /** Once the stop value is cleared no number of ticks ever pauses the counter. */
  lemma {:induction false} ClearedNeverHalts(c: Counter, k: nat)
    requires !c.stopEnabled && !c.paused
    ensures !TickTimes(c, k).paused && !TickTimes(c, k).stopEnabled
    ensures TickTimes(c, k).current == c.current + k * Delta(c)
    decreases k
  {
    if k > 0 {
      var t := Tick(c);
      assert t.current == c.current + Delta(c) && Delta(t) == Delta(c);
      ClearedNeverHalts(t, k - 1);
      assert TickTimes(c, k) == TickTimes(t, k - 1);
      assert (k - 1) * Delta(c) + Delta(c) == k * Delta(c);
    }
  }

  /** Clearing the stop value lets the counter run freely from then on. */
  lemma ClearStopFrees(c: Counter, k: nat)
    ensures !TickTimes(ClearStop(c), k).paused
  {
    ClearedNeverHalts(ClearStop(c), k);
  }
}
