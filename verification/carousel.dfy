/**
 The carousel: a text scrolled one character per transition interrupt through
 the 4-digit window. The window is read from a working buffer at a moving
 index, wrapping back to the start of the buffer past the logical length.
 The continuous/one-shot flag is shared with the slider, so it is passed in.
 */
module Carousel {

  /**
   `length` is the logical length L of the working buffer: a continuous
   carousel cycles through buffer[0..L], a one-shot carousel stops once the
   window starts at L - 4. `index` is -1 before the first step of a pass;
   `overflow` marks a finished one-shot pass.
   */
  datatype Carousel = Carousel(
    buffer: seq<char>,
    length: int,
    index: int,
    overflow: bool,
    paused: bool)

  /** What one transition interrupt produces: the new state and the window it shows. */
  datatype Step = Step(next: Carousel, window: seq<char>)

  /** The carousel globals before any setup. */
  const PowerOn: Carousel := Carousel([], -1, -1, false, false)

  /** The working buffer setup builds from the text. */
  function Buffer(text: seq<char>, continuous: bool, pad: bool): seq<char> {
    if pad && continuous then "    " + text
    else if pad then "    " + text + "    "
    else if continuous then text + " "
    else text
  }

  /** The logical length setup computes: n + 3 when padded, n + 8 for a padded one-shot, else n. */
  function Length(n: int, continuous: bool, pad: bool): int {
    var padded := if pad then n + 3 else n;
    if pad && !continuous then padded + 5 else padded
  }

  /** Setup can prime the window from the first four buffer characters. */
  predicate CanStart(text: seq<char>, continuous: bool, pad: bool) {
    4 <= |Buffer(text, continuous, pad)|
  }

  /**
   The invariant of a carousel in the given mode. Continuous: the index is in
   [-1, L) and the buffer holds buffer[0..L]. One-shot: the index is in
   [-1, L - 4], and below L - 4 unless the pass is over.
   */
  predicate Valid(c: Carousel, continuous: bool) {
    if continuous then
      -1 <= c.index < c.length && 3 <= c.length && c.length + 1 <= |c.buffer|
    else
      -1 <= c.index <= c.length - 4 && 4 <= c.length && c.length <= |c.buffer|
      && (!c.overflow ==> c.index < c.length - 4)
  }

  /**
   The interrupt would read before the buffer if it neither advanced nor
   had a first step behind it.
   */
  predicate Movable(c: Carousel) {
    c.index == -1 ==> !c.paused && !c.overflow
  }

  predicate Ready(c: Carousel, continuous: bool) {
    Valid(c, continuous) && Movable(c)
  }

  /**
   sevenSegmentDisplayTextCarousel (the part after the clock check): a fresh
   working buffer (4 leading blanks when padded, 4 trailing blanks too for a
   padded one-shot, one trailing blank as loop separator for an unpadded
   continuous carousel), its logical length, index -1, running. The one-shot
   end flag is left as it was.
   */
  function Configure(c: Carousel, text: seq<char>, continuous: bool, pad: bool): (r: Carousel)
    ensures pad && continuous ==> r.buffer == "    " + text && r.length == |text| + 3
    ensures pad && !continuous ==> r.buffer == "    " + text + "    " && r.length == |text| + 8
    ensures !pad && continuous ==> r.buffer == text + " " && r.length == |text|
    ensures !pad && !continuous ==> r.buffer == text && r.length == |text|
    ensures r.index == -1 && !r.paused && r.overflow == c.overflow
    ensures CanStart(text, continuous, pad) ==> Valid(r, continuous)
    ensures CanStart(text, continuous, pad) ==> (Ready(r, continuous) <==> !c.overflow)
  {
    Carousel(Buffer(text, continuous, pad), Length(|text|, continuous, pad), -1, c.overflow, false)
  }

  /**
   Setting the carousel up again after a finished one-shot pass keeps the end
   flag: the interrupt then never advances and reads its window at index -1,
   one place before the buffer, on every call.
   */
  lemma ReconfiguredPassStalls(c: Carousel, text: seq<char>, continuous: bool, pad: bool)
    requires c.overflow
    ensures Shown(Configure(c, text, continuous, pad)) == -1
    ensures !Ready(Configure(c, text, continuous, pad), continuous)
  {
  }

  /**
   The setup as evidently intended: the same buffer and length as Configure,
   with the end flag of any earlier pass cleared. The new carousel is then
   exactly what restart makes of it, and it can always run.
   */
  function ConfigureFresh(c: Carousel, text: seq<char>, continuous: bool, pad: bool): (r: Carousel)
    ensures r.buffer == Buffer(text, continuous, pad) && r.length == Length(|text|, continuous, pad)
    ensures Restart(r) == r
    ensures CanStart(text, continuous, pad) ==> Ready(r, continuous)
  {
    Configure(c, text, continuous, pad).(overflow := false)
  }

  /** Where the k-th window character is read: past L the reads restart at the buffer's head. */
  function CyclicPos(index: int, k: int, length: int): int {
    if index + k > length then index + k - (length + 1) else index + k
  }

  /**
   The window loop of the interrupt from position i on; `wrap` counts the
   positions already read from the head of the buffer.
   */
  function WindowFrom(buffer: seq<char>, length: int, index: int, i: nat, wrap: int): (w: seq<char>)
    requires 0 <= index <= length + 1 && i <= 4
    requires wrap == (if i + index > length then i + index - (length + 1) else 0)
    requires forall k :: i <= k < 4 ==> 0 <= CyclicPos(index, k, length) < |buffer|
    ensures |w| == 4 - i
    ensures forall k :: i <= k < 4 ==> w[k - i] == buffer[CyclicPos(index, k, length)]
    decreases 4 - i
  {
    if i == 4 then []
    else
      assert 0 <= CyclicPos(index, i, length) < |buffer|;
      if i + index > length then
        [buffer[wrap]] + WindowFrom(buffer, length, index, i + 1, wrap + 1)
      else
        [buffer[i + index]] + WindowFrom(buffer, length, index, i + 1, wrap)
  }

  /** The four characters the interrupt shows when the window starts at `index`. */
  function Window(buffer: seq<char>, length: int, index: int): (w: seq<char>)
    requires 0 <= index <= length + 1
    requires forall k :: 0 <= k < 4 ==> 0 <= CyclicPos(index, k, length) < |buffer|
    ensures |w| == 4
    ensures forall k :: 0 <= k < 4 ==> w[k] == buffer[CyclicPos(index, k, length)]
  {
    WindowFrom(buffer, length, index, 0, 0)
  }

  /** Below 2(L + 1) the cyclic read position is the position modulo L + 1. */
  lemma CyclicPosIsModulo(index: int, k: int, length: int)
    requires 0 <= index && 0 <= k && 0 <= length && index + k < 2 * (length + 1)
    ensures CyclicPos(index, k, length) == (index + k) % (length + 1)
  {
    var m := length + 1;
    if index + k >= m {
      ModuloOnce(index + k, m);
    }
  }

  /** One subtraction of the modulus reduces a value below twice the modulus. */
  lemma ModuloOnce(x: int, m: int)
    requires 0 < m <= x < 2 * m
    ensures x % m == x - m
  {
    var r := x - m;
    assert x == 1 * m + r && 0 <= r < m;
  }

  /** Whether the interrupt advances the index. */
  predicate Moves(c: Carousel) {
    !c.overflow && !c.paused
  }

  /** The index the interrupt reads the window at. */
  function Shown(c: Carousel): int {
    if Moves(c) then c.index + 1 else c.index
  }

  /**
   The window the interrupt shows lies inside the buffer, and its k-th
   character is read at (index + k) mod (L + 1).
   */
  lemma ShownIsReadable(c: Carousel, continuous: bool)
    requires Ready(c, continuous)
    ensures 0 <= Shown(c) <= c.length
    ensures forall k :: 0 <= k < 4 ==> 0 <= CyclicPos(Shown(c), k, c.length) < |c.buffer|
    ensures forall k :: 0 <= k < 4 ==> CyclicPos(Shown(c), k, c.length) == (Shown(c) + k) % (c.length + 1)
  {
    forall k | 0 <= k < 4
      ensures CyclicPos(Shown(c), k, c.length) == (Shown(c) + k) % (c.length + 1)
    {
      CyclicPosIsModulo(Shown(c), k, c.length);
    }
  }

  /**
   The state change of sevenSegmentCarouselInterrupt: unless paused or
   finished the index advances; then a continuous carousel that has reached
   L restarts at -1, and a one-shot carousel that has reached L - 4 marks its
   pass finished.
   */
  function Advance(c: Carousel, continuous: bool): (r: Carousel)
    requires Ready(c, continuous)
    ensures Ready(r, continuous)
    ensures continuous ==> r.index == (if Shown(c) == c.length then -1 else Shown(c))
    ensures !continuous ==> r.index == Shown(c)
    ensures !continuous ==> (r.overflow <==> c.overflow || Shown(c) == c.length - 4)
    ensures r == c.(index := r.index, overflow := r.overflow)
    ensures continuous ==> r.overflow == c.overflow
    ensures !Moves(c) ==> r == c
  {
    var index := Shown(c);
    if index == c.length && continuous then c.(index := -1)
    else if index == c.length - 4 && !continuous then c.(index := index, overflow := true)
    else c.(index := index)
  }

  /**
   sevenSegmentCarouselInterrupt: the window it shows, at the advanced index
   (before any restart at -1), holds buffer[(index + k) mod (L + 1)] in
   position k; the state moves on as Advance says.
   */
  function Tick(c: Carousel, continuous: bool): (s: Step)
    requires Ready(c, continuous)
    ensures |s.window| == 4
    ensures forall k :: 0 <= k < 4 ==> s.window[k] == c.buffer[(Shown(c) + k) % (c.length + 1)]
    ensures s.next == Advance(c, continuous)
  {
    ShownIsReadable(c, continuous);
    Step(Advance(c, continuous), Window(c.buffer, c.length, Shown(c)))
  }

  /** `k` consecutive transition interrupts. */
  function TickTimes(c: Carousel, continuous: bool, k: nat): (r: Carousel)
    requires Ready(c, continuous)
    ensures Ready(r, continuous)
    decreases k
  {
    if k == 0 then c else TickTimes(Advance(c, continuous), continuous, k - 1)
  }

  /**
   The index a running continuous carousel reaches from `index` after k
   interrupts, for k up to one full loop: it walks up to L - 1, restarts at
   -1 and walks up again.
   */
  function LoopIndex(index: int, k: int, length: int): int {
    if index + k < length then index + k
    else if index + k == length then -1
    else index + k - (length + 1)
  }

  /** A running continuous carousel walks through -1, 0, ..., L - 1 and around again. */
  lemma {:induction false} ContinuousRuns(c: Carousel, k: nat)
    requires Ready(c, true) && Moves(c) && k <= c.length + 1
    ensures TickTimes(c, true, k) == c.(index := LoopIndex(c.index, k, c.length))
    decreases k
  {
    if k > 0 {
      var t := Advance(c, true);
      assert t == c.(index := LoopIndex(c.index, 1, c.length));
      if c.index + 1 == c.length {
        ContinuousRuns(t, k - 1);
        assert LoopIndex(t.index, k - 1, c.length) == LoopIndex(c.index, k, c.length);
      } else {
        ContinuousRuns(t, k - 1);
      }
    }
  }

  /** j + i interrupts are j interrupts followed by i more. */
  lemma {:induction false} TicksCompose(c: Carousel, continuous: bool, j: nat, i: nat)
    requires Ready(c, continuous)
    ensures TickTimes(c, continuous, j + i) == TickTimes(TickTimes(c, continuous, j), continuous, i)
    decreases j
  {
    if j > 0 {
      TicksCompose(Advance(c, continuous), continuous, j - 1, i);
    }
  }

  /**
   Loop closure: a running continuous carousel moves through the L + 1
   positions -1, 0, ..., L - 1 and is back where it was after L + 1 interrupts.
   */
  lemma ContinuousPeriod(c: Carousel)
    requires Ready(c, true) && Moves(c)
    ensures TickTimes(c, true, c.length + 1) == c
  {
    ContinuousRuns(c, c.length + 1);
  }

  /** Interrupts change only the index and the end flag. */
  lemma {:induction false} TicksKeepBuffer(c: Carousel, continuous: bool, k: nat)
    requires Ready(c, continuous)
    ensures var r := TickTimes(c, continuous, k);
      r.buffer == c.buffer && r.length == c.length && r.paused == c.paused
      && (continuous ==> r.overflow == c.overflow)
    decreases k
  {
    if k > 0 {
      TicksKeepBuffer(Advance(c, continuous), continuous, k - 1);
    }
  }

  /**
   A one-shot pass, once finished, is frozen: the index no longer advances
   and every later interrupt shows the same last window.
   */
  lemma {:induction false} FinishedIsFrozen(c: Carousel, k: nat)
    requires Ready(c, false) && c.overflow
    ensures TickTimes(c, false, k) == c
    ensures Tick(c, false).window == Tick(TickTimes(c, false, k), false).window
    decreases k
  {
    if k > 0 {
      FinishedIsFrozen(Advance(c, false), k - 1);
    }
  }

  /**
   A running one-shot carousel at index i reaches the end of its pass after
   L - 4 - i interrupts: the window then starts at L - 4 and the pass is
   marked finished.
   */
  lemma {:induction false} OneShotFinishes(c: Carousel)
    requires Ready(c, false) && Moves(c)
    ensures var r := TickTimes(c, false, c.length - 4 - c.index);
      r.index == c.length - 4 && r.overflow
    decreases c.length - 4 - c.index
  {
    var t := Advance(c, false);
    if t.overflow {
      assert TickTimes(c, false, c.length - 4 - c.index) == t;
    } else {
      OneShotFinishes(t);
    }
  }

  /** togglePauseSevenSegmentDisplayCarousel. */
  function TogglePause(c: Carousel): (r: Carousel)
    ensures r.paused != c.paused && r.(paused := c.paused) == c
  {
    c.(paused := !c.paused)
  }

  /** pauseSevenSegmentDisplayCarousel. */
  function Pause(c: Carousel): (r: Carousel)
    ensures r.paused && r.(paused := c.paused) == c
  {
    c.(paused := true)
  }

  /** runSevenSegmentDisplayCarousel. */
  function Run(c: Carousel): (r: Carousel)
    ensures !r.paused && r.(paused := c.paused) == c
  {
    c.(paused := false)
  }

  /**
   The pause controls keep the carousel's invariant, and a paused carousel
   that has started holds its index under interrupts.
   */
  lemma PauseControls(c: Carousel, continuous: bool, k: nat)
    requires Valid(c, continuous)
    ensures Valid(Pause(c), continuous) && Valid(Run(c), continuous) && Valid(TogglePause(c), continuous)
    ensures TogglePause(TogglePause(c)) == c
    ensures 0 <= c.index ==> TickTimes(Pause(c), continuous, k) == Pause(c)
  {
    if 0 <= c.index {
      PausedHolds(Pause(c), continuous, k);
    }
  }

  /** A paused carousel keeps its state under interrupts. */
  lemma {:induction false} PausedHolds(c: Carousel, continuous: bool, k: nat)
    requires Ready(c, continuous) && c.paused
    ensures TickTimes(c, continuous, k) == c
    decreases k
  {
    if k > 0 {
      PausedHolds(Advance(c, continuous), continuous, k - 1);
    }
  }

  /** restartSevenSegmentDisplayCarousel: index -1, end flag cleared, running. */
  function Restart(c: Carousel): (r: Carousel)
    ensures r.index == -1 && !r.overflow && !r.paused
    ensures r.buffer == c.buffer && r.length == c.length
    ensures Valid(c, true) ==> Ready(r, true)
    ensures Valid(c, false) ==> Ready(r, false)
  {
    c.(index := -1, overflow := false, paused := false)
  }

  /** Restart forgets every interrupt since: the history makes no difference. */
  lemma RestartForgetsTicks(c: Carousel, continuous: bool, k: nat)
    requires Ready(c, continuous)
    ensures Restart(TickTimes(c, continuous, k)) == Restart(c)
  {
    TicksKeepBuffer(c, continuous, k);
  }
}
