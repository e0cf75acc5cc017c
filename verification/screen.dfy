/**
 The digit multiplexer: the 4-slot character buffer (chrSequence), the index
 of the digit to light next (currentDigit), the refresh clock binding, and the
 refresh interrupt that lights one digit per call. Also the decimal projection
 that display4Numbers and the counter use to fill the buffer.
 */
module Screen {

  import opened Wrappers
  import opened Clocks
  import Glyphs

  /**
   `slots[k]` is the character digit k shows. `digit` is the digit the next
   refresh lights (-1 until a 4-character display is set up). `lit` and
   `segments` are what the pins show after the last refresh: the enabled digit
   and the segment mask driven onto the segment pins.
   */
  datatype Screen = Screen(
    slots: seq<char>,
    digit: int,
    lit: Option<int>,
    segments: int,
    clock: Option<Clock>,
    rate: int)

  /** The state at power-on: four blanks, no digit selected, all segments off. */
  const PowerOn: Screen := Screen("    ", -1, None, 0, None, -1)

  /** A screen the refresh interrupt can run on. */
  predicate Ready(s: Screen) {
    |s.slots| == 4 && 0 <= s.digit < 4
  }

  /**
   The slot order used by every writer of the buffer: the first character of
   a 4-character window goes to slot 3 and the last to slot 0.
   */
  function Slots(w: seq<char>): (r: seq<char>)
    requires |w| == 4
    ensures |r| == 4
    ensures forall k :: 0 <= k < 4 ==> r[k] == w[3 - k]
  {
    [w[3], w[2], w[1], w[0]]
  }

  /** The window the buffer holds, read left to right (slot 3 first). */
  function Text(s: Screen): (w: seq<char>)
    requires |s.slots| == 4
    ensures |w| == 4 && Slots(w) == s.slots
  {
    Slots(s.slots)
  }

  /** Writing a window and reading it back gives the window. */
  lemma TextOfSlots(s: Screen, w: seq<char>)
    requires |w| == 4
    ensures Text(s.(slots := Slots(w))) == w
  {
  }

  /** C division, truncating toward zero. */
  function CDiv(a: int, b: int): int
    requires b > 0
  {
    if a >= 0 then a / b else -((-a) / b)
  }

  /** C remainder, taking the sign of the dividend. */
  function CRem(a: int, b: int): int
    requires b > 0
  {
    a - b * CDiv(a, b)
  }

  /** `d + '0'` stored in an (unsigned, 8-bit) C char. */
  function DigitChar(d: int): char {
    ((d + '0' as int) % 256) as char
  }

  /** The digit loop of display4Numbers from place value `shifter` down to 1. */
  function ProjectFrom(number: int, shifter: nat): seq<char>
    decreases shifter
  {
    if shifter == 0 then []
    else
      [DigitChar((number - CRem(number, shifter)) / shifter)]
      + ProjectFrom(CRem(number, shifter), shifter / 10)
  }

  /** The four characters display4Numbers shows for `n`, thousands first. */
  function Projection(n: int): seq<char> {
    ProjectFrom(n, 1000)
  }

  /** Reads four decimal digit characters back as a number. */
  function DecimalValue(s: seq<char>): int
    requires |s| == 4
  {
    (s[0] as int - '0' as int) * 1000 + (s[1] as int - '0' as int) * 100
    + (s[2] as int - '0' as int) * 10 + (s[3] as int - '0' as int)
  }

  /** For a non-negative number the C quotient and remainder are the ordinary ones. */
  lemma PlaceValue(number: int, shifter: int)
    requires 0 <= number && (shifter == 1000 || shifter == 100 || shifter == 10 || shifter == 1)
    ensures CRem(number, shifter) == number % shifter
    ensures (number - CRem(number, shifter)) / shifter == number / shifter
  {
    var q := number / shifter;
    var m := number % shifter;
    assert CDiv(number, shifter) == q;
    assert number - m == shifter * q;
    if shifter == 1000 {
      assert (1000 * q) / 1000 == q;
    } else if shifter == 100 {
      assert (100 * q) / 100 == q;
    } else if shifter == 10 {
      assert (10 * q) / 10 == q;
    }
  }

  /** For a non-negative number one loop step takes the leading place value off. */
  lemma ProjectStep(number: int, shifter: nat)
    requires 0 <= number && (shifter == 1000 || shifter == 100 || shifter == 10 || shifter == 1)
    ensures ProjectFrom(number, shifter)
      == [DigitChar(number / shifter)] + ProjectFrom(number % shifter, shifter / 10)
  {
    PlaceValue(number, shifter);
  }

  /** A single decimal digit becomes its character. */
  lemma DigitCharOfDigit(d: int)
    requires 0 <= d <= 9
    ensures DigitChar(d) as int == '0' as int + d
    ensures '0' <= DigitChar(d) <= '9'
  {
  }

  /** The digit loop from place value `shifter` lists the digits below it. */
  lemma {:induction false} ProjectTail(number: int, shifter: nat)
    requires 0 <= number && (shifter == 1000 || shifter == 100 || shifter == 10 || shifter == 1)
    ensures shifter == 1 ==> ProjectFrom(number, 1) == [DigitChar(number)]
    ensures shifter == 10 ==>
      ProjectFrom(number, 10) == [DigitChar(number / 10)] + ProjectFrom(number % 10, 1)
    ensures shifter == 100 ==>
      ProjectFrom(number, 100) == [DigitChar(number / 100)] + ProjectFrom(number % 100, 10)
    ensures shifter == 1000 ==>
      ProjectFrom(number, 1000) == [DigitChar(number / 1000)] + ProjectFrom(number % 1000, 100)
  {
    ProjectStep(number, shifter);
    if shifter == 1 {
      assert ProjectFrom(number % 1, 0) == [];
    }
  }

  /** The projection of a non-negative number lists its four lowest place values. */
  lemma {:induction false} ProjectionDigits(n: int)
    requires 0 <= n
    ensures Projection(n)
      == [DigitChar(n / 1000), DigitChar(n % 1000 / 100), DigitChar(n % 1000 % 100 / 10), DigitChar(n % 1000 % 100 % 10)]
  {
    ProjectTail(n, 1000);
    ProjectTail(n % 1000, 100);
    ProjectTail(n % 1000 % 100, 10);
    ProjectTail(n % 1000 % 100 % 10, 1);
  }

  /**
   For 0 <= n <= 9999 the projection is four decimal digits, zero padded,
   thousands first, and reading them back gives n.
   */
  lemma {:induction false} ProjectionRoundTrip(n: int)
    requires 0 <= n <= 9999
    ensures |Projection(n)| == 4
    ensures forall k :: 0 <= k < 4 ==> '0' <= Projection(n)[k] <= '9'
    ensures DecimalValue(Projection(n)) == n
  {
    var r3 := n % 1000;
    var r2 := r3 % 100;
    var r1 := r2 % 10;
    ProjectionDigits(n);
    DigitCharOfDigit(n / 1000);
    DigitCharOfDigit(r3 / 100);
    DigitCharOfDigit(r2 / 10);
    DigitCharOfDigit(r1);
    assert n == n / 1000 * 1000 + r3 / 100 * 100 + r2 / 10 * 10 + r1;
  }

  /**
   The projection always has four characters, whatever the number, and reads
   back as the number whenever it is in the displayable range.
   */
  lemma {:induction false} ProjectionLength(n: int)
    ensures |Projection(n)| == 4
    ensures 0 <= n <= 9999 ==> DecimalValue(Projection(n)) == n
  {
    assert |ProjectFrom(CRem(CRem(CRem(n, 1000), 100), 10), 1)| == 1;
    if 0 <= n <= 9999 {
      ProjectionRoundTrip(n);
    }
  }

  /**
   The write loop of the counting interrupt: the projection of `n` goes into
   the buffer, thousands on digit 3; nothing else changes.
   */
  function ShowCount(s: Screen, n: int): (r: Screen)
    ensures |r.slots| == 4
    ensures 0 <= n <= 9999 ==> DecimalValue(Text(r)) == n
    ensures r == s.(slots := r.slots)
  {
    ProjectionLength(n);
    s.(slots := Slots(Projection(n)))
  }

  /**
   display4Characters: writes the 4-character window into the buffer, binds
   the refresh clock and rate, and selects digit 0 to be lit next.
   */
  function Display4Characters(s: Screen, w: seq<char>, clock: Clock, rate: int): (r: Screen)
    requires |w| == 4
    ensures Ready(r) && r.digit == 0
    ensures forall k :: 0 <= k < 4 ==> r.slots[k] == w[3 - k]
    ensures Text(r) == w
    ensures r.clock == Some(clock) && r.rate == rate
    ensures r.lit == s.lit && r.segments == s.segments
  {
    s.(slots := Slots(w), digit := 0, clock := Some(clock), rate := rate)
  }

  /** display4Numbers: the projection of `n`, thousands on digit 3, units on digit 0. */
  function Display4Numbers(s: Screen, n: int, clock: Clock, rate: int): (r: Screen)
    ensures Ready(r) && r.digit == 0
    ensures 0 <= n <= 9999 ==> DecimalValue(Text(r)) == n
    ensures r.clock == Some(clock) && r.rate == rate
    ensures r.lit == s.lit && r.segments == s.segments
  {
    ProjectionLength(n);
    Display4Characters(s, Projection(n), clock, rate)
  }

  /**
   displaySingleCharacter: every slot of the buffer takes `ch` and, when `ch`
   has a glyph, its mask goes onto the segment pins at once. The digit the
   next refresh lights, the clock and the rate stay as they were.
   */
  function DisplaySingleCharacter(s: Screen, ch: char): (r: Screen)
    ensures |r.slots| == 4 && Text(r) == [ch, ch, ch, ch]
    ensures forall k :: 0 <= k < 4 ==> r.slots[k] == ch
    ensures Glyphs.Lookup(ch).Some? ==> r.segments == Glyphs.Lookup(ch).value
    ensures Glyphs.Lookup(ch).None? ==> r.segments == s.segments
    ensures r == s.(slots := r.slots, segments := r.segments)
  {
    var segments := match Glyphs.Lookup(ch)
      case Some(mask) => mask
      case None => s.segments;
    s.(slots := Slots([ch, ch, ch, ch]), segments := segments)
  }

  /**
   displaySingleInt: `n + '0'` as a C char on every digit; a single decimal
   digit n fills the buffer with its character, which reads back as 1111 n.
   */
  function DisplaySingleInt(s: Screen, n: int): (r: Screen)
    ensures |r.slots| == 4
    ensures 0 <= n <= 9 ==> forall k :: 0 <= k < 4 ==> r.slots[k] as int == '0' as int + n
    ensures 0 <= n <= 9 ==> DecimalValue(Text(r)) == 1111 * n
    ensures r == s.(slots := r.slots, segments := r.segments)
  {
    DisplaySingleCharacter(s, DigitChar(n))
  }

  /**
   display4CharactersInterrupt: lights digit `digit` with the glyph of its slot
   (keeping the previous mask when the character has no glyph) and moves on to
   the next digit, wrapping 3 to 0.
   */
  function Refresh(s: Screen): (r: Screen)
    requires Ready(s)
    ensures Ready(r)
    ensures r.lit == Some(s.digit)
    ensures s.digit < 3 ==> r.digit == s.digit + 1
    ensures s.digit == 3 ==> r.digit == 0
    ensures Glyphs.Lookup(s.slots[s.digit]).Some? ==> r.segments == Glyphs.Lookup(s.slots[s.digit]).value
    ensures Glyphs.Lookup(s.slots[s.digit]).None? ==> r.segments == s.segments
    ensures r.slots == s.slots && r.clock == s.clock && r.rate == s.rate
  {
    var segments := match Glyphs.Lookup(s.slots[s.digit])
      case Some(mask) => mask
      case None => s.segments;
    var next := if s.digit + 1 == 4 then 0 else s.digit + 1;
    s.(lit := Some(s.digit), segments := segments, digit := next)
  }

  /** `k` consecutive refresh interrupts. */
  function RefreshTimes(s: Screen, k: nat): Screen
    requires Ready(s)
    decreases k
  {
    if k == 0 then s else RefreshTimes(Refresh(s), k - 1)
  }

  /**
   The lit digit cycles 0, 1, 2, 3, 0, ...: after k refreshes the next digit
   is `digit + k` modulo 4, the buffer is untouched, and the index never
   leaves [0, 3].
   */
  lemma {:induction false} RefreshCycles(s: Screen, k: nat)
    requires Ready(s)
    ensures Ready(RefreshTimes(s, k))
    ensures RefreshTimes(s, k).digit == (s.digit + k) % 4
    ensures RefreshTimes(s, k).slots == s.slots
    decreases k
  {
    if k > 0 {
      RefreshCycles(Refresh(s), k - 1);
      CycleStep(s.digit, k);
    }
  }

  /** Moving to the next digit and then k - 1 more is moving k digits. */
  lemma CycleStep(d: int, k: int)
    requires 0 <= d < 4 && k > 0
    ensures (if d < 3 then d + 1 else 0) + (k - 1) == d + k - 4 * (if d < 3 then 0 else 1)
    ensures ((if d < 3 then d + 1 else 0) + (k - 1)) % 4 == (d + k) % 4
  {
  }

  /** Four refreshes bring the multiplexer back to the digit it started from. */
  lemma RefreshPeriod(s: Screen)
    requires Ready(s)
    ensures RefreshTimes(s, 4).digit == s.digit
  {
    RefreshCycles(s, 4);
  }

  /**
   After display4Characters(w) the k-th refresh (k < 4) lights digit k with
   the glyph of w[3 - k], when that character has one.
   */
  lemma {:induction false} RefreshShowsWindow(s: Screen, w: seq<char>, clock: Clock, rate: int, k: nat)
    requires |w| == 4 && k < 4
    ensures var t := RefreshTimes(Display4Characters(s, w, clock, rate), k + 1);
      && t.lit == Some(k)
      && (Glyphs.Lookup(w[3 - k]).Some? ==> t.segments == Glyphs.Lookup(w[3 - k]).value)
  {
    var d := Display4Characters(s, w, clock, rate);
    RefreshCycles(d, k);
    RefreshSplit(d, k);
  }

  /** Every slot of the buffer holds `ch`. */
  predicate Uniform(s: Screen, ch: char) {
    |s.slots| == 4 && forall k :: 0 <= k < 4 ==> s.slots[k] == ch
  }

  /**
   A buffer holding one character on every digit keeps the segment pins
   steady: no number of refreshes changes the mask displaySingleCharacter
   drove, whether or not the character has a glyph.
   */
  lemma {:induction false} SingleCharacterHolds(s: Screen, ch: char, k: nat)
    requires 0 <= s.digit < 4
    ensures var t := RefreshTimes(DisplaySingleCharacter(s, ch), k);
      && t.slots == DisplaySingleCharacter(s, ch).slots
      && t.segments == DisplaySingleCharacter(s, ch).segments
  {
    UniformHolds(DisplaySingleCharacter(s, ch), ch, k);
  }

  /** Refreshing a uniform buffer keeps its slots and its segment mask. */
  lemma {:induction false} UniformHolds(s: Screen, ch: char, k: nat)
    requires Ready(s) && Uniform(s, ch)
    requires Glyphs.Lookup(ch).Some? ==> s.segments == Glyphs.Lookup(ch).value
    ensures RefreshTimes(s, k).slots == s.slots && RefreshTimes(s, k).segments == s.segments
    decreases k
  {
    if k > 0 {
      var t := Refresh(s);
      assert s.slots[s.digit] == ch;
      assert t.slots == s.slots && t.segments == s.segments;
      UniformHolds(t, ch, k - 1);
    }
  }

  /** k + 1 refreshes are k refreshes followed by one more. */
  lemma {:induction false} RefreshSplit(s: Screen, k: nat)
    requires Ready(s)
    ensures Ready(RefreshTimes(s, k))
    ensures RefreshTimes(s, k + 1) == Refresh(RefreshTimes(s, k))
    decreases k
  {
    RefreshCycles(s, k);
    if k > 0 {
      RefreshSplit(Refresh(s), k - 1);
    }
  }
}
