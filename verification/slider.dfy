/**
 The slider: a text shown one page of four characters at a time, a new page
 per transition interrupt. Setup may drop the isolated spaces of the text,
 pads it with a blank leading page on request and fills the last page with
 blanks. The continuous/one-shot flag is shared with the carousel, so it is
 passed in.
 */
module Slider {

  /**
   `length` is the logical length L of the paged buffer, a multiple of 4;
   `index` is where the page shown by the next interrupt starts.
   */
  datatype Slider = Slider(
    buffer: seq<char>,
    length: int,
    index: int,
    paused: bool)

  /** What one transition interrupt produces: the new state and the page it shows. */
  datatype Step = Step(next: Slider, window: seq<char>)

  /** The slider globals before any setup. */
  const PowerOn: Slider := Slider([], -1, -1, false)

  /** The character a read at position j finds: outside the text it is the terminator. */
  function At(t: seq<char>, j: int): char {
    if 0 <= j < |t| then t[j] else '\0'
  }

  /**
   The three tests the setup loop applies to character i when single spaces
   are ignored: a leading space before a non-space, a trailing space after a
   non-space, or a space between two non-spaces is dropped.
   */
  predicate Dropped(t: seq<char>, i: int)
    requires 0 <= i < |t|
  {
    if i == 0 && t[i] == ' ' && At(t, i + 1) != ' ' then true
    else if i == |t| - 1 && t[i] == ' ' && At(t, i - 1) != ' ' then true
    else t[i] == ' ' && At(t, i - 1) != ' ' && At(t, i + 1) != ' '
  }

  /** A space with no space on either side (the ends of the text count as non-spaces). */
  predicate Isolated(t: seq<char>, i: int)
    requires 0 <= i < |t|
  {
    t[i] == ' ' && (i == 0 || t[i - 1] != ' ') && (i == |t| - 1 || t[i + 1] != ' ')
  }

  /** The setup loop drops exactly the isolated spaces. */
  lemma DroppedIsIsolated(t: seq<char>, i: int)
    requires 0 <= i < |t|
    ensures Dropped(t, i) <==> Isolated(t, i)
  {
  }

  /** The characters of t[i..] the setup loop copies. */
  function KeptFrom(t: seq<char>, i: nat): seq<char>
    requires i <= |t|
    decreases |t| - i
  {
    if i == |t| then []
    else if Dropped(t, i) then KeptFrom(t, i + 1)
    else [t[i]] + KeptFrom(t, i + 1)
  }

  /** The text with its isolated spaces removed. */
  function Collapse(t: seq<char>): seq<char> {
    KeptFrom(t, 0)
  }

  /** The non-space characters of a text, in order. */
  function Letters(t: seq<char>): seq<char> {
    if t == [] then []
    else (if t[0] == ' ' then [] else [t[0]]) + Letters(t[1..])
  }

  lemma {:induction false} LettersAppend(a: seq<char>, b: seq<char>)
    ensures Letters(a + b) == Letters(a) + Letters(b)
    decreases |a|
  {
    if a == [] {
      assert a + b == b;
    } else {
      assert (a + b)[1..] == a[1..] + b;
      LettersAppend(a[1..], b);
    }
  }

  /** Copying from position i keeps every non-space character of t[i..] in order. */
  lemma {:induction false} KeptFromKeepsLetters(t: seq<char>, i: nat)
    requires i <= |t|
    ensures Letters(KeptFrom(t, i)) == Letters(t[i..])
    decreases |t| - i
  {
    if i < |t| {
      KeptFromKeepsLetters(t, i + 1);
      assert t[i..] == [t[i]] + t[i + 1..];
      LettersAppend([t[i]], t[i + 1..]);
      if !Dropped(t, i) {
        LettersAppend([t[i]], KeptFrom(t, i + 1));
      }
    }
  }

  /**
   Ignoring single spaces drops only spaces: the non-space characters of the
   text survive, in order, and nothing is added.
   */
  lemma CollapseKeepsLetters(t: seq<char>)
    ensures Letters(Collapse(t)) == Letters(t)
    ensures |Collapse(t)| <= |t|
  {
    KeptFromKeepsLetters(t, 0);
    KeptFromShrinks(t, 0);
  }

  lemma {:induction false} KeptFromShrinks(t: seq<char>, i: nat)
    requires i <= |t|
    ensures |KeptFrom(t, i)| <= |t| - i
    decreases |t| - i
  {
    if i < |t| {
      KeptFromShrinks(t, i + 1);
    }
  }

  /** A text without isolated spaces is copied unchanged. */
  lemma {:induction false} KeptFromWithoutIsolated(t: seq<char>, i: nat)
    requires i <= |t|
    requires forall j :: i <= j < |t| ==> !Isolated(t, j)
    ensures KeptFrom(t, i) == t[i..]
    decreases |t| - i
  {
    if i < |t| {
      DroppedIsIsolated(t, i);
      KeptFromWithoutIsolated(t, i + 1);
      assert t[i..] == [t[i]] + t[i + 1..];
    }
  }

  /** Double spaces are not affected: a text whose spaces all come in runs is left as it is. */
  lemma CollapseKeepsRuns(t: seq<char>)
    requires forall j :: 0 <= j < |t| ==> !Isolated(t, j)
    ensures Collapse(t) == t
  {
    KeptFromWithoutIsolated(t, 0);
  }

  /** The documented sample text. */
  const Sample: seq<char> := "A B C D  E F  G"

  /** The documented sample: "A B C D  E F  G" becomes "ABCD  EF  G". */
  lemma CollapseSample()
    ensures Collapse(Sample) == "ABCD  EF  G"
  {
    SampleFrom4();
  }

  lemma SampleFrom12()
    ensures KeptFrom(Sample, 12) == "  G"
  {
  }

  lemma SampleFrom8()
    ensures KeptFrom(Sample, 8) == " EF  G"
  {
    SampleFrom12();
  }

  lemma SampleFrom4()
    ensures KeptFrom(Sample, 4) == "CD  EF  G"
  {
    SampleFrom8();
  }

  /** n blanks. */
  function Blanks(n: nat): (r: seq<char>)
    ensures |r| == n && forall k :: 0 <= k < n ==> r[k] == ' '
  {
    if n == 0 then [] else [' '] + Blanks(n - 1)
  }

  /** The blanks that complete the last page of n characters. */
  function Fill(n: nat): nat {
    if n % 4 != 0 then 4 - n % 4 else 0
  }

  lemma FillCompletesPage(n: nat)
    ensures Fill(n) < 4 && (n + Fill(n)) % 4 == 0
  {
  }

  /** The text the setup loop copies. */
  function Working(text: seq<char>, ignoreSingleSpaces: bool): seq<char> {
    if ignoreSingleSpaces then Collapse(text) else text
  }

  /** The leading blank page, when padding is on. */
  function Lead(pad: bool): seq<char> {
    Blanks(if pad then 4 else 0)
  }

  /**
   The invariant of a configured slider: a whole number of pages, the
   buffer holding exactly them, and the index at the start of one of them.
   */
  predicate Valid(s: Slider) {
    4 <= s.length && s.length == |s.buffer| && s.length % 4 == 0
    && 0 <= s.index <= s.length - 4 && s.index % 4 == 0
  }

  /**
   sevenSegmentDisplayTextSlider (the part after the clock check): the
   buffer is the optional blank page, then the text (with isolated spaces
   dropped on request), then blanks up to a page boundary; index 0, running.
   The length is computed as the text length, plus 4 when padded, minus the
   dropped spaces, plus the fill.
   */
  function Configure(s: Slider, text: seq<char>, pad: bool, ignoreSingleSpaces: bool): (r: Slider)
    ensures var w := Working(text, ignoreSingleSpaces);
      r.buffer == Lead(pad) + w + Blanks(Fill(|w|))
    ensures r.length == |r.buffer| && r.length % 4 == 0
    ensures r.index == 0 && !r.paused
    ensures Valid(r) <==> pad || Working(text, ignoreSingleSpaces) != []
  {
    var w := Working(text, ignoreSingleSpaces);
    var padding := if pad then 4 else 0;
    var adjust := |text| - |w|;
    FillCompletesPage(|w|);
    Slider(Lead(pad) + w + Blanks(Fill(|w|)), |text| + padding - adjust + Fill(|w|), 0, false)
  }

  /**
   Ignoring single spaces changes the paged text only by dropping spaces:
   the non-space characters of the text appear in the buffer, in order.
   */
  lemma ConfigureKeepsLetters(s: Slider, text: seq<char>, pad: bool, ignoreSingleSpaces: bool)
    ensures Letters(Configure(s, text, pad, ignoreSingleSpaces).buffer) == Letters(text)
  {
    var w := Working(text, ignoreSingleSpaces);
    if ignoreSingleSpaces {
      CollapseKeepsLetters(text);
    }
    LettersAppend(Lead(pad), w);
    LettersAppend(Lead(pad) + w, Blanks(Fill(|w|)));
    BlanksHaveNoLetters(Fill(|w|));
    BlanksHaveNoLetters(if pad then 4 else 0);
  }

  lemma {:induction false} BlanksHaveNoLetters(n: nat)
    ensures Letters(Blanks(n)) == []
  {
    if n > 0 {
      BlanksHaveNoLetters(n - 1);
      assert Blanks(n)[1..] == Blanks(n - 1);
    }
  }

  /** Two page starts that are both multiples of 4 are at least a page apart. */
  lemma AlignedGap(i: int, n: int)
    requires i % 4 == 0 && n % 4 == 0 && 0 <= i < n
    ensures i + 4 <= n
  {
    var p := i / 4;
    var q := n / 4;
    assert i == 4 * p && n == 4 * q;
  }

  /** The page after a page before the last one is still a whole page. */
  lemma NextPageFits(s: Slider)
    requires Valid(s)
    ensures s.index < s.length - 4 ==> s.index + 4 <= s.length - 4
  {
    if s.index < s.length - 4 {
      AlignedGap(s.index, s.length - 4);
    }
  }

  /**
   The state change of sevenSegmentSliderInterrupt: a running slider moves a
   page on; past the last page a continuous slider goes back to the first,
   a one-shot slider stays on the last page and pauses.
   */
  function Advance(s: Slider, continuous: bool): (r: Slider)
    requires Valid(s)
    ensures Valid(r)
    ensures r.buffer == s.buffer && r.length == s.length
    ensures s.paused ==> r == s
    ensures !s.paused && s.index < s.length - 4 ==> r == s.(index := s.index + 4)
    ensures !s.paused && s.index == s.length - 4 && continuous ==> r == s.(index := 0)
    ensures !s.paused && s.index == s.length - 4 && !continuous ==> r == s.(paused := true)
  {
    var moved := if !s.paused then s.index + 4 else s.index;
    NextPageFits(s);
    if moved > s.length - 4 && continuous then s.(index := 0)
    else if moved > s.length - 4 then s.(index := moved - 4, paused := true)
    else s.(index := moved)
  }

  /** The page the interrupt shows: the four characters at the index, read before it moves. */
  function Page(s: Slider): (w: seq<char>)
    requires Valid(s)
  {
    s.buffer[s.index..s.index + 4]
  }

  /**
   sevenSegmentSliderInterrupt: it shows buffer[index + k] in position k,
   then the state moves on as Advance says.
   */
  function Tick(s: Slider, continuous: bool): (r: Step)
    requires Valid(s)
    ensures |r.window| == 4
    ensures forall k :: 0 <= k < 4 ==> r.window[k] == s.buffer[s.index + k]
    ensures r.next == Advance(s, continuous)
  {
    Step(Advance(s, continuous), Page(s))
  }

  /** `k` consecutive transition interrupts. */
  function TickTimes(s: Slider, continuous: bool, k: nat): (r: Slider)
    requires Valid(s)
    ensures Valid(r)
    decreases k
  {
    if k == 0 then s else TickTimes(Advance(s, continuous), continuous, k - 1)
  }

  /**
   A running continuous slider steps through the pages and wraps to the
   first page after the last: after k interrupts, up to one full round, it
   is k pages further on, modulo the buffer.
   */
  lemma {:induction false} ContinuousRuns(s: Slider, k: nat)
    requires Valid(s) && !s.paused && 4 * k <= s.length
    ensures TickTimes(s, true, k) == s.(index := if s.index + 4 * k <= s.length - 4 then s.index + 4 * k else s.index + 4 * k - s.length)
    decreases k
  {
    if k > 0 {
      ContinuousRuns(Advance(s, true), k - 1);
    }
  }

  /** A running continuous slider is back on its page after L / 4 interrupts. */
  lemma ContinuousPeriod(s: Slider)
    requires Valid(s) && !s.paused
    ensures TickTimes(s, true, s.length / 4) == s
  {
    ContinuousRuns(s, s.length / 4);
  }

  /**
   A running one-shot slider reaches the last page and pauses there: from
   index i it takes (L - i) / 4 interrupts, the last of them showing the
   last page.
   */
  lemma {:induction false} OneShotStops(s: Slider, k: nat)
    requires Valid(s) && !s.paused && s.index + 4 * k == s.length
    ensures TickTimes(s, false, k) == s.(index := s.length - 4, paused := true)
    decreases k
  {
    if s.index < s.length - 4 {
      OneShotStops(Advance(s, false), k - 1);
    }
  }

  /** The number of interrupts OneShotStops needs exists for every valid slider. */
  lemma OneShotEnds(s: Slider)
    requires Valid(s) && !s.paused
    ensures var r := TickTimes(s, false, (s.length - s.index) / 4);
      r.index == s.length - 4 && r.paused && Page(r) == s.buffer[s.length - 4..]
  {
    var k := (s.length - s.index) / 4;
    assert s.index == 4 * (s.index / 4) && s.length == 4 * (s.length / 4);
    assert s.index + 4 * k == s.length;
    OneShotStops(s, k);
  }

  /** A paused slider keeps its state, and its page, under interrupts. */
  lemma {:induction false} PausedHolds(s: Slider, continuous: bool, k: nat)
    requires Valid(s) && s.paused
    ensures TickTimes(s, continuous, k) == s
    ensures Tick(TickTimes(s, continuous, k), continuous).window == Page(s)
    decreases k
  {
    if k > 0 {
      PausedHolds(Advance(s, continuous), continuous, k - 1);
    }
  }

  /** Interrupts change only the index and the pause flag. */
  lemma {:induction false} TicksKeepBuffer(s: Slider, continuous: bool, k: nat)
    requires Valid(s)
    ensures TickTimes(s, continuous, k).buffer == s.buffer
    ensures TickTimes(s, continuous, k).length == s.length
    decreases k
  {
    if k > 0 {
      TicksKeepBuffer(Advance(s, continuous), continuous, k - 1);
    }
  }

  /** pauseSevenSegmentDisplaySlider. */
  function Pause(s: Slider): (r: Slider)
    ensures r.paused && r.(paused := s.paused) == s
  {
    s.(paused := true)
  }

  /** togglePauseSevenSegmentDisplaySlider. */
  function TogglePause(s: Slider): (r: Slider)
    ensures r.paused != s.paused && r.(paused := s.paused) == s
  {
    s.(paused := !s.paused)
  }

  /** runSevenSegmentDisplaySlider. */
  function Run(s: Slider): (r: Slider)
    ensures !r.paused && r.(paused := s.paused) == s
  {
    s.(paused := false)
  }

  /** restartSevenSegmentDisplaySlider: back to the first page, running. */
  function Restart(s: Slider): (r: Slider)
    ensures r.index == 0 && !r.paused
    ensures r.buffer == s.buffer && r.length == s.length
    ensures Valid(s) ==> Valid(r)
  {
    s.(index := 0, paused := false)
  }

  /** Restart forgets every interrupt since: the history makes no difference. */
  lemma RestartForgetsTicks(s: Slider, continuous: bool, k: nat)
    requires Valid(s)
    ensures Restart(TickTimes(s, continuous, k)) == Restart(s)
  {
    TicksKeepBuffer(s, continuous, k);
  }

  /** The pause controls keep the invariant, and a paused slider holds its page. */
  lemma PauseControls(s: Slider, continuous: bool, k: nat)
    requires Valid(s)
    ensures Valid(Pause(s)) && Valid(Run(s)) && Valid(TogglePause(s))
    ensures TogglePause(TogglePause(s)) == s
    ensures TickTimes(Pause(s), continuous, k) == Pause(s)
  {
    PausedHolds(Pause(s), continuous, k);
  }
}
