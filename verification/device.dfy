/**
 The whole display driver: the shared 4-character buffer and multiplexer,
 the counter, the carousel and the slider, and the transition settings the
 carousel and the slider share. Setups bind a component to a clock distinct
 from the refresh clock (and do nothing when the two are the same);
 interrupts move one component on and write its window into the buffer.
 */
module Device {

  import opened Wrappers
  import opened Clocks
  import Screen
  import Counter
  import Carousel
  import Slider

  /**
   The transition clock, its rate and the continuous/one-shot flag: one set
   of globals used by whichever of the carousel and the slider was set up last.
   */
  datatype Transition = Transition(clock: Option<Clock>, rate: int, continuous: bool)

  datatype Device = Device(
    screen: Screen.Screen,
    counter: Counter.Counter,
    transition: Transition,
    carousel: Carousel.Carousel,
    slider: Slider.Slider)

  /** Every global at its initial value. */
  const PowerOn: Device := Device(
    Screen.PowerOn, Counter.PowerOn, Transition(None, -1, false), Carousel.PowerOn, Slider.PowerOn)

  /**
   setupSevenSegmentCounter: unless the counting clock is the refresh clock,
   configures the counter and shows the start value on the display.
   */
  function SetupCounter(d: Device, start: int, counterClock: Clock, directionName: string,
                        increment: int, stopValue: int, stopEnabled: bool, rate: int,
                        refreshClock: Clock, refreshRate: int): (r: Device)
    ensures counterClock == refreshClock ==> r == d
    ensures counterClock != refreshClock ==>
      && r.counter.current == start && r.counter.normalized == start && r.counter.start == start
      && (r.counter.direction == Counter.Up <==> directionName == "UP")
      && r.counter.increment == increment && r.counter.rate == rate
      && r.counter.clock == Some(counterClock)
      && r.counter.stopValue == stopValue && r.counter.stopEnabled == stopEnabled
      && r.counter.paused == d.counter.paused
      && Screen.Ready(r.screen) && r.screen.digit == 0
      && r.screen.clock == Some(refreshClock) && r.screen.rate == refreshRate
      && (0 <= start <= 9999 ==> Screen.DecimalValue(Screen.Text(r.screen)) == start)
    ensures r.transition == d.transition && r.carousel == d.carousel && r.slider == d.slider
  {
    if counterClock == refreshClock then d
    else
      d.(counter := Counter.Configure(d.counter, start, directionName, increment,
                                      stopValue, stopEnabled, rate, counterClock),
         screen := Screen.Display4Numbers(d.screen, start, refreshClock, refreshRate))
  }

  /**
   sevenSegmentDisplayTextCarousel: unless the transition clock is the
   refresh clock, configures the carousel and the shared transition settings
   and shows the first four buffer characters. Setup needs at least four
   characters in the buffer to prime the display from. The end flag of an
   earlier one-shot pass is cleared (the C code keeps it; see
   Carousel.ReconfiguredPassStalls).
   */
  function SetupCarousel(d: Device, text: seq<char>, transitionClock: Clock, transitionRate: int,
                         continuous: bool, pad: bool, refreshClock: Clock, refreshRate: int): (r: Device)
    requires transitionClock == refreshClock || Carousel.CanStart(text, continuous, pad)
    ensures transitionClock == refreshClock ==> r == d
    ensures transitionClock != refreshClock ==>
      && r.carousel == Carousel.ConfigureFresh(d.carousel, text, continuous, pad)
      && r.transition == Transition(Some(transitionClock), transitionRate, continuous)
      && Screen.Ready(r.screen) && r.screen.digit == 0
      && Screen.Text(r.screen) == Carousel.Buffer(text, continuous, pad)[..4]
      && r.screen.clock == Some(refreshClock) && r.screen.rate == refreshRate
      && Carousel.Ready(r.carousel, r.transition.continuous)
    ensures pad && transitionClock != refreshClock ==> Screen.Text(r.screen) == "    "
    ensures r.counter == d.counter && r.slider == d.slider
  {
    if transitionClock == refreshClock then d
    else
      var c := Carousel.ConfigureFresh(d.carousel, text, continuous, pad);
      d.(carousel := c,
         transition := Transition(Some(transitionClock), transitionRate, continuous),
         screen := Screen.Display4Characters(d.screen, c.buffer[..4], refreshClock, refreshRate))
  }

  /**
   sevenSegmentDisplayTextSlider: unless the transition clock is the refresh
   clock, configures the slider and the shared transition settings and shows
   the first page. Setup needs a page to show: padding, or a text that is
   not empty once its single spaces are dropped.
   */
  function SetupSlider(d: Device, text: seq<char>, transitionClock: Clock, transitionRate: int,
                       continuous: bool, pad: bool, ignoreSingleSpaces: bool,
                       refreshClock: Clock, refreshRate: int): (r: Device)
    requires transitionClock == refreshClock || pad || Slider.Working(text, ignoreSingleSpaces) != []
    ensures transitionClock == refreshClock ==> r == d
    ensures transitionClock != refreshClock ==>
      && r.slider == Slider.Configure(d.slider, text, pad, ignoreSingleSpaces)
      && Slider.Valid(r.slider)
      && r.transition == Transition(Some(transitionClock), transitionRate, continuous)
      && Screen.Ready(r.screen) && r.screen.digit == 0
      && Screen.Text(r.screen) == Slider.Page(r.slider)
      && r.screen.clock == Some(refreshClock) && r.screen.rate == refreshRate
    ensures pad && transitionClock != refreshClock ==> Screen.Text(r.screen) == "    "
    ensures r.counter == d.counter && r.carousel == d.carousel
  {
    if transitionClock == refreshClock then d
    else
      var s := Slider.Configure(d.slider, text, pad, ignoreSingleSpaces);
      d.(slider := s,
         transition := Transition(Some(transitionClock), transitionRate, continuous),
         screen := Screen.Display4Characters(d.screen, s.buffer[..4], refreshClock, refreshRate))
  }

  /** display4CharactersInterrupt (and its three wrappers): one multiplexing step. */
  function RefreshInterrupt(d: Device): (r: Device)
    requires Screen.Ready(d.screen)
    ensures Screen.Ready(r.screen) && r.screen.slots == d.screen.slots
    ensures r.screen.lit == Some(d.screen.digit)
    ensures r == d.(screen := r.screen)
  {
    d.(screen := Screen.Refresh(d.screen))
  }

  /**
   updateSevenSegmentCounterInterrupt: when the counter runs, it ticks and
   its displayed count is written into the buffer, thousands first; a paused
   counter leaves everything as it is.
   */
  function CounterInterrupt(d: Device): (r: Device)
    ensures d.counter.paused ==> r == d
    ensures !d.counter.paused ==> r.counter == Counter.Tick(d.counter) && |r.screen.slots| == 4
    ensures !d.counter.paused && 0 <= r.counter.normalized <= 9999 ==>
      Screen.DecimalValue(Screen.Text(r.screen)) == r.counter.normalized
    ensures r == d.(counter := r.counter, screen := d.screen.(slots := r.screen.slots))
  {
    if d.counter.paused then d
    else
      var c := Counter.Tick(d.counter);
      d.(counter := c, screen := Screen.ShowCount(d.screen, c.normalized))
  }

  /**
   sevenSegmentCarouselInterrupt: the carousel moves on in the mode the
   shared flag selects and the window it shows is written into the buffer.
   */
  function CarouselInterrupt(d: Device): (r: Device)
    requires Carousel.Ready(d.carousel, d.transition.continuous)
    ensures r.carousel == Carousel.Advance(d.carousel, d.transition.continuous)
    ensures Carousel.Ready(r.carousel, r.transition.continuous) && |r.screen.slots| == 4
    ensures Screen.Text(r.screen) == Carousel.Tick(d.carousel, d.transition.continuous).window
    ensures r == d.(carousel := r.carousel, screen := d.screen.(slots := r.screen.slots))
  {
    var step := Carousel.Tick(d.carousel, d.transition.continuous);
    d.(carousel := step.next, screen := d.screen.(slots := Screen.Slots(step.window)))
  }

  /**
   sevenSegmentSliderInterrupt: the current page is written into the buffer
   and the slider moves on in the mode the shared flag selects.
   */
  function SliderInterrupt(d: Device): (r: Device)
    requires Slider.Valid(d.slider)
    ensures r.slider == Slider.Advance(d.slider, d.transition.continuous)
    ensures Slider.Valid(r.slider) && |r.screen.slots| == 4
    ensures Screen.Text(r.screen) == Slider.Page(d.slider)
    ensures r == d.(slider := r.slider, screen := d.screen.(slots := r.screen.slots))
  {
    var step := Slider.Tick(d.slider, d.transition.continuous);
    d.(slider := step.next, screen := d.screen.(slots := Screen.Slots(step.window)))
  }

  /**
   The counter shown after setup: once set up from a start in [0, 9999]
   with an increment of at most one wrap, every counting interrupt leaves
   the display showing the counter's displayed count.
   */
  lemma CounterShowsCount(d: Device, start: int, counterClock: Clock, directionName: string,
                          increment: int, stopValue: int, stopEnabled: bool, rate: int,
                          refreshClock: Clock, refreshRate: int)
    requires counterClock != refreshClock && 0 <= start <= 9999 && -10000 <= increment <= 10000
    ensures var s := SetupCounter(d, start, counterClock, directionName, increment,
                                  stopValue, stopEnabled, rate, refreshClock, refreshRate);
      var r := CounterInterrupt(s);
      Screen.DecimalValue(Screen.Text(r.screen)) == r.counter.normalized
  {
    var s := SetupCounter(d, start, counterClock, directionName, increment,
                          stopValue, stopEnabled, rate, refreshClock, refreshRate);
    assert Counter.Coherent(s.counter);
  }

  /**
   A slider set up with padding starts on the blank page and, running
   continuously, comes back to it after L / 4 slider interrupts.
   */
  lemma PaddedSliderLoops(d: Device, text: seq<char>, transitionClock: Clock, transitionRate: int,
                          ignoreSingleSpaces: bool, refreshClock: Clock, refreshRate: int)
    requires transitionClock != refreshClock
    ensures var s := SetupSlider(d, text, transitionClock, transitionRate, true, true,
                                 ignoreSingleSpaces, refreshClock, refreshRate).slider;
      Slider.TickTimes(s, true, s.length / 4) == s && Slider.Page(s) == "    "
  {
    var s := SetupSlider(d, text, transitionClock, transitionRate, true, true,
                         ignoreSingleSpaces, refreshClock, refreshRate).slider;
    Slider.ContinuousPeriod(s);
  }
}
