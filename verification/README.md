# Seven-segment display driver, modelled in Dafny

This project models the display logic of a driver for a 4-digit, 7-segment
display. The hardware side is removed: the model keeps no GPIO pin writes and
no timer programming. What is left is a small machine driven by one call per
interrupt:

- **Glyph tables.** Two parallel tables map 40 renderable characters to
  7-bit segment masks. They hold the digits, A–Z, '-', '=', '_' and blank.
- **Display buffer and multiplexer.** A 4-character display buffer sits
  behind a refresh multiplexer. Each refresh interrupt lights one digit with
  the glyph of its buffer slot and then moves to the next digit.
- **Counter.** It counts up or down by an increment. It keeps a raw count
  and a displayed count folded into [0, 9999], and it can halt at a stop
  value.
- **Carousel.** It scrolls a text through the 4-digit window one character
  per transition interrupt. It runs continuously or as a one-shot pass.
- **Slider.** It shows a text one 4-character page per transition
  interrupt. Setup can drop isolated spaces and pad the text to whole pages.
- **Setups.** Every setup binds a component to a timer. If that timer is
  the refresh timer, the whole setup is skipped.

Modules:

- `Wrappers` holds `Option`.
- `Clocks` holds the five timer names as an enum.
- `Glyphs` models the tables and the table walk.
- `Screen` models the display buffer, the refresh multiplexer,
  `display4Characters`, `display4Numbers` and the decimal projection.
- `Counter`, `Carousel` and `Slider` model the components and their
  run-time controls.
- `Device` is the record of all driver globals. It models the setups with
  their clock guard, and the interrupt handlers that wire a component's
  window into the display buffer.

Each handler is a function from state to state. The refresh, carousel and
slider handlers carry a precondition: the state must be one they can read
without leaving their buffer (see "## Left out"). The counting handler has
none. A `TickTimes` function iterates a handler. Some behaviours of the code
are easy to miss:

- **Unrenderable character.** The refresh handler only drives the segment
  pins when a table entry matches. So an unrenderable character leaves the
  previous segment mask lit (`Screen.Refresh`).
- **Counter setup keeps the pause flag.** The counter setup assigns start,
  current and displayed count, direction, increment, rate and stop settings.
  It never touches the pause flag, so a paused counter stays paused after a
  new setup (`Counter.Configure`).
- **Direction name at setup.** Any direction name other than "UP" means
  counting down. After setup, `changeSevenSegmentCountDirection` accepts only
  "UP" and "DOWN".
- **Carousel end flag.** The carousel setup does not clear the one-shot end
  flag; only restart does (`Carousel.Configure`, `Carousel.Restart`). The
  device model uses the corrected setup; see "## Findings".

## Model

| member | source | states |
|---|---|---|
| Glyphs.TablesAligned | source/seven_segment.h:16-64 | Both tables have 40 entries, and the key at index i sits at Position i, so the tables are index-aligned digits, A–Z, '-', '=', '_', ' '. |
| Glyphs.KeysDistinct | source/seven_segment.h:16-20 | No key occurs twice, so the table walk matches at most one entry. |
| Glyphs.MasksFitSevenBits | source/seven_segment.h:23-64 | Every mask is in [0, 128), so it fits the seven segment pins. |
| Glyphs.KeysAreUpperCase | source/seven_segment.h:16-20 | Upper-casing any key gives the key back, so no key is a lower-case letter. |
| Glyphs.LookupMatchesTables | source/seven_segment.c:886-894 | Lookup gives None exactly when no key equals the upper-cased character. Otherwise it gives the mask at the matching key's index. |
| Glyphs.ScanTable | source/seven_segment.c:886-894 | The handler's full table walk (no early exit, last match wins) selects the same mask as Lookup. |
| Glyphs.LookupIgnoresCase | source/seven_segment.c:887 | A lower-case letter gets the same mask as its upper-case form. |
| Glyphs.BlankAndEight | source/seven_segment.h:32-63 | Blank maps to 0 (all segments off) and '8' maps to 0x7F (all on). |
| Glyphs.LookupFits | source/seven_segment.c:886-894 | A found mask is below 128. A mask is found exactly when the upper-cased character is one of the 40 keys. |
| Screen.Slots | source/seven_segment.c:584-586 | Slot k of the buffer receives window character 3 - k. |
| Screen.Text | source/seven_segment.c:584-586 | Reading the buffer from slot 3 down is the inverse of Slots. |
| Screen.TextOfSlots | source/seven_segment.c:584-586 | Writing a window and reading it back gives the same window. |
| Screen.ProjectionRoundTrip | source/seven_segment.c:621-629 | For 0 <= n <= 9999, the projection with C truncating division gives four characters '0'..'9'. Read as d0·1000 + d1·100 + d2·10 + d3, thousands first, they equal n. |
| Screen.ProjectionLength | source/seven_segment.c:621-629 | The projection always has four characters. In range it decodes back to n. |
| Screen.ShowCount | source/seven_segment.c:1000-1006 | The counting handler's write loop puts a count in [0, 9999] into the buffer so that the display, read thousands first, decodes to that count. Nothing but the buffer changes. |
| Screen.Display4Characters | source/seven_segment.c:583-606 | The window lands in the buffer in reverse slot order and reads back as the window. It binds the refresh clock and rate, and selects digit 0. |
| Screen.Display4Numbers | source/seven_segment.c:621-631 | For 0 <= n <= 9999 the display reads back as n, thousands first. It selects digit 0 and binds the clock and rate. |
| Screen.DisplaySingleCharacter | source/seven_segment.c:382-395 | Every slot takes the character, so the buffer reads back as four copies of it. When the character has a glyph its mask is driven at once, otherwise the old mask stays. The next digit, clock and rate are kept. |
| Screen.DisplaySingleInt | source/seven_segment.c:410-413 | For a digit n in [0, 9] every slot holds the character '0' + n, and the buffer reads back as 1111·n. Only the buffer and mask change. |
| Screen.SingleCharacterHolds | source/seven_segment.c:382-395 | After displaySingleCharacter, no number of refreshes changes the buffer or the segment mask, with or without a glyph for the character. |
| Screen.Refresh | source/seven_segment.c:885-899 | One refresh lights the current digit with the glyph of its slot, or keeps the old mask when the character has no glyph. It then moves 0→1→2→3→0. The buffer is untouched. |
| Screen.RefreshCycles | source/seven_segment.c:895-899 | After k refreshes the digit is (d + k) mod 4. It stays in [0, 3] and the buffer is unchanged. |
| Screen.RefreshPeriod | source/seven_segment.c:895-899 | Four refreshes bring the multiplexer back to the same digit. |
| Screen.RefreshShowsWindow | source/seven_segment.c:583-606 | After display4Characters, refresh k + 1 (k < 4) lights digit k with the glyph of window character 3 - k. |
| Counter.Configure | source/seven_segment.c:654-692 | Start, raw and displayed count all take the start value, and the counter counts up exactly when the name is "UP". The other settings are stored, the pause flag is kept, and a start in range gives a coherent counter. |
| Counter.Tick | source/seven_segment.c:980-998 | A paused tick changes nothing. A running tick adds the increment ("UP") or subtracts it (any other direction). It pauses exactly when the raw count lands on an enabled stop value. It keeps the displayed count in [0, 9999] when the increment is at most 10000, and keeps raw minus displayed count a multiple of 10000. |
| Counter.TicksStayCoherent | source/seven_segment.c:980-998 | Over any number of ticks the displayed count stays in range and congruent to the raw count mod 10000. Only the counts and the pause flag change. |
| Counter.DisplayCount | source/seven_segment.c:1121-1123 | For a coherent counter the displayed count is in range and agrees with the raw count modulo 10000. |
| Counter.TotalCount | source/seven_segment.c:1135-1137 | The raw count moves by the signed increment on every running tick. |
| Counter.PausedIsFrozen | source/seven_segment.c:981 | A paused counter is unchanged by any number of ticks. |
| Counter.StopHalts | source/seven_segment.c:996-998 | The tick that lands on an enabled stop value pauses the counter there. Every later tick leaves it unchanged. |
| Counter.TogglePause | source/seven_segment.c:1147-1149 | Toggling flips the pause flag and nothing else. |
| Counter.Pause | source/seven_segment.c:1159-1161 | Pausing sets the pause flag and nothing else. |
| Counter.Run | source/seven_segment.c:1171-1173 | Running clears the pause flag and nothing else. |
| Counter.PauseControls | source/seven_segment.c:1147-1173 | A paused counter is frozen under ticks, and Run undoes Pause. Toggling twice is the identity, and toggling is Run or Pause depending on the flag. |
| Counter.Reset | source/seven_segment.c:1184-1188 | Reset restores raw and displayed count to the start value and resumes. The other settings are kept. |
| Counter.ResetForgetsTicks | source/seven_segment.c:1184-1188 | Reset after any number of ticks gives the same state as reset before them. |
| Counter.SetCount | source/seven_segment.c:1201-1206 | Start, raw and displayed count become the new value and the counter resumes. The other settings are kept. |
| Counter.SetCountRearms | source/seven_segment.c:1201-1206 | After setCount, a later reset returns to the set value, and a value in range leaves the counter coherent. |
| Counter.SetIncrement | source/seven_segment.c:1217-1219 | Only the increment changes, and the next running tick moves the count by the new value in the current direction. |
| Counter.ChangeDirection | source/seven_segment.c:1232-1238 | "UP" and "DOWN" set the direction. Any other name leaves the counter unchanged. |
| Counter.DirectionSteersTick | source/seven_segment.c:1232-1238 | After a change to "UP" the next tick adds the increment, and after "DOWN" it subtracts it. An unknown name such as "up" leaves the tick as before. |
| Counter.SetStop | source/seven_segment.c:1254-1262 | Stopping is enabled at the new value, and the counter is paused exactly when the raw count already equals it. Everything else is kept. |
| Counter.SetStopHolds | source/seven_segment.c:1254-1262 | A stop set at the current count holds the counter there for good. A stop set elsewhere lets the next tick run. |
| Counter.ClearStop | source/seven_segment.c:1277-1281 | Stopping is disabled, the stop value zeroed and the counter resumed. Everything else is kept. |
| Counter.ClearedNeverHalts | source/seven_segment.c:980-998 | With stopping disabled, no number of ticks pauses the counter, and k ticks move the raw count by k times the signed increment. |
| Counter.ClearStopFrees | source/seven_segment.c:1277-1281 | After clearCountStopValue the counter is never paused again by ticks. |
| Carousel.Configure | source/seven_segment.c:715-740 | It builds the working buffer and logical length L: padded gives 4 lead blanks and L = n + 3, a padded one-shot also gets 4 tail blanks and L = n + 8, and an unpadded continuous carousel gets one loop blank with L = n. The index is -1, the carousel runs and the end flag is kept. Enough buffer gives a valid carousel. |
| Carousel.Advance | source/seven_segment.c:1032-1050 | A running carousel advances the index. In continuous mode it restarts at -1 after reaching L. In one-shot mode it sets the end flag exactly on reaching L - 4. A paused or finished carousel is unchanged, and the invariant is kept. |
| Carousel.Tick | source/seven_segment.c:1031-1051 | Window character k is buffer[(i + k) mod (L + 1)], with i the advanced index. The state moves as Advance says. |
| Carousel.ContinuousRuns | source/seven_segment.c:1032-1048 | A running continuous carousel walks -1, 0, …, L - 1 and around again. After k <= L + 1 interrupts its index is the cyclic successor k places on. |
| Carousel.ContinuousPeriod | source/seven_segment.c:1032-1048 | A running continuous carousel is back in its exact state after L + 1 interrupts. |
| Carousel.TicksCompose | source/seven_segment.c:1031-1051 | j + i interrupts are j interrupts followed by i more. |
| Carousel.TicksKeepBuffer | source/seven_segment.c:1031-1051 | Interrupts never change the buffer, the length or the pause flag. In continuous mode they never change the end flag either. |
| Carousel.OneShotFinishes | source/seven_segment.c:1032-1050 | A running one-shot carousel at index i reaches index L - 4 with the end flag set after L - 4 - i interrupts. |
| Carousel.FinishedIsFrozen | source/seven_segment.c:1032-1035 | Once the end flag is set the index no longer advances, and every later interrupt shows the same window. |
| Carousel.TogglePause | source/seven_segment.c:1300-1302 | Toggling flips the pause flag and nothing else. |
| Carousel.Pause | source/seven_segment.c:1312-1314 | Pausing sets the pause flag and nothing else. |
| Carousel.Run | source/seven_segment.c:1324-1326 | Running clears the pause flag and nothing else. |
| Carousel.PauseControls | source/seven_segment.c:1300-1326 | The pause controls keep the carousel's invariant and toggling twice is the identity. A paused carousel that has started keeps its state under interrupts. |
| Carousel.ReconfiguredPassStalls | source/seven_segment.c:715-768 | A setup after a finished one-shot pass keeps the end flag. The interrupt then never advances and reads at index -1, so the carousel is not ready in either mode. |
| Carousel.ConfigureFresh | source/seven_segment.c:715-768 | The corrected setup builds the same buffer and length and clears the end flag. The result is what restart makes of it, and enough buffer makes it ready to run. |
| Carousel.Restart | source/seven_segment.c:1337-1341 | Restart sets the index to -1, clears the end flag, resumes, and keeps the buffer. A valid carousel becomes ready to run in either mode. |
| Carousel.RestartForgetsTicks | source/seven_segment.c:1337-1341 | Restart after any number of interrupts gives the same state as restart before them. |
| Slider.DroppedIsIsolated | source/seven_segment.c:808-818 | The three drop tests of the setup loop hold exactly for a space with no space on either side, where the ends of the text count as non-spaces. |
| Slider.CollapseKeepsLetters | source/seven_segment.c:807-826 | Ignoring single spaces keeps every non-space character of the text, in order, and never lengthens it. |
| Slider.CollapseKeepsRuns | source/seven_segment.c:807-826 | A text whose spaces all come in runs of two or more is copied unchanged. |
| Slider.CollapseSample | source/seven_segment.c:787 | "A B C D  E F  G" becomes "ABCD  EF  G". |
| Slider.Configure | source/seven_segment.c:794-844 | The buffer is the optional blank page, then the (collapsed) text, then blanks to a page boundary. Its length is the computed L, a multiple of 4. The index is 0 and the slider runs. The slider is valid exactly when padded or the copied text is not empty. |
| Slider.ConfigureKeepsLetters | source/seven_segment.c:797-835 | The paged buffer holds exactly the text's non-space characters, in order. |
| Slider.Advance | source/seven_segment.c:1083-1091 | A running slider moves one page on. Past the last page a continuous slider goes to page 0, and a one-shot slider stays on the last page and pauses. A paused slider is unchanged, and the page-aligned index stays in [0, L - 4]. |
| Slider.Tick | source/seven_segment.c:1077-1091 | Window character k is buffer[index + k], read before the index moves. The state moves as Advance says. |
| Slider.ContinuousRuns | source/seven_segment.c:1083-1087 | After k <= L / 4 interrupts a running continuous slider is k pages further on, modulo the buffer. |
| Slider.ContinuousPeriod | source/seven_segment.c:1083-1087 | A running continuous slider is back in its exact state after L / 4 interrupts. |
| Slider.OneShotStops | source/seven_segment.c:1083-1091 | A running one-shot slider at index i is on the last page and paused after (L - i) / 4 interrupts. |
| Slider.OneShotEnds | source/seven_segment.c:1083-1091 | For every valid running one-shot slider, that many interrupts leave it paused on the last page, showing buffer[L - 4..L]. |
| Slider.PausedHolds | source/seven_segment.c:1083-1091 | A paused slider keeps its state, and shows the same page, under any number of interrupts. |
| Slider.TicksKeepBuffer | source/seven_segment.c:1077-1091 | Interrupts never change the buffer or the length. |
| Slider.Pause | source/seven_segment.c:1360-1362 | Pausing sets the pause flag and nothing else. |
| Slider.TogglePause | source/seven_segment.c:1373-1375 | Toggling flips the pause flag and nothing else. |
| Slider.Run | source/seven_segment.c:1385-1387 | Running clears the pause flag and nothing else. |
| Slider.PauseControls | source/seven_segment.c:1360-1387 | The pause controls keep the invariant, toggling twice is the identity, and a paused slider holds under interrupts. |
| Slider.Restart | source/seven_segment.c:1399-1402 | Restart goes back to index 0, resumes, keeps the buffer, and keeps the slider valid. |
| Slider.RestartForgetsTicks | source/seven_segment.c:1399-1402 | Restart after any number of interrupts gives the same state as restart before them. |
| Device.SetupCounter | source/seven_segment.c:654-692 | The setup does nothing when the counting clock is the refresh clock. Otherwise it configures the counter and shows the start value, which reads back as the start when in range. The carousel, slider and transition settings are untouched. |
| Device.SetupCarousel | source/seven_segment.c:715-768 | The setup does nothing when the transition clock is the refresh clock. Otherwise it configures the carousel with the corrected setup and the shared transition settings, and shows buffer[0..4] (blanks when padded). The carousel is then ready to run. The counter and slider are untouched. |
| Device.SetupSlider | source/seven_segment.c:794-864 | The setup does nothing when the transition clock is the refresh clock. Otherwise it configures a valid slider and the shared transition settings and shows the first page (blanks when padded). The counter and carousel are untouched. |
| Device.RefreshInterrupt | source/seven_segment.c:885-964 | The refresh handler and its three wrappers light the current digit and keep the buffer. Nothing outside the multiplexer changes. |
| Device.CounterInterrupt | source/seven_segment.c:980-1007 | A paused counter changes neither the counts nor the buffer. A running counter ticks, and the buffer then reads back as its displayed count. Nothing else changes. |
| Device.CarouselInterrupt | source/seven_segment.c:1031-1051 | The carousel advances in the mode of the shared flag, stays ready, and the buffer reads back as the window of Carousel.Tick. |
| Device.SliderInterrupt | source/seven_segment.c:1077-1091 | The buffer reads back as the current page, and the slider advances in the mode of the shared flag and stays valid. |
| Device.CounterShowsCount | source/seven_segment.c:654-692 | After a counter setup with a start in range and an increment of at most 10000, the next counting interrupt leaves the display showing the displayed count. |
| Device.PaddedSliderLoops | source/seven_segment.c:794-864 | A padded continuous slider starts on the blank page and is back in its exact state after L / 4 slider interrupts. |

## Left out

- GPIO pin writes are not modelled: digit and segment enables, polarity, and the decimal-point controls. The refresh step keeps only the lit digit and the chosen segment mask.
- `setSevenSegmentType` is not modelled. It acts only at pin level.
- Screen.DisplaySingleCharacter: enables all four digits at once. The model's `lit` field records one multiplexed digit, so it is left as it was.
- Timer peripheral configuration is not modelled, and neither is each handler's timer reload tail. Both are register programming.
- Interrupt masking and interleaving are not modelled. Each handler call is one atomic step.
- The example program with the board clock setup, IRQ wiring and `main` is not part of this model.
- Timer names are the five-value `Clock` enum. An unknown name cannot be expressed, so the C behaviour of storing the settings without binding a timer is not modelled.
- The carousel and slider buffers are fresh sequences. The C arrays are declared with one byte, so their setup writes overflow them and stale tails survive reconfiguration; the model has neither.
- The text length argument is the length of the text sequence. A caller passing a different length is not modelled.
- 32-bit `int` overflow of the counts and increments is not modelled. Integers are unbounded.
- The slider's isolated-space test reads one character past a 1-character text. The model reads a terminator there, i.e. a non-space.
- Carousel.Advance: requires `Ready`, which excludes an interrupt at index -1 while paused or finished (the C code would read buffer[-1]).
- Screen.Refresh: requires a 4-slot buffer and a digit in [0, 3]. A refresh before any 4-character setup is not modelled; at power-on the digit is -1 and the C handler would read chrSequence[-1] (Device.RefreshInterrupt inherits this).
- Device.CarouselInterrupt: requires the carousel to be ready in the mode of the shared flag. A later slider setup can change that flag under a configured carousel, e.g. a padded one-shot buffer has no loop blank and is never ready in continuous mode. What the C code then reads is not modelled.
- Device.SliderInterrupt: requires a valid slider (Slider.Advance and Slider.Tick require it too). An interrupt before any slider setup, at index -1, is not modelled.
- Device.SetupCarousel: clears the end flag of an earlier pass, which the code does not do. The as-written setup is Carousel.Configure; see "## Findings".
- Device.SetupCarousel: requires at least four buffer characters when the clocks differ. With fewer, the C code primes the display from stale memory.
- Device.SetupSlider: requires padding or a non-empty working text when the clocks differ. An empty working text gives L = 0 and a first page read from stale memory.
- Carousel.OneShotFinishes: covers one-shot carousels with L >= 4 only. An unpadded one-shot text shorter than 4 never reaches its end flag.
- Counter.Tick: keeps the displayed count in range only for increments of at most 10000. The single-step wrap under-normalizes larger ones, as the code does.

## Findings

| source | as written | input that shows it | evidently intended | confidence | as-written member | corrected member |
|---|---|---|---|---|---|---|
| source/seven_segment.c:715-768 | The carousel setup never clears `carouselOverflow`, which only `restartCarousel` (1339) does. | A one-shot pass runs to its end, then the carousel is set up again in either mode. The interrupt no longer advances, so it reads its window at `carouselSequence[-1]` on every call (1032-1042). | A new setup starts a fresh pass with the end flag cleared. | medium, not executed | Carousel.ReconfiguredPassStalls | Carousel.ConfigureFresh |
