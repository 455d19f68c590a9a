# Carousel state machine

A model of the slideshow widget in `carousel/core.js`, class `Carousel`, with the DOM stripped
away. One instance is a small sequential state machine. Its state is the current slide index,
`isPlaying`, the interval handle `#timerId`, the hover memo `#wasPlayingOnHover`, the "active"
class of every slide and every indicator item, which of the pause and play icons is visible,
and each indicator's `data-slide-to`.

The project has four modules:

- `JsNumber` (`jsnumber.dfy`): JavaScript's truncated `%`. The index computation
  `(n + count) % count` uses it, and it differs from Dafny's Euclidean `%` on a negative
  dividend that the divisor does not divide.
- `CarouselModel` (`carousel_model.dfy`): the pure specification. `Snapshot` is the state as a
  value. Each navigation method, handler and public method other than `init()` is a function
  from one snapshot to the next; `init()` is `Initial`, built from the settings. `Invariant`
  is the consistency every event handler preserves. A `Step` function over an `Event` datatype
  stands for the listeners that `#initEventListeners` registers.
- `CarouselProperties` (`carousel_properties.dfy`): lemmas about those functions, and `Run`,
  the state after any sequence of events.
- `CarouselCore` (`carousel_core.dfy`): the class `Carousel`. Slides and indicator items are
  `array<bool>` active flags, toggled in place as `classList.toggle` does. Every handler,
  navigation and public method is proved to change the state as its `CarouselModel` counterpart
  says (`Snap() == Spec.X(old(Snap()))`), and the handlers and public methods keep `Valid()`.
  The constructor and the `#init…` steps state the fields they set, and `Init` ties the result
  to `CarouselModel.Initial`. Each method's `modifies` clause names only the fields it writes,
  so a caller can invoke handlers one after another. Four client methods (`FiveSlideClient`,
  `WrapClient`, `KeyClient`, `HoverAndClickClient`) do that through these contracts alone.

The interval timer is a boolean handle (`timerSet`) plus a ghost count `intervals` of this
instance's `setInterval` timers the browser is running. The count shows that the guard in
`#tick` never starts a second interval and that `pause()` always stops the one that runs.

Five behaviours of the code that a reader might not expect:

- Slide 0 is active only because the markup says so. `init` never sets a slide's active class;
  it marks only indicator 0. `Init` therefore requires that exactly slide 0 is active.
- An indicator click is recognised by the class of `e.target` itself. A click on the thumbnail
  `<img>` nested inside an indicator has the image as its target, so it is ignored: no pause and
  no jump. `ClickTarget.Elsewhere` covers that case.
- An indicator click still goes through the wrap-around of `#gotoNth`. For the indices that
  `#initIndicators` writes, the wrap-around leaves the index unchanged (`WrapIndex`).
- With `pauseOnHover`, a pause made while the pointer is over the carousel does not last.
  Entering a playing carousel records `true`, so leaving it calls `play()` even after the user
  paused with Space or the pause button, or navigated with next, prev or an indicator, in
  between. `HoverUndoesManualPause` states this for Space twice and for an indicator click.
- Nothing guards against zero slides. With none, the first tick or navigation dereferences
  `slides[0]`, which is undefined. The model requires at least one slide.

## Model

| member | source | states |
|---|---|---|
| JsNumber.Rem | carousel/core.js:158 | JavaScript `%` for a positive divisor: the dividend is the truncated quotient times the divisor plus the remainder, and the remainder lies strictly between minus and plus the divisor and has the dividend's sign |
| JsNumber.RemAgreesWhenNonNegative | carousel/core.js:158 | on a non-negative dividend the JavaScript remainder equals Dafny's `%` |
| JsNumber.RemNegativeDividend | carousel/core.js:158 | on a negative dividend that the divisor does not divide, the JavaScript remainder is negative (the divisor below Dafny's), so `(n + count) % count` is negative, and not an index, for every `n < -count` with `n + count` not a multiple of `count` |
| CarouselModel.WrapIndex | carousel/core.js:158 | for `count >= 1` and `n >= -count`, the index `(n + count) % count` lies in `[0, count)`, equals `n` modulo `count`, and equals `n` when `n` is already in range |
| CarouselModel.Toggled | carousel/core.js:156-160 | toggling a class flips exactly that element's flag and leaves every other element and the length alone |
| CarouselModel.Initial | carousel/core.js:51-124 | the state `init()` sets up through its `#init…` steps and the closing `#tick` (carousel/core.js:246-252): index 0, icon and timer following `isPlaying`, only indicator 0 active, indicator `i` leading to slide `i`; it satisfies the invariant |
| CarouselProperties.ToggleTwice | carousel/core.js:156-160 | toggling the same element twice restores every flag |
| CarouselProperties.MoveMarker | carousel/core.js:155-161 | toggling the only marked element and then element `k` leaves exactly `k` marked, also when they are the same element |
| CarouselProperties.GotoNthMovesMarkers | carousel/core.js:155-161 | if exactly one slide and one indicator are active, both at the current index, then after `#gotoNth(n)` exactly one of each is active, both at `n mod count`; no other flag and no other field changes |
| CarouselProperties.GotoCurrentChangesNothing | carousel/core.js:155-161 | going to the current index leaves the whole state unchanged, because the two toggles cancel |
| CarouselProperties.GotoNextPrevWrap | carousel/core.js:163-169 | `#gotoNext` moves to `(current + 1) mod count` and `#gotoPrev` to `(current - 1) mod count`; from the last slide next goes to 0, from slide 0 prev goes to the last |
| CarouselProperties.PauseSpec | carousel/core.js:221-227 | `pause()` is a no-op when paused; otherwise it ends with `isPlaying` false, no timer handle, the held interval cleared and the play icon shown, nothing else changed; pausing twice is pausing once |
| CarouselProperties.PlaySpec | carousel/core.js:229-234 | `play()` is a no-op when playing; otherwise it ends with `isPlaying` true, the pause icon shown and a timer handle held, starting an interval only if none was held, nothing else changed; playing twice is playing once |
| CarouselProperties.PlayPauseRoundTrip | carousel/core.js:221-234 | from a consistent paused state `play()` then `pause()` restores the state exactly, and from a playing one `pause()` then `play()` does |
| CarouselProperties.PausePlayKeepInvariant | carousel/core.js:217-219 | `pause`, `play` and `pausePlay` keep the invariant, and `pausePlay` flips `isPlaying` |
| CarouselProperties.GotoNthKeepsInvariant | carousel/core.js:155-161 | `#gotoNth` keeps the invariant for every index its callers pass |
| CarouselProperties.NextPrevPause | carousel/core.js:236-244 | `next()` and `prev()` always end paused with no timer handle and no interval running, at the index moved by +1 / -1 with wrap-around, and keep the invariant |
| CarouselProperties.FireAdvances | carousel/core.js:203 | the interval callback advances the index by one with wrap-around and leaves `isPlaying`, the handle, the running intervals and the icons unchanged |
| CarouselProperties.HoverRoundTrip | carousel/core.js:139-151 | mouse-enter records `isPlaying` and leaves the carousel paused; enter then leave restores the state entered from, except that the memo is back to `null` |
| CarouselProperties.LeaveResumesOnlyIfRecorded | carousel/core.js:146-151 | mouse-leave always resets the memo to `null`; with no prior enter it changes nothing, after an enter that found the carousel paused it changes only the memo, and after one that found it playing the carousel plays again |
| CarouselProperties.KeydownDispatch | carousel/core.js:182-195 | the default action is suppressed exactly for Space, ArrowLeft and ArrowRight; ArrowLeft is `prev`, ArrowRight is `next`, Space flips `isPlaying`; any other key changes nothing |
| CarouselProperties.IndicatorClickJumps | carousel/core.js:173-180 | a click on indicator `p` leaves the carousel paused with no interval running, showing slide `p` with slide and indicator `p` active; a click on anything else changes nothing; the invariant is kept |
| CarouselModel.Step | carousel/core.js:126-137 | the wiring of the listeners: without `pauseOnHover` the hover events reach no handler and change nothing; an interval tick changes nothing unless an interval of this instance runs, and otherwise advances one slide with wrap-around |
| CarouselProperties.StepPreservesInvariant | carousel/core.js:126-137 | every event the registered listeners deliver keeps the invariant and the slide count |
| CarouselProperties.Run | carousel/core.js:126-137 | after any sequence of events from a consistent state the state is consistent again, with the same slide count and hover setting |
| CarouselProperties.TimerIffPlaying | carousel/core.js:246-252 | after `init()` and any sequence of events, a timer handle is held exactly while playing, at most one interval runs, and exactly one slide and one indicator are active at the same index |
| CarouselProperties.FiveSlideScenario | carousel/core.js:236-244 | five slides, playing: one tick shows slide 1, two `prev()` calls then show slide 4 paused, and a click on indicator 3 from the start shows slide 3 paused |
| CarouselProperties.HoverScenario | carousel/core.js:133-151 | with `pauseOnHover`, hovering a playing carousel pauses it and leaving resumes it, while a paused one stays paused; without it, hover events change nothing |
| CarouselProperties.HoverUndoesManualPause | carousel/core.js:139-151 | with `pauseOnHover`, a pause made while the pointer is inside (Space pressed twice, or an indicator click) lasts only until the pointer leaves: leaving plays again, at the clicked slide |
| CarouselCore.Carousel.constructor | carousel/core.js:36-47 | the instance keeps the slides, interval, `isPlaying` and `pauseOnHover` it was given, holds no timer and has a `null` hover memo |
| CarouselCore.Carousel.InitProps | carousel/core.js:51-62 | sets the index to 0 and the slide count to the number of slides |
| CarouselCore.Carousel.InitControls | carousel/core.js:64-93 | the pause icon is visible exactly when `isPlaying`, the play icon exactly when not |
| CarouselCore.Carousel.InitIndicators | carousel/core.js:95-124 | builds one fresh indicator per slide, only indicator 0 active, indicator `i` with `data-slide-to` `i` |
| CarouselCore.Carousel.Init | carousel/core.js:246-252 | from the constructed state and markup with only slide 0 active, `init()` establishes `Valid()` and exactly the state `Initial` describes |
| CarouselCore.Carousel.GotoNth | carousel/core.js:155-161 | toggles slide and indicator flags in place and moves the index exactly as `CarouselModel.GotoNth` says |
| CarouselCore.Carousel.Toggle | carousel/core.js:156 | flips one element's active flag in place and nothing else |
| CarouselCore.Carousel.GotoNext | carousel/core.js:163-165 | the state afterwards is `CarouselModel.GotoNext` of the state before |
| CarouselCore.Carousel.GotoPrev | carousel/core.js:167-169 | the state afterwards is `CarouselModel.GotoPrev` of the state before |
| CarouselCore.Carousel.IndicatorClick | carousel/core.js:173-180 | keeps `Valid()`, and the state afterwards is `CarouselModel.IndicatorClick` of the state before |
| CarouselCore.Carousel.Keydown | carousel/core.js:182-195 | keeps `Valid()`, reports whether the default action was prevented, and the state afterwards is `CarouselModel.Keydown` of the state before |
| CarouselCore.Carousel.OnSlideMouseEnter | carousel/core.js:139-144 | keeps `Valid()`, and the state afterwards is `CarouselModel.MouseEnter` of the state before |
| CarouselCore.Carousel.OnSlideMouseLeave | carousel/core.js:146-151 | keeps `Valid()`, and the state afterwards is `CarouselModel.MouseLeave` of the state before |
| CarouselCore.Carousel.IntervalFired | carousel/core.js:203 | while an interval of this instance runs, its callback keeps `Valid()` and changes the state as `CarouselModel.Fire` says |
| CarouselCore.Carousel.Tick | carousel/core.js:199-204 | starts an interval and keeps its handle only when playing and holding none, as `CarouselModel.Tick` says |
| CarouselCore.Carousel.PauseVisible | carousel/core.js:206-209 | the pause icon's visibility becomes `isVisible` and the play icon's the opposite |
| CarouselCore.Carousel.PlayVisible | carousel/core.js:211-213 | shows the play icon and hides the pause icon |
| CarouselCore.Carousel.PausePlay | carousel/core.js:217-219 | keeps `Valid()`, and the state afterwards is `CarouselModel.PausePlay` of the state before |
| CarouselCore.Carousel.Pause | carousel/core.js:221-227 | keeps `Valid()`, and the state afterwards is `CarouselModel.Pause` of the state before |
| CarouselCore.Carousel.Play | carousel/core.js:229-234 | keeps `Valid()`, and the state afterwards is `CarouselModel.Play` of the state before |
| CarouselCore.Carousel.Next | carousel/core.js:236-239 | keeps `Valid()`, and the state afterwards is `CarouselModel.Next` of the state before |
| CarouselCore.Carousel.Prev | carousel/core.js:241-244 | keeps `Valid()`, and the state afterwards is `CarouselModel.Prev` of the state before |

## Left out

- DOM construction and lookup are not modelled: markup strings, `createElement`, `innerHTML`, `querySelector`, `append`. Only their effect on the state's flags and fields is modelled.
- Thumbnails are not modelled: the indicator `<img>`, its `src` and its `alt` text. They carry no state.
- Event-listener registration and the event loop are not modelled. The handlers are methods that can be called directly. `CarouselModel.Step` states which handler each event reaches, including that hover events reach theirs only when `pauseOnHover` is set.
- Real time and the semantics of `setInterval`/`clearInterval` are not modelled. An interval is a handle plus a count of running intervals, and a tick is the explicit `IntervalFired` call. `interval` is kept but used for nothing.
- Icon opacity is a boolean per icon, not the numbers 0 and 1 and not CSS.
- The settings merge with `DEFAULT_SETTINGS` is left out: the constructor takes the merged values. So are the `KEYS`, `CSS_CLASSES` and `ELEMENT_IDS` constants, because `./helpers/config.js` is not part of this model. Key codes appear as the `Key` datatype.
- `+target.dataset.slideTo` is modelled as the integer that `#initIndicators` stored. The round trip through a string is not modelled.
- The swipe extension (`./swipe.js`), `carousel/index.js` and `main.js` are left out. The first is not part of this model; the other two only re-export and configure.
- A container selector that matches nothing is not modelled. The source then fails with a null dereference in the constructor. A slide selector that matches nothing gives zero slides (next line).
- Zero slides is not modelled. The source dereferences `slides[0]` on the first navigation or tick, and `Init` requires at least one slide.
- Calling `init()` twice is not modelled: `Init` runs once, from the constructed state. Listener leaks are a lifecycle concern with no state to model.
- JsNumber.Rem: defined only for a positive divisor. The source divides only by the slide count, which is at least one.
- A handler or public method called before `init()` is not modelled: every one of them requires `Valid()`, which only `Init` establishes. The source registers no listener before `init()`. Called directly before it, `pausePlay()`, and `next()`/`prev()` on a playing instance, throw on the undefined `#pauseIcon` (carousel/core.js:207); `next()`/`prev()` on a paused one throw on `slides[undefined]` (carousel/core.js:156).
