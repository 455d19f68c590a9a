/** The class `Carousel` of carousel/core.js with its DOM stripped away.
    The slide elements and the indicator items are arrays of "has the active class" flags, the
    timer handle `#timerId` is a boolean. Every handler, navigation and public method is proved
    to change the state exactly as its counterpart in CarouselModel says (`Init` as `Initial`,
    the hover handlers as `MouseEnter`/`MouseLeave`, the interval callback as `Fire`); the
    constructor and the `#init...` steps state the fields they set. */
module CarouselCore {
  import JsNumber
  import Spec = CarouselModel
  import CarouselProperties

  class Carousel {
    /** The slide elements found in the container (`this.slides`), as active flags. */
    const slides: array<bool>
    /** `TIMER_INTERVAL`, in milliseconds; only passed to `setInterval`. */
    const interval: int
    const pauseOnHover: bool
    var isPlaying: bool

    var currentSlide: int
    /** `#SLIDES_COUNT` */
    var count: nat
    /** Whether `#timerId` holds an interval handle. */
    var timerSet: bool
    /** The number of this instance's `setInterval` timers the browser is running. */
    ghost var intervals: int
    /** `#wasPlayingOnHover` */
    var hoverMemo: Spec.Option<bool>
    /** Whether the pause icon and the play icon are visible. */
    var pauseIconVisible: bool
    var playIconVisible: bool
    /** The indicator items (`#indicatorItems`), as active flags, and their `data-slide-to`. */
    var indicators: array<bool>
    var slideTo: seq<int>

    /** Whether `init()` has run. */
    ghost var initialized: bool

    /** The state of this carousel as a value. */
    ghost function Snap(): Spec.Snapshot
      reads this, slides, indicators
    {
      Spec.Snapshot(currentSlide, isPlaying, timerSet, intervals, hoverMemo,
                    pauseIconVisible, playIconVisible, slides[..], indicators[..], slideTo,
                    pauseOnHover)
    }

    /** Initialised: the slide count is the number of slides and the state is shaped. */
    ghost predicate Ready()
      reads this, slides, indicators
    {
      initialized && count == slides.Length && slides != indicators && Spec.Shaped(Snap())
    }

    /** Initialised and consistent: what holds between any two events. */
    ghost predicate Valid()
      reads this, slides, indicators
    {
      Ready() && Spec.Invariant(Snap())
    }

    /** `new Carousel(options)`, with the settings already merged and the slides looked up. */
    constructor (slides: array<bool>, interval: int, isPlaying: bool, pauseOnHover: bool)
      ensures this.slides == slides && this.interval == interval
      ensures this.isPlaying == isPlaying && this.pauseOnHover == pauseOnHover
      ensures !timerSet && intervals == 0 && hoverMemo == Spec.None && !initialized
    {
      this.slides := slides;
      this.interval := interval;
      this.isPlaying := isPlaying;
      this.pauseOnHover := pauseOnHover;
      currentSlide, count := 0, 0;
      timerSet, intervals := false, 0;
      hoverMemo := Spec.None;
      pauseIconVisible, playIconVisible := false, false;
      indicators := new bool[0];
      slideTo := [];
      initialized := false;
    }

    // ---- private initialisation ----

    /** `#initProps()` */
    method InitProps()
      modifies this`currentSlide, this`count
      ensures currentSlide == 0 && count == slides.Length
    {
      currentSlide := 0;
      count := slides.Length;
    }

    /** `#initControls()`: the visible icon follows the configured `isPlaying`. */
    method InitControls()
      modifies this`pauseIconVisible, this`playIconVisible
      ensures pauseIconVisible == isPlaying && playIconVisible == !isPlaying
    {
      if isPlaying {
        PauseVisible(true);
      } else {
        PlayVisible();
      }
    }

    /** `#initIndicators()`: one indicator per slide, indicator `i` leading to slide `i`, only
        indicator 0 active. */
    method InitIndicators()
      modifies this`indicators, this`slideTo
      ensures fresh(indicators) && indicators.Length == count
      ensures forall i :: 0 <= i < count ==> (indicators[i] <==> i == 0)
      ensures slideTo == Spec.Positions(count)
    {
      var items := new bool[count];
      var targets := [];
      var i := 0;
      while i < count
        invariant 0 <= i <= count && |targets| == i
        invariant forall j :: 0 <= j < i ==> (items[j] <==> j == 0) && targets[j] == j
      {
        items[i] := i == 0;
        targets := targets + [i];
        i := i + 1;
      }
      indicators, slideTo := items, targets;
    }

    /** `init()`, from the state the constructor leaves and markup in which only the first slide
        is active. */
    method Init()
      requires !initialized && !timerSet && intervals == 0 && hoverMemo == Spec.None
      requires slides.Length >= 1 && forall i :: 0 <= i < slides.Length ==> (slides[i] <==> i == 0)
      modifies this`currentSlide, this`count, this`pauseIconVisible, this`playIconVisible,
               this`indicators, this`slideTo, this`initialized, this`timerSet, this`intervals
      ensures Valid() && fresh(indicators) && isPlaying == old(isPlaying)
      ensures Snap() == Spec.Initial(slides.Length, isPlaying, pauseOnHover)
    {
      InitProps();
      InitControls();
      InitIndicators();
      // #initEventListeners() registers the handlers below; it changes no state.
      initialized := true;
      Tick();
      assert slides[..] == Spec.Marker(count, 0);
      assert indicators[..] == Spec.Marker(count, 0);
    }

    // ---- private navigation ----

    /** `#gotoNth(n)` */
    method GotoNth(n: int)
      requires Ready() && n + count >= 0
      modifies this`currentSlide, slides, indicators
      ensures Ready() && Snap() == Spec.GotoNth(old(Snap()), n)
    {
      Toggle(slides, currentSlide);
      Toggle(indicators, currentSlide);
      currentSlide := JsNumber.Rem(n + count, count);
      Toggle(slides, currentSlide);
      Toggle(indicators, currentSlide);
    }

    /** `classList.toggle` of the active class on element `i` of a collection. */
    static method Toggle(flags: array<bool>, i: int)
      requires 0 <= i < flags.Length
      modifies flags
      ensures flags[..] == Spec.Toggled(old(flags[..]), i)
    {
      flags[i] := !flags[i];
    }

    /** `#gotoNext()` */
    method GotoNext()
      requires Ready()
      modifies this`currentSlide, slides, indicators
      ensures Ready() && Snap() == Spec.GotoNext(old(Snap()))
    {
      GotoNth(currentSlide + 1);
    }

    /** `#gotoPrev()` */
    method GotoPrev()
      requires Ready()
      modifies this`currentSlide, slides, indicators
      ensures Ready() && Snap() == Spec.GotoPrev(old(Snap()))
    {
      GotoNth(currentSlide - 1);
    }

    // ---- private event handlers ----

    /** `#indicatorClick(e)` */
    method IndicatorClick(target: Spec.ClickTarget)
      requires Valid()
      requires target.IndicatorItem? ==> 0 <= target.position < count
      modifies this`currentSlide, this`isPlaying, this`timerSet, this`intervals,
               this`pauseIconVisible, this`playIconVisible, slides, indicators
      ensures Valid() && Snap() == Spec.IndicatorClick(old(Snap()), target)
    {
      CarouselProperties.IndicatorClickJumps(Snap(), target);
      if target.IndicatorItem? {
        Pause();
        GotoNth(slideTo[target.position]);
      }
    }

    /** `#keydown(e)`; `prevented` says whether `e.preventDefault()` was called. */
    method Keydown(code: Spec.Key) returns (prevented: bool)
      requires Valid()
      modifies this`currentSlide, this`isPlaying, this`timerSet, this`intervals,
               this`pauseIconVisible, this`playIconVisible, slides, indicators
      ensures Valid() && Snap() == Spec.Keydown(old(Snap()), code)
      ensures prevented == Spec.PreventsDefault(code)
    {
      CarouselProperties.KeydownDispatch(Snap(), code);
      var isCarouselKey := code in [Spec.ArrowLeft, Spec.ArrowRight, Spec.Space];
      prevented := false;
      if isCarouselKey {
        prevented := true;
        if code == Spec.ArrowLeft {
          Prev();
        }
        if code == Spec.ArrowRight {
          Next();
        }
        if code == Spec.Space {
          PausePlay();
        }
      }
    }

    /** `#onSlideMouseEnter()` */
    method OnSlideMouseEnter()
      requires Valid()
      modifies this`hoverMemo, this`isPlaying, this`timerSet, this`intervals,
               this`pauseIconVisible, this`playIconVisible
      ensures Valid() && Snap() == Spec.MouseEnter(old(Snap()))
    {
      CarouselProperties.HoverRoundTrip(Snap());
      hoverMemo := Spec.Some(isPlaying);
      if isPlaying {
        Pause();
      }
    }

    /** `#onSlideMouseLeave()` */
    method OnSlideMouseLeave()
      requires Valid()
      modifies this`hoverMemo, this`isPlaying, this`timerSet, this`intervals,
               this`pauseIconVisible, this`playIconVisible
      ensures Valid() && Snap() == Spec.MouseLeave(old(Snap()))
    {
      CarouselProperties.LeaveResumesOnlyIfRecorded(Snap());
      if hoverMemo == Spec.Some(true) {
        Play();
      }
      hoverMemo := Spec.None;
    }

    /** The callback of the interval `#tick` starts: `this.#gotoNext()`. It runs only while
        the browser runs one of this instance's intervals. */
    method IntervalFired()
      requires Valid() && intervals > 0
      modifies this`currentSlide, this`isPlaying, this`timerSet, this`intervals,
               this`pauseIconVisible, this`playIconVisible, slides, indicators
      ensures Valid() && Snap() == Spec.Fire(old(Snap()))
    {
      CarouselProperties.FireAdvances(Snap());
      GotoNext();
    }

    // ---- private UI methods ----

    /** `#tick()`: `setInterval` starts one more interval and its handle is kept. */
    method Tick()
      modifies this`timerSet, this`intervals
      ensures Snap() == Spec.Tick(old(Snap()))
    {
      if !isPlaying {
        return;
      }
      if timerSet {
        return;
      }
      timerSet := true;
      intervals := intervals + 1;
    }

    /** `#pauseVisible(isVisible)` */
    method PauseVisible(isVisible: bool)
      modifies this`pauseIconVisible, this`playIconVisible
      ensures Snap() == Spec.PauseVisible(old(Snap()), isVisible)
    {
      pauseIconVisible := isVisible;
      playIconVisible := !isVisible;
    }

    /** `#playVisible()` */
    method PlayVisible()
      modifies this`pauseIconVisible, this`playIconVisible
      ensures Snap() == Spec.PauseVisible(old(Snap()), false)
    {
      PauseVisible(false);
    }

    // ---- public API ----

    /** `pausePlay()` */
    method PausePlay()
      requires Valid()
      modifies this`isPlaying, this`timerSet, this`intervals, this`pauseIconVisible, this`playIconVisible
      ensures Valid() && Snap() == Spec.PausePlay(old(Snap()))
    {
      if isPlaying {
        Pause();
      } else {
        Play();
      }
    }

    /** `pause()`: `clearInterval(#timerId)` stops the held interval, if any. */
    method Pause()
      requires Valid()
      modifies this`isPlaying, this`timerSet, this`intervals, this`pauseIconVisible, this`playIconVisible
      ensures Valid() && Snap() == Spec.Pause(old(Snap()))
    {
      CarouselProperties.PausePlayKeepInvariant(Snap());
      if !isPlaying {
        return;
      }
      PlayVisible();
      isPlaying := false;
      if timerSet {
        intervals := intervals - 1;
      }
      timerSet := false;
    }

    /** `play()` */
    method Play()
      requires Valid()
      modifies this`isPlaying, this`timerSet, this`intervals, this`pauseIconVisible, this`playIconVisible
      ensures Valid() && Snap() == Spec.Play(old(Snap()))
    {
      CarouselProperties.PausePlayKeepInvariant(Snap());
      if isPlaying {
        return;
      }
      PauseVisible(true);
      isPlaying := true;
      Tick();
    }

    /** `next()` */
    method Next()
      requires Valid()
      modifies this`currentSlide, this`isPlaying, this`timerSet, this`intervals,
               this`pauseIconVisible, this`playIconVisible, slides, indicators
      ensures Valid() && Snap() == Spec.Next(old(Snap()))
    {
      CarouselProperties.NextPrevPause(Snap());
      Pause();
      GotoNext();
    }

    /** `prev()` */
    method Prev()
      requires Valid()
      modifies this`currentSlide, this`isPlaying, this`timerSet, this`intervals,
               this`pauseIconVisible, this`playIconVisible, slides, indicators
      ensures Valid() && Snap() == Spec.Prev(old(Snap()))
    {
      CarouselProperties.NextPrevPause(Snap());
      Pause();
      GotoPrev();
    }
  }

  /** A client that lets a playing carousel of five slides tick once and then calls `prev()`,
      using only the contracts above. */
  method FiveSlideClient()
  {
    var slides := new bool[5](i => i == 0);
    var c := new Carousel(slides, 3000, true, true);
    c.Init();
    ghost var s := c.Snap();
    CarouselProperties.FireAdvances(s);
    c.IntervalFired();
    assert c.currentSlide == 1 && c.isPlaying;
    s := c.Snap();
    c.Prev();
    CarouselProperties.NextPrevPause(s);
    assert c.currentSlide == 0 && !c.isPlaying && !c.timerSet && slides[0] && c.indicators[0];
  }

  /** A client calling `prev()` on the first of five slides: it wraps to the last one. */
  method WrapClient()
  {
    var slides := new bool[5](i => i == 0);
    var c := new Carousel(slides, 3000, true, true);
    c.Init();
    ghost var s := c.Snap();
    CarouselProperties.GotoNextPrevWrap(Spec.Pause(s));
    c.Prev();
    assert c.currentSlide == 4 && !c.isPlaying && !c.timerSet && slides[4] && !slides[0];
  }

  /** A client pressing Space twice on a playing carousel: pause, then play again. */
  method KeyClient()
  {
    var slides := new bool[5](i => i == 0);
    var c := new Carousel(slides, 3000, true, true);
    c.Init();
    ghost var s := c.Snap();
    CarouselProperties.KeydownDispatch(s, Spec.Space);
    var prevented := c.Keydown(Spec.Space);
    assert prevented && !c.isPlaying && !c.timerSet;
    s := c.Snap();
    CarouselProperties.KeydownDispatch(s, Spec.Space);
    prevented := c.Keydown(Spec.Space);
    assert prevented && c.isPlaying && c.timerSet;
    s := c.Snap();
    CarouselProperties.KeydownDispatch(s, Spec.OtherKey);
    prevented := c.Keydown(Spec.OtherKey);
    assert !prevented && c.Snap() == s;
  }

  /** A client hovering in and out of a playing carousel, then click indicator 3. */
  method HoverAndClickClient()
  {
    var slides := new bool[5](i => i == 0);
    var c := new Carousel(slides, 3000, true, true);
    c.Init();
    ghost var s := c.Snap();
    CarouselProperties.HoverRoundTrip(s);
    c.OnSlideMouseEnter();
    assert !c.isPlaying && !c.timerSet;
    c.OnSlideMouseLeave();
    assert c.Snap() == s.(hoverMemo := Spec.None);
    s := c.Snap();
    CarouselProperties.IndicatorClickJumps(s, Spec.IndicatorItem(3));
    c.IndicatorClick(Spec.IndicatorItem(3));
    assert c.currentSlide == 3 && !c.isPlaying && slides[3] && c.indicators[3];
  }
}
