/** The carousel of carousel/core.js as a pure state machine.
    A `Snapshot` is everything a `Carousel` instance keeps once the DOM is stripped away;
    each navigation method, event handler and public method of the class other than `init()`
    is a function from one snapshot to the next, and `init()` is `Initial`, built from the
    settings. The class in module CarouselCore is proved to implement exactly these functions;
    its constructor and `#init...` steps have no counterpart here. */
module CarouselModel {
  import JsNumber

  datatype Option<T> = None | Some(value: T)

  /** The `code` of a keydown event, as far as the carousel tells codes apart. */
  datatype Key = Space | ArrowLeft | ArrowRight | OtherKey

  /** The `target` of a click inside the indicator list: an indicator item (the element at
      `position` in the list of indicator items), or anything else, which includes no target at
      all and a thumbnail image nested inside an indicator. */
  datatype ClickTarget = IndicatorItem(position: int) | Elsewhere

  /** The state of one carousel.
      current     -- `#currentSlide`
      playing     -- `isPlaying`
      timer       -- whether `#timerId` holds a handle
      intervals   -- how many `setInterval` timers of this instance the browser is running
      hoverMemo   -- `#wasPlayingOnHover` (None is `null`)
      pauseIcon, playIcon -- whether the pause and the play icon are visible (opacity 1)
      slides, indicators  -- whether each slide / indicator element has the active class
      slideTo     -- the `data-slide-to` value of each indicator item, as a number
      pauseOnHover -- the `pauseOnHover` setting */
  datatype Snapshot = Snapshot(
    current: int, playing: bool, timer: bool, intervals: int, hoverMemo: Option<bool>,
    pauseIcon: bool, playIcon: bool, slides: seq<bool>, indicators: seq<bool>,
    slideTo: seq<int>, pauseOnHover: bool)

  /** `classList.toggle` on element `i` of a collection. */
  function Toggled(flags: seq<bool>, i: int): (r: seq<bool>)
    requires 0 <= i < |flags|
    ensures |r| == |flags| && r[i] == !flags[i]
    ensures forall j :: 0 <= j < |r| && j != i ==> r[j] == flags[j]
  {
    flags[i := !flags[i]]
  }

  /** Exactly element `k` is flagged. */
  predicate OneHot(flags: seq<bool>, k: int)
  {
    0 <= k < |flags| && forall j :: 0 <= j < |flags| ==> (flags[j] <==> j == k)
  }

  /** `count` flags of which only the one at `k` is set. */
  function Marker(count: nat, k: int): (r: seq<bool>)
    requires 0 <= k < count
    ensures |r| == count && OneHot(r, k)
  {
    seq(count, j => j == k)
  }

  /** The positions `0, 1, ..., count - 1`. */
  function Positions(count: nat): (r: seq<int>)
    ensures |r| == count && forall i :: 0 <= i < count ==> r[i] == i
  {
    seq(count, i => i)
  }

  /** The new index `(n + count) % count` of `#gotoNth`, with JavaScript's `%`. For every
      argument the callers pass (`n >= -count`) it is the mathematical residue of `n`. */
  function WrapIndex(n: int, count: int): (k: int)
    requires count >= 1 && n >= -count
    ensures 0 <= k < count
    ensures k == n % count
    ensures 0 <= n < count ==> k == n
  {
    var k := JsNumber.Rem(n + count, count);
    var q := JsNumber.Quot(n + count, count);
    assert n == (q - 1) * count + k;
    JsNumber.ModUnique(n, count, q - 1, k);
    k
  }

  /** The shape an initialised carousel has: one indicator and one `data-slide-to` per slide, at
      least one slide, and a current index naming one of them. */
  predicate Shaped(s: Snapshot)
  {
    |s.slides| >= 1 && |s.indicators| == |s.slides| && |s.slideTo| == |s.slides| &&
    0 <= s.current < |s.slides|
  }

  /** The invariant every public operation and event handler keeps: the slide and the indicator
      at `current` are the only active ones, indicator `i` leads to slide `i`, a timer handle
      exists exactly while playing and then exactly one interval runs, and the visible icon is
      the pause icon exactly while playing. */
  predicate Invariant(s: Snapshot)
  {
    Shaped(s) &&
    OneHot(s.slides, s.current) && OneHot(s.indicators, s.current) &&
    (forall i :: 0 <= i < |s.slideTo| ==> s.slideTo[i] == i) &&
    (s.timer <==> s.playing) &&
    s.intervals == (if s.timer then 1 else 0) &&
    s.pauseIcon == s.playing && s.playIcon == !s.playing
  }

  /** The state `init()` establishes for `count` slides (only the first marked active in the
      markup), the configured `isPlaying` and `pauseOnHover`. */
  function Initial(count: nat, playing: bool, pauseOnHover: bool): (s: Snapshot)
    requires count >= 1
    ensures Invariant(s) && |s.slides| == count && s.current == 0 && s.playing == playing
  {
    Snapshot(0, playing, playing, if playing then 1 else 0, None, playing, !playing,
             Marker(count, 0), Marker(count, 0), Positions(count), pauseOnHover)
  }

  // ---- private navigation ----

  /** `#gotoNth(n)`: toggle the old slide and indicator, move, toggle the new ones. */
  function GotoNth(s: Snapshot, n: int): Snapshot
    requires Shaped(s) && n >= -|s.slides|
  {
    var k := WrapIndex(n, |s.slides|);
    s.(current := k,
       slides := Toggled(Toggled(s.slides, s.current), k),
       indicators := Toggled(Toggled(s.indicators, s.current), k))
  }

  /** `#gotoNext()` */
  function GotoNext(s: Snapshot): Snapshot
    requires Shaped(s)
  {
    GotoNth(s, s.current + 1)
  }

  /** `#gotoPrev()` */
  function GotoPrev(s: Snapshot): Snapshot
    requires Shaped(s)
  {
    GotoNth(s, s.current - 1)
  }

  // ---- private timer and icons ----

  /** `#tick()`: start an interval unless paused or one is already held. */
  function Tick(s: Snapshot): Snapshot
  {
    if !s.playing then s
    else if s.timer then s
    else s.(timer := true, intervals := s.intervals + 1)
  }

  /** `#pauseVisible(isVisible)`; `#playVisible()` is `PauseVisible(s, false)`. */
  function PauseVisible(s: Snapshot, isVisible: bool): Snapshot
  {
    s.(pauseIcon := isVisible, playIcon := !isVisible)
  }

  // ---- public API ----

  /** `pause()`: `clearInterval` stops the held interval, if any. */
  function Pause(s: Snapshot): Snapshot
  {
    if !s.playing then s
    else
      PauseVisible(s, false).(playing := false, timer := false,
                              intervals := if s.timer then s.intervals - 1 else s.intervals)
  }

  /** `play()` */
  function Play(s: Snapshot): Snapshot
  {
    if s.playing then s
    else Tick(PauseVisible(s, true).(playing := true))
  }

  /** `pausePlay()` */
  function PausePlay(s: Snapshot): Snapshot
  {
    if s.playing then Pause(s) else Play(s)
  }

  /** `next()` */
  function Next(s: Snapshot): Snapshot
    requires Shaped(s)
  {
    GotoNext(Pause(s))
  }

  /** `prev()` */
  function Prev(s: Snapshot): Snapshot
    requires Shaped(s)
  {
    GotoPrev(Pause(s))
  }

  /** The interval callback `() => this.#gotoNext()`. */
  function Fire(s: Snapshot): Snapshot
    requires Shaped(s)
  {
    GotoNext(s)
  }

  // ---- private event handlers ----

  /** `#onSlideMouseEnter()` */
  function MouseEnter(s: Snapshot): Snapshot
  {
    var s' := s.(hoverMemo := Some(s.playing));
    if s.playing then Pause(s') else s'
  }

  /** `#onSlideMouseLeave()`: only a recorded `true` is truthy. */
  function MouseLeave(s: Snapshot): Snapshot
  {
    var s' := if s.hoverMemo == Some(true) then Play(s) else s;
    s'.(hoverMemo := None)
  }

  /** Whether `#keydown` calls `preventDefault()`: the code is one of the three carousel keys. */
  predicate PreventsDefault(k: Key)
  {
    k in [ArrowLeft, ArrowRight, Space]
  }

  /** The state change of `#keydown`. */
  function Keydown(s: Snapshot, k: Key): Snapshot
    requires Shaped(s)
  {
    match k
    case ArrowLeft => Prev(s)
    case ArrowRight => Next(s)
    case Space => PausePlay(s)
    case OtherKey => s
  }

  /** `#indicatorClick(e)`: an indicator item pauses and jumps to its `data-slide-to`. */
  function IndicatorClick(s: Snapshot, t: ClickTarget): Snapshot
    requires Invariant(s)
    requires t.IndicatorItem? ==> 0 <= t.position < |s.indicators|
  {
    match t
    case IndicatorItem(p) => GotoNth(Pause(s), s.slideTo[p])
    case Elsewhere => s
  }

  // ---- the listeners #initEventListeners registers ----

  /** What reaches an initialised carousel: a call of a public method (the pause, prev and next
      buttons call `pausePlay`, `prev` and `next`), a tick of one of its intervals, the pointer
      entering or leaving the container, a keydown anywhere in the document, a click in the
      indicator list. */
  datatype Event =
    | PlayCalled | PauseCalled | PausePlayCalled | NextCalled | PrevCalled
    | IntervalFired | MouseEntered | MouseLeft
    | KeyPressed(key: Key) | Clicked(target: ClickTarget)

  /** A click lands on an indicator item that exists. */
  predicate Fits(e: Event, count: int)
  {
    e.Clicked? && e.target.IndicatorItem? ==> 0 <= e.target.position < count
  }

  /** One event. `mouseenter`/`mouseleave` reach their handlers only when `pauseOnHover` is
      set, and an interval fires only while the browser runs one. */
  function Step(s: Snapshot, e: Event): (r: Snapshot)
    requires Invariant(s) && Fits(e, |s.slides|)
    ensures !s.pauseOnHover && (e.MouseEntered? || e.MouseLeft?) ==> r == s
    ensures e.IntervalFired? && s.intervals == 0 ==> r == s
    ensures e.IntervalFired? && s.intervals > 0 ==> r.current == (s.current + 1) % |s.slides|
  {
    match e
    case PlayCalled => Play(s)
    case PauseCalled => Pause(s)
    case PausePlayCalled => PausePlay(s)
    case NextCalled => Next(s)
    case PrevCalled => Prev(s)
    case IntervalFired => if s.intervals > 0 then Fire(s) else s
    case MouseEntered => if s.pauseOnHover then MouseEnter(s) else s
    case MouseLeft => if s.pauseOnHover then MouseLeave(s) else s
    case KeyPressed(k) => Keydown(s, k)
    case Clicked(t) => IndicatorClick(s, t)
  }
}
