/** What the carousel's transitions promise, proved about the functions of CarouselModel. */
module CarouselProperties {
  import opened CarouselModel
  import JsNumber

  // ---- the active markers ----

  /** Toggling the same element twice restores the collection. */
  lemma ToggleTwice(flags: seq<bool>, i: int)
    requires 0 <= i < |flags|
    ensures Toggled(Toggled(flags, i), i) == flags
  {
  }

  /** Toggling the marked element off and element `k` on leaves exactly `k` marked, also when
      `k` is the marked element itself (the two toggles cancel). */
  lemma MoveMarker(flags: seq<bool>, c: int, k: int)
    requires OneHot(flags, c) && 0 <= k < |flags|
    ensures OneHot(Toggled(Toggled(flags, c), k), k)
  {
    if c == k {
      ToggleTwice(flags, c);
    }
  }

  /** `#gotoNth(n)` moves to `n` modulo the slide count, carries both active markers there, touches
      no flag but the old and the new position's, and changes nothing else. */
  lemma GotoNthMovesMarkers(s: Snapshot, n: int)
    requires Shaped(s) && n >= -|s.slides|
    requires OneHot(s.slides, s.current) && OneHot(s.indicators, s.current)
    ensures var r := GotoNth(s, n);
      Shaped(r) && r.current == n % |s.slides| &&
      OneHot(r.slides, r.current) && OneHot(r.indicators, r.current) &&
      (forall j :: 0 <= j < |s.slides| && j != s.current && j != r.current ==>
         r.slides[j] == s.slides[j] && r.indicators[j] == s.indicators[j]) &&
      r.(current := s.current, slides := s.slides, indicators := s.indicators) == s
  {
    var k := WrapIndex(n, |s.slides|);
    MoveMarker(s.slides, s.current, k);
    MoveMarker(s.indicators, s.current, k);
  }

  /** Going to the current slide leaves every flag as it was. */
  lemma GotoCurrentChangesNothing(s: Snapshot)
    requires Shaped(s)
    ensures GotoNth(s, s.current) == s
  {
    ToggleTwice(s.slides, s.current);
    ToggleTwice(s.indicators, s.current);
  }

  /** `#gotoNext` and `#gotoPrev` step by one with wrap-around: from the last slide to the first
      and from the first to the last. */
  lemma GotoNextPrevWrap(s: Snapshot)
    requires Shaped(s)
    ensures GotoNext(s).current == (s.current + 1) % |s.slides|
    ensures GotoPrev(s).current == (s.current - 1) % |s.slides|
    ensures s.current == |s.slides| - 1 ==> GotoNext(s).current == 0
    ensures s.current == 0 ==> GotoPrev(s).current == |s.slides| - 1
  {
    var count := |s.slides|;
    if s.current == count - 1 {
      JsNumber.ModUnique(s.current + 1, count, 1, 0);
    }
    if s.current == 0 {
      JsNumber.ModUnique(-1, count, -1, count - 1);
    }
  }

  // ---- play and pause ----

  /** `pause()` does nothing when paused; otherwise it stops playing, drops the timer handle,
      clears the interval it held, shows the play icon and changes nothing else. */
  lemma PauseSpec(s: Snapshot)
    ensures !s.playing ==> Pause(s) == s
    ensures var r := Pause(s);
      s.playing ==>
        !r.playing && !r.timer && r.playIcon && !r.pauseIcon &&
        r.intervals == (if s.timer then s.intervals - 1 else s.intervals) &&
        r.(playing := s.playing, timer := s.timer, intervals := s.intervals,
           playIcon := s.playIcon, pauseIcon := s.pauseIcon) == s
    ensures Pause(Pause(s)) == Pause(s)
  {
  }

  /** `play()` does nothing when playing; otherwise it starts playing, shows the pause icon, and
      ends holding a timer, starting an interval only if it held none. */
  lemma PlaySpec(s: Snapshot)
    ensures s.playing ==> Play(s) == s
    ensures var r := Play(s);
      !s.playing ==>
        r.playing && r.timer && r.pauseIcon && !r.playIcon &&
        r.intervals == (if s.timer then s.intervals else s.intervals + 1) &&
        r.(playing := s.playing, timer := s.timer, intervals := s.intervals,
           playIcon := s.playIcon, pauseIcon := s.pauseIcon) == s
    ensures Play(Play(s)) == Play(s)
  {
  }

  /** From a consistent state, `play()` then `pause()` (or the reverse) restores the state. */
  lemma PlayPauseRoundTrip(s: Snapshot)
    requires Invariant(s)
    ensures !s.playing ==> Pause(Play(s)) == s
    ensures s.playing ==> Play(Pause(s)) == s
  {
  }

  /** `pause()` and `play()` keep the invariant, and `pausePlay()` flips `isPlaying`. */
  lemma PausePlayKeepInvariant(s: Snapshot)
    requires Invariant(s)
    ensures Invariant(Pause(s)) && Invariant(Play(s)) && Invariant(PausePlay(s))
    ensures PausePlay(s).playing == !s.playing
  {
  }

  // ---- manual navigation and the interval ----

  /** `#gotoNth` keeps the invariant for every index the callers pass. */
  lemma GotoNthKeepsInvariant(s: Snapshot, n: int)
    requires Invariant(s) && n >= -|s.slides|
    ensures Invariant(GotoNth(s, n)) && GotoNth(s, n).current == n % |s.slides|
  {
    GotoNthMovesMarkers(s, n);
  }

  /** `next()` and `prev()` always end paused with no interval left running, one slide further
      or back with wrap-around, and keep the invariant. */
  lemma NextPrevPause(s: Snapshot)
    requires Invariant(s)
    ensures var r := Next(s);
      Invariant(r) && !r.playing && !r.timer && r.intervals == 0 &&
      r.current == (s.current + 1) % |s.slides|
    ensures var r := Prev(s);
      Invariant(r) && !r.playing && !r.timer && r.intervals == 0 &&
      r.current == (s.current - 1) % |s.slides|
  {
    var p := Pause(s);
    PausePlayKeepInvariant(s);
    GotoNthKeepsInvariant(p, p.current + 1);
    GotoNthKeepsInvariant(p, p.current - 1);
  }

  /** The interval callback advances one slide but leaves playing, the timer handle, the running
      intervals and the icons alone, since it calls `#gotoNext` and not `next`. */
  lemma FireAdvances(s: Snapshot)
    requires Invariant(s)
    ensures var r := Fire(s);
      Invariant(r) && r.current == (s.current + 1) % |s.slides| &&
      r.playing == s.playing && r.timer == s.timer && r.intervals == s.intervals &&
      r.pauseIcon == s.pauseIcon && r.playIcon == s.playIcon
  {
    GotoNthKeepsInvariant(s, s.current + 1);
  }

  // ---- hover ----

  /** Entering records `isPlaying` and pauses; leaving right after restores the state entered
      from, except that the memo is reset to `null`. */
  lemma HoverRoundTrip(s: Snapshot)
    requires Invariant(s)
    ensures MouseEnter(s).hoverMemo == Some(s.playing) && !MouseEnter(s).playing
    ensures Invariant(MouseEnter(s))
    ensures MouseLeave(MouseEnter(s)) == s.(hoverMemo := None)
  {
  }

  /** Leaving resumes only after an enter that found the carousel playing; with no prior enter,
      or after an enter that found it paused, leaving changes nothing but the memo. */
  lemma LeaveResumesOnlyIfRecorded(s: Snapshot)
    requires Invariant(s)
    ensures Invariant(MouseLeave(s)) && MouseLeave(s).hoverMemo == None
    ensures s.hoverMemo == None ==> MouseLeave(s) == s
    ensures s.hoverMemo == Some(false) ==> MouseLeave(s) == s.(hoverMemo := None)
    ensures s.hoverMemo == Some(true) ==> MouseLeave(s).playing
  {
  }

  // ---- keyboard and indicator clicks ----

  /** Only Space, ArrowLeft and ArrowRight are suppressed; they do `pausePlay`, `prev` and `next`;
      every other key changes nothing. */
  lemma KeydownDispatch(s: Snapshot, k: Key)
    requires Invariant(s)
    ensures PreventsDefault(k) <==> k != OtherKey
    ensures k == OtherKey ==> Keydown(s, k) == s
    ensures k == Space ==> Keydown(s, k).playing == !s.playing
    ensures k == ArrowLeft ==> Keydown(s, k) == Prev(s)
    ensures k == ArrowRight ==> Keydown(s, k) == Next(s)
    ensures Invariant(Keydown(s, k))
  {
    PausePlayKeepInvariant(s);
    NextPrevPause(s);
  }

  /** A click on indicator `p` pauses and shows slide `p`; a click elsewhere changes nothing. */
  lemma IndicatorClickJumps(s: Snapshot, t: ClickTarget)
    requires Invariant(s)
    requires t.IndicatorItem? ==> 0 <= t.position < |s.indicators|
    ensures var r := IndicatorClick(s, t);
      Invariant(r) &&
      (t.IndicatorItem? ==> r.current == t.position && !r.playing && !r.timer && r.intervals == 0 &&
                            r.slides[t.position] && r.indicators[t.position]) &&
      (t.Elsewhere? ==> r == s)
  {
    if t.IndicatorItem? {
      var p := Pause(s);
      PausePlayKeepInvariant(s);
      GotoNthKeepsInvariant(p, s.slideTo[t.position]);
    }
  }

  // ---- any sequence of events ----

  /** Every event keeps the invariant. */
  lemma StepPreservesInvariant(s: Snapshot, e: Event)
    requires Invariant(s) && Fits(e, |s.slides|)
    ensures Invariant(Step(s, e))
    ensures |Step(s, e).slides| == |s.slides| && Step(s, e).pauseOnHover == s.pauseOnHover
  {
    match e
    case PlayCalled => PausePlayKeepInvariant(s);
    case PauseCalled => PausePlayKeepInvariant(s);
    case PausePlayCalled => PausePlayKeepInvariant(s);
    case NextCalled => NextPrevPause(s);
    case PrevCalled => NextPrevPause(s);
    case IntervalFired => FireAdvances(s);
    case MouseEntered => HoverRoundTrip(s);
    case MouseLeft => LeaveResumesOnlyIfRecorded(s);
    case KeyPressed(k) => KeydownDispatch(s, k);
    case Clicked(t) => IndicatorClickJumps(s, t);
  }

  /** The state after the events `evs`, one after the other. */
  function Run(s: Snapshot, evs: seq<Event>): (r: Snapshot)
    requires Invariant(s)
    requires forall i :: 0 <= i < |evs| ==> Fits(evs[i], |s.slides|)
    ensures Invariant(r) && |r.slides| == |s.slides| && r.pauseOnHover == s.pauseOnHover
    decreases |evs|
  {
    if evs == [] then s
    else
      StepPreservesInvariant(s, evs[0]);
      Run(Step(s, evs[0]), evs[1..])
  }

  /** After `init()` and any sequence of events, a timer handle is held exactly while playing, at
      most one interval runs, and exactly one slide and indicator are active, at the same index. */
  lemma TimerIffPlaying(count: nat, playing: bool, pauseOnHover: bool, evs: seq<Event>)
    requires count >= 1
    requires forall i :: 0 <= i < |evs| ==> Fits(evs[i], count)
    ensures var r := Run(Initial(count, playing, pauseOnHover), evs);
      (r.timer <==> r.playing) && 0 <= r.intervals <= 1 &&
      0 <= r.current < count && OneHot(r.slides, r.current) && OneHot(r.indicators, r.current)
  {
  }

  // ---- scenarios ----

  /** Five slides, playing: a tick shows slide 1; `prev()` twice then shows slide 4, paused. A
      click on indicator 3 from the start pauses and shows slide 3. */
  lemma FiveSlideScenario()
    ensures var s0 := Initial(5, true, true);
      var s1 := Step(s0, IntervalFired);
      s1.current == 1 && s1.playing &&
      var s3 := Prev(Prev(s1));
      s3.current == 4 && !s3.playing &&
      var c := IndicatorClick(s0, IndicatorItem(3));
      c.current == 3 && !c.playing
  {
    var s0 := Initial(5, true, true);
    FireAdvances(s0);
    var s1 := Step(s0, IntervalFired);
    NextPrevPause(s1);
    NextPrevPause(Prev(s1));
    IndicatorClickJumps(s0, IndicatorItem(3));
  }

  /** With `pauseOnHover`, hovering a playing carousel pauses it and leaving resumes it; a paused
      one stays paused. Without it, hovering changes nothing. */
  lemma HoverScenario(count: nat, playing: bool)
    requires count >= 1
    ensures var s := Initial(count, playing, true);
      !Step(s, MouseEntered).playing &&
      Step(Step(s, MouseEntered), MouseLeft).playing == playing
    ensures var s := Initial(count, playing, false);
      Step(s, MouseEntered) == s && Step(s, MouseLeft) == s
  {
    HoverRoundTrip(Initial(count, playing, true));
  }

  /** With `pauseOnHover`, entering a playing carousel records `true`, so leaving it plays again
      whatever the user did in between: a Space press that paused and one that played and paused
      again, or a click on an indicator (which pauses), are both undone on the way out. */
  lemma HoverUndoesManualPause(s: Snapshot, p: int)
    requires Invariant(s) && s.pauseOnHover && s.playing && 0 <= p < |s.slides|
    ensures var h := Step(s, MouseEntered);
      var once := Step(h, PausePlayCalled);
      var twice := Step(once, PausePlayCalled);
      once.playing && !twice.playing && Step(twice, MouseLeft).playing
    ensures var c := Step(Step(s, MouseEntered), Clicked(IndicatorItem(p)));
      !c.playing && c.current == p &&
      Step(c, MouseLeft).playing && Step(c, MouseLeft).current == p
  {
    var h := Step(s, MouseEntered);
    StepPreservesInvariant(s, MouseEntered);
    StepPreservesInvariant(h, PausePlayCalled);
    var once := Step(h, PausePlayCalled);
    StepPreservesInvariant(once, PausePlayCalled);
    assert Fits(Clicked(IndicatorItem(p)), |h.slides|);
    StepPreservesInvariant(h, Clicked(IndicatorItem(p)));
    IndicatorClickJumps(h, IndicatorItem(p));
  }
}
