/**
  The rotation engine of the carousel as a state machine over values.

  A `State` is what the component keeps in React state: the showing index,
  the `waiting` busy flag, the left-click tag of the four neighbour styles,
  the `autoScrollClickDelay` suppression flag, and the number of children
  the working list was built from. Each event reads the state as it was
  when the event began (the values captured by the render's closures) and
  yields the state after all the updates it schedules. The three timers
  become the events `AutoScrollTicked`, `AnimationReleased` and
  `ClickDelayElapsed`; there is no clock.

  The class in module CarouselComponent is proved against these functions.
 */
module CarouselEngine {
  import opened Wrappers
  import opened CarouselIndex

  /** Duration of the rotation animation, in milliseconds. */
  const AnimationTime: nat := 500

  datatype Dir = L | R

  /** The two outcomes of the swipe recogniser. */
  datatype Gesture = SwipedLeft | SwipedRight

  /** The timing props; `None` is an undefined prop. */
  datatype Config = Config(autoScrollInterval: Option<nat>, autoScrollClickDelay: Option<nat>)

  datatype State = State(
    showingIndex: int,
    waiting: bool,
    leftClick: bool,
    suppressed: bool,
    childrenCount: nat)
  {
    /** Number of slots of the working list. */
    function Slots(): nat {
      WorkingCount(childrenCount)
    }
  }

  ghost predicate InRange(st: State) {
    0 <= st.showingIndex < st.Slots()
  }

  /** The list-change effect. It first runs with the slot count of the
      previous render, then runs again once the new working list has
      changed that count. */
  function ChangeChildren(st: State, c: nat): (r: State)
    ensures r.childrenCount == c
    ensures r.waiting == st.waiting && r.leftClick == st.leftClick && r.suppressed == st.suppressed
    ensures c >= 1 ==> InRange(r)
    ensures 0 <= st.showingIndex < st.Slots() && st.showingIndex < WorkingCount(c) ==>
      r.showingIndex == st.showingIndex
    ensures 0 <= st.showingIndex < st.Slots() && st.showingIndex >= WorkingCount(c) ==>
      r.showingIndex == WorkingCount(c) - 1
  {
    var oldSlots, newSlots := st.Slots(), WorkingCount(c);
    var first := Clamp(st.showingIndex, oldSlots);
    st.(childrenCount := c, showingIndex := if newSlots == oldSlots then first else Clamp(first, newSlots))
  }

  /** The state after mounting with `c` children: the initial React state
      (index 0, no working list yet) followed by the list-change effect. */
  function Initial(c: nat): (st: State)
    ensures !st.waiting && !st.leftClick && !st.suppressed && st.childrenCount == c
    ensures c >= 1 ==> st.showingIndex == 0
    ensures c == 0 ==> st.showingIndex == -1
  {
    ChangeChildren(State(0, false, false, false, 0), c)
  }

  /** `rotateCarouselHandler(d)`, where `guard` is the value of `waiting`
      captured by the closure that is called. */
  function Rotate(st: State, d: Dir, guard: bool): (r: State)
    ensures guard ==> r == st
    ensures !guard ==> r.waiting && r.leftClick == (d == L)
    ensures r.suppressed == st.suppressed && r.childrenCount == st.childrenCount
    ensures !guard && st.childrenCount >= 1 ==> InRange(r)
    ensures !guard && InRange(st) ==>
      r.showingIndex == if d == L then PrevIndex(st.showingIndex, st.Slots())
                        else NextIndex(st.showingIndex, st.Slots())
  {
    if guard then st
    else match d
      case L => st.(waiting := true, leftClick := true, showingIndex := ShiftLeft(st.showingIndex, st.Slots()))
      case R => st.(waiting := true, leftClick := false, showingIndex := ShiftRight(st.showingIndex, st.Slots()))
  }

  /** `clickHandler(d)`, for an arrow click or a swipe: a rotation through
      the guard, and suppression of auto-scroll whether or not the rotation
      was admitted. */
  function Click(st: State, d: Dir): (r: State)
    ensures r.suppressed
    ensures r.(suppressed := st.suppressed) == Rotate(st, d, st.waiting)
    ensures st.waiting ==> r == st.(suppressed := true)
  {
    Rotate(st, d, st.waiting).(suppressed := true)
  }

  /** The direction requested by a swipe: inverted, since swiping the
      content right brings the previous item in. */
  function SwipeDirection(g: Gesture): (d: Dir)
    ensures d == L <==> g == SwipedRight
  {
    match g
    case SwipedRight => L
    case SwipedLeft => R
  }

  /** `jumpToIndexHandler(i)`. Its calls to `rotateCarouselHandler` use the
      closure of the same render, whose `waiting` is still false although
      the handler has just set `waiting`. */
  function JumpToIndex(st: State, i: int): (r: State)
    ensures st.waiting ==> r == st
    ensures !st.waiting ==> r.waiting && r.suppressed && r.childrenCount == st.childrenCount
    ensures !st.waiting && i == PrevIndex(st.showingIndex, st.Slots()) ==> r == Click(st, L)
    ensures (!st.waiting && i != PrevIndex(st.showingIndex, st.Slots()) &&
             i == NextIndex(st.showingIndex, st.Slots())) ==> r == Click(st, R)
    ensures (!st.waiting && i != PrevIndex(st.showingIndex, st.Slots()) &&
             i != NextIndex(st.showingIndex, st.Slots())) ==>
      r.showingIndex == i && r.leftClick == st.leftClick
  {
    if st.waiting then st
    else
      var locked := st.(waiting := true);
      var moved :=
        if i == PrevIndex(st.showingIndex, st.Slots()) then Rotate(locked, L, st.waiting)
        else if i == NextIndex(st.showingIndex, st.Slots()) then Rotate(locked, R, st.waiting)
        else locked.(showingIndex := i);
      moved.(suppressed := true)
  }

  /** `shiftLeft` / `shiftRight` of the imperative handle: the bare index
      updaters, with no guard, no style change and no suppression. */
  function HandleShift(st: State, d: Dir): (r: State)
    ensures r.waiting == st.waiting && r.leftClick == st.leftClick
    ensures r.suppressed == st.suppressed && r.childrenCount == st.childrenCount
    ensures st.childrenCount >= 1 ==> InRange(r)
    ensures InRange(st) ==>
      r.showingIndex == if d == L then PrevIndex(st.showingIndex, st.Slots())
                        else NextIndex(st.showingIndex, st.Slots())
  {
    match d
    case L => st.(showingIndex := ShiftLeft(st.showingIndex, st.Slots()))
    case R => st.(showingIndex := ShiftRight(st.showingIndex, st.Slots()))
  }

  /** Whether the auto-scroll interval is installed: never while suppressed,
      never without an interval, never for an interval of at most the
      animation time (500 itself disables it). */
  function AutoScrollArmed(st: State, cfg: Config): (armed: bool)
    ensures armed ==> !st.suppressed
    ensures cfg.autoScrollInterval.None? ==> !armed
    ensures cfg.autoScrollInterval == Some(AnimationTime) ==> !armed
    ensures armed ==> cfg.autoScrollInterval.value > AnimationTime
    ensures !st.suppressed && cfg.autoScrollInterval.Some? && cfg.autoScrollInterval.value > AnimationTime ==> armed
  {
    !st.suppressed && cfg.autoScrollInterval.Some? && cfg.autoScrollInterval.value > AnimationTime
  }

  /** One firing of the auto-scroll interval: a Right rotation through the
      guard, when the interval is installed at all. */
  function Tick(st: State, cfg: Config): (r: State)
    ensures !AutoScrollArmed(st, cfg) ==> r == st
    ensures AutoScrollArmed(st, cfg) ==> r == Rotate(st, R, st.waiting)
    ensures r.suppressed == st.suppressed
  {
    if AutoScrollArmed(st, cfg) then Rotate(st, R, st.waiting) else st
  }

  /** The end of the animation delay: clears `waiting` and nothing else. */
  function Release(st: State): (r: State)
    ensures !r.waiting
    ensures r.(waiting := st.waiting) == st
  {
    st.(waiting := false)
  }

  /** The end of the post-click delay: clears suppression, but only when the
      delay prop is defined. */
  function ClearSuppression(st: State, cfg: Config): (r: State)
    ensures cfg.autoScrollClickDelay.Some? ==> !r.suppressed
    ensures cfg.autoScrollClickDelay.None? ==> r == st
    ensures r.(suppressed := st.suppressed) == st
  {
    if cfg.autoScrollClickDelay.Some? then st.(suppressed := false) else st
  }

  datatype Event =
    | ArrowClicked(dir: Dir)
    | Swiped(gesture: Gesture)
    | JumpRequested(target: int)
    | HandleShifted(dir: Dir)
    | AutoScrollTicked
    | AnimationReleased
    | ClickDelayElapsed
    | ChildrenChanged(count: nat)

  /** Events that can move the index of a busy engine: only the release,
      the handle's shifts and a change of the children. */
  predicate UnlocksOrMoves(e: Event) {
    e.AnimationReleased? || e.HandleShifted? || e.ChildrenChanged?
  }

  /** How each event reaches its handler: arrow buttons call `clickHandler`,
      swipes call it with the inverted direction, dots and the handle call
      `jumpToIndexHandler`, the handle's shifts call the bare updaters. */
  function Step(st: State, cfg: Config, e: Event): (r: State)
    ensures !e.ChildrenChanged? ==> r.childrenCount == st.childrenCount
    ensures e.ArrowClicked? || e.Swiped? ==> r.suppressed
    ensures e == Swiped(SwipedRight) ==> r == Click(st, L)
    ensures e == Swiped(SwipedLeft) ==> r == Click(st, R)
    ensures e.JumpRequested? && !st.waiting ==> r.waiting && r.suppressed
    ensures st.waiting && !UnlocksOrMoves(e) ==>
      r.waiting && r.showingIndex == st.showingIndex && r.leftClick == st.leftClick
  {
    match e
    case ArrowClicked(d) => Click(st, d)
    case Swiped(g) => Click(st, SwipeDirection(g))
    case JumpRequested(i) => JumpToIndex(st, i)
    case HandleShifted(d) => HandleShift(st, d)
    case AutoScrollTicked => Tick(st, cfg)
    case AnimationReleased => Release(st)
    case ClickDelayElapsed => ClearSuppression(st, cfg)
    case ChildrenChanged(c) => ChangeChildren(st, c)
  }

  /** The state after a sequence of events, one at a time. */
  function Run(st: State, cfg: Config, es: seq<Event>): State
    decreases |es|
  {
    if es == [] then st else Run(Step(st, cfg, es[0]), cfg, es[1..])
  }

  // ---------------------------------------------------------------------
  // Properties of single events

  /** The jump guard reads the old `waiting`: an idle jump to the previous
      slot moves the index, although a rotation guarded by the flag the jump
      has just set would have been refused. */
  lemma JumpGuardReadsOldValue(st: State)
    requires !st.waiting && st.childrenCount >= 1 && InRange(st)
    ensures var locked := st.(waiting := true);
      Rotate(locked, L, locked.waiting) == locked &&
      JumpToIndex(st, PrevIndex(st.showingIndex, st.Slots())).showingIndex != st.showingIndex
  {
  }

  /** The fast path of a jump locks the engine too. */
  lemma JumpFastPathLocks(st: State, i: int)
    requires !st.waiting
    requires i != PrevIndex(st.showingIndex, st.Slots()) && i != NextIndex(st.showingIndex, st.Slots())
    ensures JumpToIndex(st, i) == st.(showingIndex := i, waiting := true, suppressed := true)
  {
  }

  /** With two slots (one child), prev and next coincide, so a jump to the
      next slot is taken as a Left rotation and sets the left-click tag. */
  lemma TwoSlotJumpToNextIsLeft(st: State)
    requires st.childrenCount == 1 && InRange(st) && !st.waiting
    ensures JumpToIndex(st, NextIndex(st.showingIndex, 2)) == Click(st, L)
    ensures JumpToIndex(st, NextIndex(st.showingIndex, 2)).leftClick
  {
  }

  /** An idle jump to the next slot does the same as a Right arrow click
      when the list has more than two slots. */
  lemma JumpToNextIsRightClick(st: State)
    requires st.Slots() > 2 && InRange(st)
    ensures JumpToIndex(st, NextIndex(st.showingIndex, st.Slots())) ==
      if st.waiting then st else Click(st, R)
  {
  }

  /** A click on a busy engine changes nothing but suppression; a jump on a
      busy engine changes nothing at all. */
  lemma BusyRequestsAreDropped(st: State, d: Dir, i: int)
    requires st.waiting
    ensures Click(st, d) == st.(suppressed := true)
    ensures JumpToIndex(st, i) == st
  {
  }

  /** The handle's shifts move the index even while the engine is busy. */
  lemma HandleShiftBypassesGuard(st: State, d: Dir)
    requires st.waiting && st.Slots() >= 2 && InRange(st)
    ensures HandleShift(st, d).showingIndex != st.showingIndex
    ensures HandleShift(st, d).waiting
  {
  }

  /** Two clicks with no release in between commit one index change. */
  lemma ClicksAreMutuallyExclusive(st: State, d1: Dir, d2: Dir)
    ensures Click(Click(st, d1), d2).showingIndex == Click(st, d1).showingIndex
    ensures !st.waiting ==> Click(Click(st, d1), d2).leftClick == (d1 == L)
  {
  }

  /** After the release, the next click is admitted again. */
  lemma ReleaseReadmits(st: State, d1: Dir, d2: Dir)
    requires InRange(st)
    ensures var next := Click(Release(Click(st, d1)), d2);
      next.waiting && next.leftClick == (d2 == L) &&
      next.showingIndex == if d2 == L then ShiftLeft(Click(st, d1).showingIndex, st.Slots())
                           else ShiftRight(Click(st, d1).showingIndex, st.Slots())
  {
  }

  /** An interval of at most the animation time never rotates. */
  lemma ShortIntervalDisablesAutoScroll(st: State, cfg: Config)
    requires cfg.autoScrollInterval.None? || cfg.autoScrollInterval.value <= AnimationTime
    ensures Tick(st, cfg) == st
  {
  }

  /** A click suppresses the next tick; once the delay has elapsed (with the
      delay prop defined) a tick on an idle engine rotates right. */
  lemma ClickSuppressesTicksUntilDelay(st: State, cfg: Config, d: Dir)
    requires cfg.autoScrollClickDelay.Some?
    requires cfg.autoScrollInterval.Some? && cfg.autoScrollInterval.value > AnimationTime
    ensures Tick(Click(st, d), cfg) == Click(st, d)
    ensures var idle := Release(ClearSuppression(Click(st, d), cfg));
      Tick(idle, cfg) == Rotate(idle, R, false)
  {
  }

  /** The left-click tag reaches the rendered styles: after an admitted Left
      rotation the new prev slot carries the left-click class and the showing
      slot does not; after an admitted Right rotation no slot carries it; a
      release leaves every slot's style as it was. */
  lemma StyleTagFollowsRotations(st: State)
    ensures InRange(st) && st.Slots() >= 2 ==>
      var l := Rotate(st, L, false);
      StyleOf(PrevIndex(l.showingIndex, l.Slots()), l.showingIndex, l.Slots(), l.leftClick).leftClick &&
      !StyleOf(l.showingIndex, l.showingIndex, l.Slots(), l.leftClick).leftClick
    ensures var r := Rotate(st, R, false);
      forall k :: !StyleOf(k, r.showingIndex, r.Slots(), r.leftClick).leftClick
    ensures var rel := Release(st);
      forall k :: StyleOf(k, rel.showingIndex, rel.Slots(), rel.leftClick) ==
                  StyleOf(k, st.showingIndex, st.Slots(), st.leftClick)
  {
  }

  /** When the list grows after a jump has pushed the index past the old list,
      the first run of the effect pins it to the OLD last slot, and the second
      run keeps it there. */
  lemma GrowAfterEscapedJumpPinsToOldEnd()
    ensures ChangeChildren(State(20, false, false, false, 5), 12).showingIndex == 9
  {
  }

  /** Every further run of the effect on an empty list flips the index
      between -1 and 0. */
  lemma EmptyListFlipsIndex()
    ensures ChangeChildren(State(0, false, false, false, 0), 0).showingIndex == -1
    ensures ChangeChildren(State(-1, false, false, false, 0), 0).showingIndex == 0
  {
  }

  // ---------------------------------------------------------------------
  // Properties of event sequences

  /** While the engine is busy and not released, no event changes the
      index or the style tag, and the engine stays busy. */
  lemma {:induction false} BusyEngineIsFrozen(st: State, cfg: Config, es: seq<Event>)
    requires st.waiting
    requires forall e :: e in es ==> !UnlocksOrMoves(e)
    ensures Run(st, cfg, es).waiting
    ensures Run(st, cfg, es).showingIndex == st.showingIndex
    ensures Run(st, cfg, es).leftClick == st.leftClick
    ensures Run(st, cfg, es).childrenCount == st.childrenCount
    decreases |es|
  {
    if es != [] {
      var next := Step(st, cfg, es[0]);
      assert es[0] in es;
      assert next.waiting && next.showingIndex == st.showingIndex && next.leftClick == st.leftClick;
      assert forall e :: e in es[1..] ==> e in es;
      BusyEngineIsFrozen(next, cfg, es[1..]);
    }
  }

  /** One event keeps the index in range, unless it is a jump to a target
      outside the list or a change to no children. */
  lemma StepKeepsInRange(st: State, cfg: Config, e: Event)
    requires InRange(st)
    requires e.JumpRequested? ==> 0 <= e.target < st.Slots()
    requires e.ChildrenChanged? ==> e.count >= 1
    ensures InRange(Step(st, cfg, e))
  {
    assert st.childrenCount >= 1;
  }

  /** The jump fast path takes its target verbatim: a jump out of range on
      an idle engine leaves the index out of range. */
  lemma JumpOutOfRangeEscapes(st: State)
    requires !st.waiting && InRange(st) && st.Slots() >= 3
    ensures !InRange(JumpToIndex(st, st.Slots()))
  {
  }

  /** Over a sequence with no change of the children and only in-range
      jumps, the index stays in range. */
  lemma {:induction false} RunKeepsInRange(st: State, cfg: Config, es: seq<Event>)
    requires InRange(st)
    requires forall e :: e in es ==> !e.ChildrenChanged?
    requires forall e :: e in es && e.JumpRequested? ==> 0 <= e.target < st.Slots()
    ensures InRange(Run(st, cfg, es))
    ensures Run(st, cfg, es).childrenCount == st.childrenCount
    decreases |es|
  {
    if es != [] {
      assert es[0] in es;
      StepKeepsInRange(st, cfg, es[0]);
      var next := Step(st, cfg, es[0]);
      assert next.childrenCount == st.childrenCount;
      assert forall e :: e in es[1..] ==> e in es;
      RunKeepsInRange(next, cfg, es[1..]);
    }
  }

  /** Suppression, once set, lasts until a delay elapses with the delay prop
      defined; with the prop undefined it lasts for ever, and so every later
      tick is dropped. */
  lemma {:induction false} SuppressionPersists(st: State, cfg: Config, es: seq<Event>)
    requires st.suppressed
    requires cfg.autoScrollClickDelay.Some? ==> forall e :: e in es ==> !e.ClickDelayElapsed?
    ensures Run(st, cfg, es).suppressed
    ensures Tick(Run(st, cfg, es), cfg) == Run(st, cfg, es)
    decreases |es|
  {
    if es != [] {
      assert es[0] in es;
      var next := Step(st, cfg, es[0]);
      assert next.suppressed;
      assert forall e :: e in es[1..] ==> e in es;
      SuppressionPersists(next, cfg, es[1..]);
    }
  }
}
