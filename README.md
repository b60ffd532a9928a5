# Carousel rotation engine in Dafny

This project models the rotation engine of the `Carousel` React component of
react-configurable-carousel (`src/components/Carousel/CarouselComponents/Carousel.tsx`)
and proves properties of the model.

The engine has two layers:

- **Index arithmetic** (module `CarouselIndex`, in `carousel_index.dfy`). It covers:
  - the working list, where five or fewer children are concatenated with themselves;
  - the four neighbour indices of the showing slot;
  - the functional updaters of `shiftLeft` and `shiftRight`;
  - the re-clamp that runs when the children change;
  - the role each slot is rendered with;
  - the list and the selected index handed to the dot indicator.

  All of these are total functions over unbounded integers, because the
  showing index can leave the list (see `JumpOutOfRangeEscapes`).
- **The state machine** of `showingIndex`, the `waiting` busy flag, the
  left-click tag of the four neighbour styles, and the `autoScrollClickDelay`
  suppression flag. It has two parts:
  - module `CarouselEngine` (`carousel_engine.dfy`) states each event as a
    function from the pre-event state to the post-event state (`Step`, `Run`)
    and proves the properties over single events and event sequences;
  - module `CarouselComponent` (`carousel_component.dfy`) holds the class
    `Carousel`. Its fields are the component's state. Each event is one method
    that makes the updates step by step, and each method is proved equal to
    its `CarouselEngine` function.

The three timers are explicit events, so the model stays sequential:
- the animation release is `AnimationReleased`;
- the end of the post-click delay is `ClickDelayElapsed`;
- one firing of the auto-scroll interval is `AutoScrollTicked`.

An event reads the state as the render's closures captured it. So
`rotateCarouselHandler` takes the captured `waiting` as a parameter
(`guard`). `jumpToIndexHandler` passes the value it saw before setting
`waiting`, so its rotation is still admitted.

The method `ThreeChildrenScenario` at the end of `carousel_component.dfy` is a
client of the class. From the contracts alone it derives a run with three
children (six slots): the neighbour roles, an admitted and a dropped click, a
tick dropped under suppression, a Left click that sets the tag, a fast-path jump
that locks and its selected dot, and an auto-scroll tick after the delay.

Module `Wrappers` (`wrappers.dfy`) holds `Option`. It stands for an undefined
prop and for the `NaN` that the dot index becomes with no children.

### Behaviour of the code worth knowing

- The imperative handle's `shiftLeft` and `shiftRight` (lines 61-67) call the bare
  index updaters. They bypass the busy guard. They leave the style tag and
  auto-scroll suppression alone (`HandleShift`, `HandleShiftBypassesGuard`).
- The release (lines 203-211) clears only `waiting`. It never resets the style tag,
  on either path. The tag changes only when a rotation is admitted.
- The fast path of `jumpToIndex` (line 222) locks the engine too. Line 216 sets
  `waiting` in every branch, so a release is still needed (`JumpFastPathLocks`).
- The list-change effect (lines 69-80) first clamps with the slot count of the
  previous render. It clamps again only when that count changes
  (`ChangeChildren`). So after mounting with no children the index is -1
  (`Initial`). It stays -1 only while the children keep the same reference:
  every further run of the effect on an empty list flips it between -1 and 0
  (`ClampOnEmptyList`, `EmptyListFlipsIndex`).
- The two-stage clamp differs from a plain clamp when the list grows after a
  jump has pushed the index past the old list. The first run pins the index to
  the OLD last slot and the second run keeps it there. For example, five
  children and index 20 growing to twelve children give index 9, not 11
  (`GrowAfterEscapedJumpPinsToOldEnd`).
- With one, three, four or five children, the dot indicator gets all `2c`
  slots of the doubled list. The selected dot is `showingIndex % c`, so the
  second copy's dots are never highlighted (`DuplicateDotsNeverSelected`).
  Only `c == 2` is truncated.

## Model

| member | source | states |
|---|---|---|
| `CarouselIndex.WorkingCount` | src/components/Carousel/CarouselComponents/Carousel.tsx:73 | the working list has `2c` slots for `c <= 5` and `c` otherwise; never exactly one slot; at least two slots for any non-empty list, at least six from three children |
| `CarouselIndex.WorkingList` | src/components/Carousel/CarouselComponents/Carousel.tsx:69-74 | the working list has `WorkingCount` slots and slot `k` shows the caller's item `k mod c` |
| `CarouselIndex.Origin` | src/components/Carousel/CarouselComponents/Carousel.tsx:73 | the caller's item behind working slot `k` lies in `[0, c)` and is `k mod c` |
| `CarouselIndex.PrevIndex` | src/components/Carousel/CarouselComponents/Carousel.tsx:55 | for an in-range showing index, prev is in `[0, n)`, and differs from it when `n >= 2` |
| `CarouselIndex.DoublePrevIndex` | src/components/Carousel/CarouselComponents/Carousel.tsx:56 | for `n >= 2` and an in-range index, doublePrev is in `[0, n)`; it differs from the index when `n >= 3` |
| `CarouselIndex.NextIndex` | src/components/Carousel/CarouselComponents/Carousel.tsx:57 | for an in-range index, next is in `[0, n)`, and differs from it when `n >= 2` |
| `CarouselIndex.DoubleNextIndex` | src/components/Carousel/CarouselComponents/Carousel.tsx:58 | for `n >= 2` and an in-range index, doubleNext is in `[0, n)`; it differs from the index when `n >= 3` |
| `CarouselIndex.NeighboursAreCircularOffsets` | src/components/Carousel/CarouselComponents/Carousel.tsx:55-58 | the four conditional expressions equal the circular offsets `(s-1) mod n`, `(s+1) mod n`, `(s-2) mod n`, `(s+2) mod n` |
| `CarouselIndex.SingleSlotBreaksDoubleNeighbours` | src/components/Carousel/CarouselComponents/Carousel.tsx:56-58 | with one slot the double neighbours are 1 and -1, out of range: the reason the list is never one slot long |
| `CarouselIndex.NeighbourItemsFollowCallerList` | src/components/Carousel/CarouselComponents/Carousel.tsx:55-73 | for two or more children, the items in the showing and four neighbour slots of the working list are the showing item and its circular neighbours in the caller's own list |
| `CarouselIndex.ShiftLeft` | src/components/Carousel/CarouselComponents/Carousel.tsx:125-132 | for any prior index the result lies in `[0, n)` (`n >= 1`); for an in-range prior index it is `PrevIndex` |
| `CarouselIndex.ShiftRight` | src/components/Carousel/CarouselComponents/Carousel.tsx:135-146 | for any prior index the result lies in `[0, n)` (`n >= 1`); for an in-range prior index it is `NextIndex` |
| `CarouselIndex.ShiftsAreInverse` | src/components/Carousel/CarouselComponents/Carousel.tsx:125-146 | on an in-range index a left shift and a right shift undo each other |
| `CarouselIndex.Clamp` | src/components/Carousel/CarouselComponents/Carousel.tsx:75-79 | an index at or past the end goes to `n - 1`, a negative one to 0 (for `n >= 0`), an in-range index is kept; the result lies in `[0, n)` for `n >= 1` |
| `CarouselIndex.ClampIsIdempotent` | src/components/Carousel/CarouselComponents/Carousel.tsx:75-79 | on a non-empty list clamping twice equals clamping once |
| `CarouselIndex.ClampOnEmptyList` | src/components/Carousel/CarouselComponents/Carousel.tsx:75-79 | on an empty list the clamp maps 0 to -1 and -1 to 0 |
| `CarouselIndex.SlotRole` | src/components/Carousel/CarouselComponents/Carousel.tsx:86-99 | a slot is showing exactly when it is the showing index; it is unstyled exactly when it is none of the five indices; each neighbour role is held only by the slot with that index |
| `CarouselIndex.RolesAreDistinctOnLargeLists` | src/components/Carousel/CarouselComponents/Carousel.tsx:86-99 | with five slots or more, each role is held by exactly the slot whose index it names |
| `CarouselIndex.TwoSlotsOtherIsPrev` | src/components/Carousel/CarouselComponents/Carousel.tsx:86-99 | with two slots, the other slot is both prev and next, is styled as prev, and no slot is styled as next |
| `CarouselIndex.FourSlotsOppositeIsDoublePrev` | src/components/Carousel/CarouselComponents/Carousel.tsx:86-99 | with four slots the opposite slot is both double neighbours and is styled as doublePrev; none as doubleNext |
| `CarouselIndex.StyleOf` | src/components/Carousel/CarouselComponents/Carousel.tsx:86-99 | a slot's style carries its role, and the left-click class exactly when the tag is set and the role is a neighbour role; tied to the events by `StyleTagFollowsRotations` |
| `CarouselIndex.DotItems` | src/components/Carousel/CarouselComponents/Carousel.tsx:286-292 | with exactly two children the indicator gets the two original items; otherwise the whole working list |
| `CarouselIndex.JsRemainder` | src/components/Carousel/CarouselComponents/Carousel.tsx:293 | JavaScript `%`: for a non-negative dividend the remainder is the mathematical one in `[0, b)`; for a negative one it lies in `(-b, 0]` |
| `CarouselIndex.JsRemainderIsOdd` | src/components/Carousel/CarouselComponents/Carousel.tsx:293 | JavaScript's remainder is odd in its dividend |
| `CarouselIndex.DotSelected` | src/components/Carousel/CarouselComponents/Carousel.tsx:293 | the selected dot is undefined (`NaN`) exactly when there are no children; for a non-negative index it is `showingIndex mod c` in `[0, c)` |
| `CarouselIndex.SelectedDotShowsShowingItem` | src/components/Carousel/CarouselComponents/Carousel.tsx:286-293 | the selected dot is a valid position of the dot list and shows the same item as the showing slot |
| `CarouselIndex.DuplicateDotsNeverSelected` | src/components/Carousel/CarouselComponents/Carousel.tsx:286-293 | with 1, 3, 4 or 5 children the dot list has `2c` entries but the selected dot is always below `c` |
| `CarouselEngine.ChangeChildren` | src/components/Carousel/CarouselComponents/Carousel.tsx:69-80 | the children count is updated and the flags kept; for a non-empty list the index ends in range; an index in range of both the old and new list is kept; an index in range of the old list but past the new end goes to the new last slot |
| `CarouselEngine.Initial` | src/components/Carousel/CarouselComponents/Carousel.tsx:40-80 | after mounting the engine is idle, untagged and unsuppressed, showing slot 0; with no children the index is -1 |
| `CarouselEngine.Rotate` | src/components/Carousel/CarouselComponents/Carousel.tsx:149-172 | with the captured `waiting` true nothing changes; otherwise `waiting` is set, the tag is set for L and cleared for R, the index moves to prev (L) or next (R) and, for a non-empty list, lands in range for any prior index; suppression and the children are untouched |
| `CarouselEngine.Click` | src/components/Carousel/CarouselComponents/Carousel.tsx:229-232 | a click always sets suppression and otherwise acts as a guarded rotation; on a busy engine it changes only suppression |
| `CarouselEngine.SwipeDirection` | src/components/Carousel/CarouselComponents/Carousel.tsx:114-122 | a swipe to the right requests L and a swipe to the left requests R |
| `CarouselEngine.JumpToIndex` | src/components/Carousel/CarouselComponents/Carousel.tsx:214-226 | busy: nothing changes; idle: `waiting` and suppression are set in every branch; the prev target acts exactly as a Left click, the next target (when not prev) as a Right click, any other target is taken verbatim with the tag unchanged |
| `CarouselEngine.HandleShift` | src/components/Carousel/CarouselComponents/Carousel.tsx:61-67 | the handle's shifts change only the index, to prev or next for an in-range index and, for a non-empty list, into range for any index, whatever `waiting` is |
| `CarouselEngine.AutoScrollArmed` | src/components/Carousel/CarouselComponents/Carousel.tsx:176-180 | the interval is installed exactly when suppression is off and the interval is defined and above 500 ms; an interval of exactly 500 disables it |
| `CarouselEngine.Tick` | src/components/Carousel/CarouselComponents/Carousel.tsx:175-187 | a tick is a guarded Right rotation when suppression is off and the interval is defined and above 500 ms, and a no-op otherwise; it never touches suppression |
| `CarouselEngine.Release` | src/components/Carousel/CarouselComponents/Carousel.tsx:203-211 | the release clears `waiting` and leaves index, tag, suppression and children unchanged |
| `CarouselEngine.ClearSuppression` | src/components/Carousel/CarouselComponents/Carousel.tsx:190-200 | the end of the click delay clears suppression when the delay prop is defined, and is a no-op otherwise; nothing else changes |
| `CarouselEngine.Step` | src/components/Carousel/CarouselComponents/Carousel.tsx:61-294 | events are wired to handlers: the arrow buttons (:247-249, :271) and swipes (:114-122) call `clickHandler` and always set suppression, a swipe right being a Left click and a swipe left a Right click; dots (:294) and the handle (:65) call `jumpToIndexHandler`, which locks an idle engine; only a children change alters the count; on a busy engine only a release, a handle shift or a children change can alter the index, the tag or the busy flag |
| `CarouselEngine.StyleTagFollowsRotations` | src/components/Carousel/CarouselComponents/Carousel.tsx:86-99 | after an admitted Left rotation the new prev slot is rendered with the left-click class and the showing slot without; after an admitted Right rotation no slot has it; a release leaves every slot's style unchanged (:155-165, :203-211) |
| `CarouselEngine.GrowAfterEscapedJumpPinsToOldEnd` | src/components/Carousel/CarouselComponents/Carousel.tsx:75-80 | five children with index 20 growing to twelve children end at index 9, the old last slot, not 11 |
| `CarouselEngine.EmptyListFlipsIndex` | src/components/Carousel/CarouselComponents/Carousel.tsx:75-79 | on an empty list one more run of the effect takes index 0 to -1 and -1 to 0 |
| `CarouselEngine.JumpGuardReadsOldValue` | src/components/Carousel/CarouselComponents/Carousel.tsx:149-151 | an idle jump to prev moves the index, though a rotation guarded by the freshly set `waiting` would have been refused |
| `CarouselEngine.JumpFastPathLocks` | src/components/Carousel/CarouselComponents/Carousel.tsx:214-225 | a jump to a non-neighbour target sets the index verbatim and sets `waiting` and suppression, nothing else |
| `CarouselEngine.TwoSlotJumpToNextIsLeft` | src/components/Carousel/CarouselComponents/Carousel.tsx:217-220 | with two slots, a jump to the next slot is a Left click and sets the tag |
| `CarouselEngine.JumpToNextIsRightClick` | src/components/Carousel/CarouselComponents/Carousel.tsx:214-232 | with more than two slots, a jump to next equals a Right click when idle and is dropped when busy |
| `CarouselEngine.BusyRequestsAreDropped` | src/components/Carousel/CarouselComponents/Carousel.tsx:214-232 | on a busy engine a click only sets suppression and a jump changes nothing |
| `CarouselEngine.HandleShiftBypassesGuard` | src/components/Carousel/CarouselComponents/Carousel.tsx:61-67 | on a busy engine with two slots or more the handle's shifts still move the index |
| `CarouselEngine.ClicksAreMutuallyExclusive` | src/components/Carousel/CarouselComponents/Carousel.tsx:149-172 | two clicks without a release in between commit one index change, tagged by the first direction |
| `CarouselEngine.ReleaseReadmits` | src/components/Carousel/CarouselComponents/Carousel.tsx:203-211 | after a click and its release, the next click is admitted and moves the index again |
| `CarouselEngine.ShortIntervalDisablesAutoScroll` | src/components/Carousel/CarouselComponents/Carousel.tsx:176-180 | with no interval or one of at most 500 ms, a tick never changes the state |
| `CarouselEngine.ClickSuppressesTicksUntilDelay` | src/components/Carousel/CarouselComponents/Carousel.tsx:175-200 | a tick right after a click does nothing; after the delay and the release, a tick rotates right |
| `CarouselEngine.BusyEngineIsFrozen` | src/components/Carousel/CarouselComponents/Carousel.tsx:149-232 | over any event sequence without a release, a handle shift or a children change, a busy engine keeps its index, tag and busy flag |
| `CarouselEngine.StepKeepsInRange` | src/components/Carousel/CarouselComponents/Carousel.tsx:75-232 | every event keeps the index in range, except a jump to an out-of-range target and a change to no children |
| `CarouselEngine.JumpOutOfRangeEscapes` | src/components/Carousel/CarouselComponents/Carousel.tsx:221-223 | an idle jump to a target past the list leaves the index out of range |
| `CarouselEngine.RunKeepsInRange` | src/components/Carousel/CarouselComponents/Carousel.tsx:125-232 | over any sequence without children changes and with in-range jumps, the index stays in range |
| `CarouselEngine.SuppressionPersists` | src/components/Carousel/CarouselComponents/Carousel.tsx:190-232 | suppression lasts until a click delay elapses with the prop defined; with the prop undefined it lasts for ever, so every later tick is a no-op |
| `CarouselComponent.Carousel.constructor` | src/components/Carousel/CarouselComponents/Carousel.tsx:40-80 | the mounted object's state is `Initial(children)` |
| `CarouselComponent.Carousel.ChildrenChanged` | src/components/Carousel/CarouselComponents/Carousel.tsx:69-80 | the two effect runs leave the state `ChangeChildren(old, c)` |
| `CarouselComponent.Carousel.RotateCarouselHandler` | src/components/Carousel/CarouselComponents/Carousel.tsx:149-172 | the step-by-step updates leave the state `Rotate(old, d, guard)` |
| `CarouselComponent.Carousel.ClickHandler` | src/components/Carousel/CarouselComponents/Carousel.tsx:229-232 | the new state is `Click(old, d)` |
| `CarouselComponent.Carousel.SwipedRight` | src/components/Carousel/CarouselComponents/Carousel.tsx:115-117 | the new state is that of the swipe-right event, a Left click |
| `CarouselComponent.Carousel.SwipedLeft` | src/components/Carousel/CarouselComponents/Carousel.tsx:118-120 | the new state is that of the swipe-left event, a Right click |
| `CarouselComponent.Carousel.JumpToIndexHandler` | src/components/Carousel/CarouselComponents/Carousel.tsx:214-226 | the new state is `JumpToIndex(old, index)`, with the nested rotation given the pre-event `waiting` |
| `CarouselComponent.Carousel.ShiftLeft` | src/components/Carousel/CarouselComponents/Carousel.tsx:125-132 | the handle's left shift leaves the state `HandleShift(old, L)` |
| `CarouselComponent.Carousel.ShiftRight` | src/components/Carousel/CarouselComponents/Carousel.tsx:135-146 | the handle's right shift leaves the state `HandleShift(old, R)` |
| `CarouselComponent.Carousel.AutoScrollTick` | src/components/Carousel/CarouselComponents/Carousel.tsx:175-187 | the new state is `Tick(old, config)` |
| `CarouselComponent.Carousel.AnimationReleased` | src/components/Carousel/CarouselComponents/Carousel.tsx:203-211 | the new state is `Release(old)` |
| `CarouselComponent.Carousel.ClickDelayElapsed` | src/components/Carousel/CarouselComponents/Carousel.tsx:190-200 | the new state is `ClearSuppression(old, config)` |

## Left out

- JSX rendering, the CSS module class strings, width, height, colours, 2D/3D mode and
  out-of-focus darkening are UI. The four neighbour style strings appear only as the
  left-click tag (`leftClick`), and a slot's styling only as its role plus that tag
  (`StyleOf`).
- The `CarouselItem`, `Arrow` and `DotsNavigation` components are not part of this
  model. Only what the carousel passes to the dot indicator is modelled: the item
  list and the selected index.
- `setTimeout`, `setInterval`, the Promise-based `delay`, and the teardown and
  rebuild of the interval are real-time scheduling. There is no clock. The three
  timer callbacks are the events `AutoScrollTicked`, `AnimationReleased` and
  `ClickDelayElapsed`, and any of them may occur at any point of an event sequence.
  So the model does not state when an interval restarts (it is rebuilt whenever
  `waiting` or suppression changes). It also does not state that a release always
  follows a lock.
- Gesture recognition (`react-swipeable`, including scroll prevention) and the
  `useImperativeHandle` wiring are foreign library calls. Only their results
  are modelled: the L/R requests and the calls to the three handle functions.
- React's render and effect scheduling and its batching are left out. Each event
  reads the pre-event state and applies its updates in order. So the model does
  not capture several events queued within one render.
- Filtering out falsy children with `React.Children` is left out. The working list
  is modelled by the children's count (in the engine) or as a sequence (in
  `WorkingList`, `DotItems`), with every child rendered.
- Interval and delay durations are natural milliseconds, not floating-point
  numbers. Only whether a duration is defined, and whether the interval exceeds
  500, matter.
- Jump targets are integers. In the source the target is a JavaScript `number`
  (lines 34, 65, 214), and a fractional or `NaN` target is stored verbatim (line 222).
  After a `NaN` target, every comparison at lines 127 and 138-140 is false, so every
  later shift yields `NaN` too. The model does not capture a non-integer index.
- Changes to the timing props in a live component are left out: the props are a
  constant `config` of the object.
