/**
  The carousel component as an object whose fields are its React state.
  Each method is one event and performs the state updates the handler
  schedules, one after another; its postcondition ties the new state to
  the matching function of module CarouselEngine, where the properties
  of the engine are proved.
 */
module CarouselComponent {
  import opened Wrappers
  import opened CarouselIndex
  import opened CarouselEngine

  class Carousel {
    /** The timing props. */
    const config: Config

    var showingIndex: int
    var waiting: bool
    /** Whether the four neighbour styles carry the left-click class. */
    var leftClick: bool
    /** The `autoScrollClickDelay` state: auto-scroll is suppressed. */
    var suppressed: bool
    /** Number of children the working list was built from. */
    var childrenCount: nat

    function Snapshot(): State
      reads this
    {
      State(showingIndex, waiting, leftClick, suppressed, childrenCount)
    }

    function SlotCount(): nat
      reads this
    {
      WorkingCount(childrenCount)
    }

    /** The style slot `k` is rendered with. */
    function StyleAt(k: int): SlotStyle
      reads this
    {
      StyleOf(k, showingIndex, SlotCount(), leftClick)
    }

    /** The index handed to the dot indicator as selected. */
    function SelectedDot(): Option<int>
      reads this
    {
      DotSelected(showingIndex, childrenCount)
    }

    /** Mounting: the initial state values, then the list-change effect. */
    constructor (children: nat, config: Config)
      ensures this.config == config
      ensures Snapshot() == Initial(children)
    {
      this.config := config;
      showingIndex, waiting, leftClick, suppressed, childrenCount := 0, false, false, false, 0;
      new;
      ChildrenChanged(children);
    }

    /** The list-change effect, run first with the slot count of the
        previous render and again once the slot count has changed. */
    method ChildrenChanged(c: nat)
      modifies this
      ensures Snapshot() == ChangeChildren(old(Snapshot()), c)
    {
      var staleSlots := SlotCount();
      childrenCount := c;
      showingIndex := Clamp(showingIndex, staleSlots);
      if SlotCount() != staleSlots {
        showingIndex := Clamp(showingIndex, SlotCount());
      }
    }

    /** `rotateCarouselHandler(d)` as captured by a closure that saw
        `waitingInClosure`. */
    method RotateCarouselHandler(d: Dir, waitingInClosure: bool)
      modifies this
      ensures Snapshot() == Rotate(old(Snapshot()), d, waitingInClosure)
    {
      if !waitingInClosure {
        waiting := true;
        match d
        case L =>
          leftClick := true;
          showingIndex := CarouselIndex.ShiftLeft(showingIndex, SlotCount());
        case R =>
          leftClick := false;
          showingIndex := CarouselIndex.ShiftRight(showingIndex, SlotCount());
      }
    }

    /** An arrow click. */
    method ClickHandler(d: Dir)
      modifies this
      ensures Snapshot() == Click(old(Snapshot()), d)
    {
      RotateCarouselHandler(d, waiting);
      suppressed := true;
    }

    method SwipedRight()
      modifies this
      ensures Snapshot() == Step(old(Snapshot()), config, Swiped(Gesture.SwipedRight))
    {
      ClickHandler(L);
    }

    method SwipedLeft()
      modifies this
      ensures Snapshot() == Step(old(Snapshot()), config, Swiped(Gesture.SwipedLeft))
    {
      ClickHandler(R);
    }

    /** `jumpToIndexHandler(index)`, from a dot or from the handle. */
    method JumpToIndexHandler(index: int)
      modifies this
      ensures Snapshot() == JumpToIndex(old(Snapshot()), index)
    {
      var waitingAtRender := waiting;
      var prev, next := PrevIndex(showingIndex, SlotCount()), NextIndex(showingIndex, SlotCount());
      if !waitingAtRender {
        waiting := true;
        if index == prev {
          RotateCarouselHandler(L, waitingAtRender);
        } else if index == next {
          RotateCarouselHandler(R, waitingAtRender);
        } else {
          showingIndex := index;
        }
        suppressed := true;
      }
    }

    /** `shiftLeft` of the imperative handle. */
    method ShiftLeft()
      modifies this
      ensures Snapshot() == HandleShift(old(Snapshot()), L)
    {
      showingIndex := CarouselIndex.ShiftLeft(showingIndex, SlotCount());
    }

    /** `shiftRight` of the imperative handle. */
    method ShiftRight()
      modifies this
      ensures Snapshot() == HandleShift(old(Snapshot()), R)
    {
      showingIndex := CarouselIndex.ShiftRight(showingIndex, SlotCount());
    }

    /** One firing of the auto-scroll interval, if it is installed. */
    method AutoScrollTick()
      modifies this
      ensures Snapshot() == Tick(old(Snapshot()), config)
    {
      if !suppressed && config.autoScrollInterval.Some? && config.autoScrollInterval.value > AnimationTime {
        RotateCarouselHandler(R, waiting);
      }
    }

    /** The end of the animation delay. */
    method AnimationReleased()
      modifies this
      ensures Snapshot() == Release(old(Snapshot()))
    {
      waiting := false;
    }

    /** The end of the post-click delay. */
    method ClickDelayElapsed()
      modifies this
      ensures Snapshot() == ClearSuppression(old(Snapshot()), config)
    {
      if config.autoScrollClickDelay.Some? {
        suppressed := false;
      }
    }
  }

  /** A client of the class: three children, so six slots. */
  method ThreeChildrenScenario()
  {
    var c := new Carousel(3, Config(Some(1000), Some(2000)));
    assert c.showingIndex == 0 && c.SlotCount() == 6;
    assert c.StyleAt(5).role == Prev && c.StyleAt(1).role == Next;
    c.ClickHandler(R);
    assert c.showingIndex == 1 && c.waiting && c.suppressed;
    c.ClickHandler(R);
    assert c.showingIndex == 1;
    c.AutoScrollTick();
    assert c.showingIndex == 1;
    c.AnimationReleased();
    c.ClickHandler(L);
    assert c.showingIndex == 0 && c.leftClick && c.StyleAt(5).leftClick;
    c.AnimationReleased();
    c.JumpToIndexHandler(4);
    assert c.showingIndex == 4 && c.waiting && c.leftClick;
    assert c.SelectedDot() == Some(1);
    c.AnimationReleased();
    c.ClickDelayElapsed();
    c.AutoScrollTick();
    assert c.showingIndex == 5 && !c.leftClick;
  }
}
