/**
  The pure index arithmetic of the carousel: the circular working list of
  slots, the four neighbour indices of the showing slot, the functional
  updaters that shift the showing index, the clamp applied when the list
  changes, the role each slot is rendered with, and the dot-navigation list
  and selected dot.

  Indices are unbounded integers: the showing index can leave the range of
  the working list (a jump takes its target verbatim), so every function
  here is total over `int` and the range facts are stated for in-range
  arguments.
 */
module CarouselIndex {
  import opened Wrappers

  /** Number of slots of the working list built from `c` children:
      five or fewer children are concatenated with themselves. */
  function WorkingCount(c: nat): (n: nat)
    ensures c <= 5 ==> n == 2 * c
    ensures c > 5 ==> n == c
    ensures n != 1
    ensures c >= 1 ==> n >= 2
    ensures c >= 3 ==> n >= 6
  {
    if c <= 5 then c + c else c
  }

  /** The working list actually rendered: the children, doubled when there
      are five or fewer of them. */
  function WorkingList<T>(items: seq<T>): (w: seq<T>)
    ensures |w| == WorkingCount(|items|)
    ensures forall k :: 0 <= k < |w| ==> w[k] == items[Origin(k, |items|)]
  {
    var w := if |items| <= 5 then items + items else items;
    assert forall k :: 0 <= k < |w| ==> w[k] == items[Origin(k, |items|)] by {
      forall k | 0 <= k < |w|
        ensures w[k] == items[Origin(k, |items|)]
      {
        if |items| <= 5 && k >= |items| {
          assert w[k] == items[k - |items|];
        }
      }
    }
    w
  }

  /** Index in the caller's list of the item that working slot `k` shows. */
  function Origin(k: int, c: nat): (j: int)
    requires 0 <= k < WorkingCount(c)
    ensures 0 <= j < c
    ensures j == k % c
  {
    if k < c then k else k - c
  }

  // ---------------------------------------------------------------------
  // Neighbour indices of the showing slot `s` in a working list of `n` slots

  function PrevIndex(s: int, n: int): (r: int)
    ensures 0 <= s < n ==> 0 <= r < n
    ensures 2 <= n && 0 <= s < n ==> r != s
  {
    if s == 0 then n - 1 else s - 1
  }

  function DoublePrevIndex(s: int, n: int): (r: int)
    ensures 2 <= n && 0 <= s < n ==> 0 <= r < n
    ensures 3 <= n && 0 <= s < n ==> r != s
  {
    if s == 0 then n - 2 else if s == 1 then n - 1 else s - 2
  }

  function NextIndex(s: int, n: int): (r: int)
    ensures 0 <= s < n ==> 0 <= r < n
    ensures 2 <= n && 0 <= s < n ==> r != s
  {
    if s == n - 1 then 0 else s + 1
  }

  function DoubleNextIndex(s: int, n: int): (r: int)
    ensures 2 <= n && 0 <= s < n ==> 0 <= r < n
    ensures 3 <= n && 0 <= s < n ==> r != s
  {
    if s == n - 1 then 1 else if s == n - 2 then 0 else s + 2
  }

  /** The four neighbour expressions are the circular offsets -1, +1, -2
      and +2 of the showing slot, modulo the number of slots. */
  lemma NeighboursAreCircularOffsets(s: int, n: int)
    requires 0 <= s < n
    ensures PrevIndex(s, n) == (s - 1) % n
    ensures NextIndex(s, n) == (s + 1) % n
    ensures n >= 2 ==> DoublePrevIndex(s, n) == (s - 2) % n
    ensures n >= 2 ==> DoubleNextIndex(s, n) == (s + 2) % n
  {
    ModOfShifted(s - 1, n);
    ModOfShifted(s + 1, n);
    if n >= 2 {
      ModOfShifted(s - 2, n);
      ModOfShifted(s + 2, n);
    }
  }

  /** `x % n` for an `x` at most one period away from `[0, n)`. */
  lemma ModOfShifted(x: int, n: int)
    requires n >= 1 && -n <= x < 2 * n
    ensures x % n == if x < 0 then x + n else if x >= n then x - n else x
  {
  }

  /** A working list of one slot would put the double neighbours out of
      range; the duplication rule never builds one (`WorkingCount(c) != 1`). */
  lemma SingleSlotBreaksDoubleNeighbours()
    ensures DoubleNextIndex(0, 1) == 1 && DoublePrevIndex(0, 1) == -1
  {
  }

  /** The item rendered in each neighbour slot of the working list is the
      circular neighbour, in the caller's own list, of the showing item.
      This is what the duplication of short lists buys. */
  lemma NeighbourItemsFollowCallerList<T>(items: seq<T>, s: int)
    requires |items| >= 2
    requires 0 <= s < |WorkingList(items)|
    ensures var w, n, c, t := WorkingList(items), |WorkingList(items)|, |items|, s % |items|;
      w[s] == items[t] &&
      w[PrevIndex(s, n)] == items[PrevIndex(t, c)] &&
      w[NextIndex(s, n)] == items[NextIndex(t, c)] &&
      w[DoublePrevIndex(s, n)] == items[DoublePrevIndex(t, c)] &&
      w[DoubleNextIndex(s, n)] == items[DoubleNextIndex(t, c)]
  {
  }

  // ---------------------------------------------------------------------
  // Functional updaters of the showing index

  /** The updater of `shiftLeft`: wraps to the last slot from slot 0 and
      from any index whose predecessor lies outside the list. */
  function ShiftLeft(prev: int, n: int): (r: int)
    ensures n >= 1 ==> 0 <= r < n
    ensures 0 <= prev < n ==> r == PrevIndex(prev, n)
  {
    if prev == 0 || prev - 1 > n - 1 || prev - 1 < 0 then n - 1 else prev - 1
  }

  /** The updater of `shiftRight`: wraps to slot 0 from the last slot and
      from any index whose successor lies outside the list. */
  function ShiftRight(prev: int, n: int): (r: int)
    ensures n >= 1 ==> 0 <= r < n
    ensures 0 <= prev < n ==> r == NextIndex(prev, n)
  {
    if prev == n - 1 || prev + 1 > n - 1 || prev + 1 < 0 then 0 else prev + 1
  }

  /** The two updaters undo each other on an in-range index. */
  lemma ShiftsAreInverse(s: int, n: int)
    requires 0 <= s < n
    ensures ShiftRight(ShiftLeft(s, n), n) == s
    ensures ShiftLeft(ShiftRight(s, n), n) == s
  {
  }

  /** The re-clamp applied to the showing index when the list changes. */
  function Clamp(prev: int, n: int): (r: int)
    ensures n >= 1 ==> 0 <= r < n
    ensures 0 <= prev < n ==> r == prev
    ensures prev >= n ==> r == n - 1
    ensures prev < 0 <= n ==> r == 0
  {
    if prev >= n then n - 1 else if prev < 0 then 0 else prev
  }

  /** On a non-empty list, clamping twice is clamping once. */
  lemma ClampIsIdempotent(prev: int, n: int)
    requires n >= 1
    ensures Clamp(Clamp(prev, n), n) == Clamp(prev, n)
  {
  }

  /** With an empty list the clamp is not idempotent: it pins 0 to -1 and
      -1 back to 0. */
  lemma ClampOnEmptyList()
    ensures Clamp(0, 0) == -1 && Clamp(-1, 0) == 0
  {
  }

  // ---------------------------------------------------------------------
  // Role of each rendered slot

  datatype Role = Showing | Prev | Next | DoublePrev | DoubleNext | Plain

  predicate IsNeighbourRole(r: Role) {
    r == Prev || r == Next || r == DoublePrev || r == DoubleNext
  }

  /** The role slot `k` is rendered with: showing first, then prev, next,
      doublePrev and doubleNext, in that order of precedence. */
  function SlotRole(k: int, s: int, n: int): (r: Role)
    ensures r == Showing <==> k == s
    ensures r == Plain <==>
      k != s && k != PrevIndex(s, n) && k != NextIndex(s, n) &&
      k != DoublePrevIndex(s, n) && k != DoubleNextIndex(s, n)
    ensures r == Prev ==> k == PrevIndex(s, n)
    ensures r == Next ==> k == NextIndex(s, n)
    ensures r == DoublePrev ==> k == DoublePrevIndex(s, n)
    ensures r == DoubleNext ==> k == DoubleNextIndex(s, n)
  {
    if k == s then Showing
    else if k == PrevIndex(s, n) then Prev
    else if k == NextIndex(s, n) then Next
    else if k == DoublePrevIndex(s, n) then DoublePrev
    else if k == DoubleNextIndex(s, n) then DoubleNext
    else Plain
  }

  /** With five slots or more, the five neighbourhood indices are distinct,
      so each of the five roles is held by exactly the slot it names. */
  lemma RolesAreDistinctOnLargeLists(s: int, n: int)
    requires n >= 5 && 0 <= s < n
    ensures SlotRole(s, s, n) == Showing
    ensures SlotRole(PrevIndex(s, n), s, n) == Prev
    ensures SlotRole(NextIndex(s, n), s, n) == Next
    ensures SlotRole(DoublePrevIndex(s, n), s, n) == DoublePrev
    ensures SlotRole(DoubleNextIndex(s, n), s, n) == DoubleNext
    ensures forall k :: SlotRole(k, s, n) == Prev <==> k == PrevIndex(s, n)
    ensures forall k :: SlotRole(k, s, n) == Next <==> k == NextIndex(s, n)
    ensures forall k :: SlotRole(k, s, n) == DoublePrev <==> k == DoublePrevIndex(s, n)
    ensures forall k :: SlotRole(k, s, n) == DoubleNext <==> k == DoubleNextIndex(s, n)
  {
  }

  /** With two slots the other slot is both prev and next; it is rendered
      as prev, and no slot is ever rendered as next. */
  lemma TwoSlotsOtherIsPrev(s: int)
    requires 0 <= s < 2
    ensures PrevIndex(s, 2) == NextIndex(s, 2) == 1 - s
    ensures SlotRole(1 - s, s, 2) == Prev
    ensures forall k :: SlotRole(k, s, 2) != Next
  {
  }

  /** With four slots (two children) the opposite slot is both double
      neighbours; it is rendered as doublePrev. */
  lemma FourSlotsOppositeIsDoublePrev(s: int)
    requires 0 <= s < 4
    ensures DoublePrevIndex(s, 4) == DoubleNextIndex(s, 4)
    ensures SlotRole(DoublePrevIndex(s, 4), s, 4) == DoublePrev
    ensures forall k :: SlotRole(k, s, 4) != DoubleNext
  {
  }

  /** The style a slot is rendered with: its role, and the left-click tag
      that the four neighbour styles carry after a Left rotation. */
  datatype SlotStyle = SlotStyle(role: Role, leftClick: bool)

  function StyleOf(k: int, s: int, n: int, leftTag: bool): (st: SlotStyle)
    ensures st.role == SlotRole(k, s, n)
    ensures st.leftClick <==> leftTag && IsNeighbourRole(st.role)
  {
    var role := SlotRole(k, s, n);
    SlotStyle(role, leftTag && role != Showing && role != Plain)
  }

  // ---------------------------------------------------------------------
  // Dot navigation

  /** The list handed to the dot indicator: only the first two slots when
      there are exactly two children, otherwise the whole working list. */
  function DotItems<T>(items: seq<T>): (d: seq<T>)
    ensures |items| == 2 ==> d == items
    ensures |items| != 2 ==> d == WorkingList(items)
    ensures |d| == if |items| == 2 then 2 else WorkingCount(|items|)
  {
    var w := WorkingList(items);
    if |items| == 2 then w[..2] else w
  }

  /** JavaScript's `%` on integers: the remainder takes the sign of the
      dividend (truncating division). */
  function JsRemainder(a: int, b: int): (r: int)
    requires b > 0
    ensures a >= 0 ==> 0 <= r < b && r == a % b
    ensures a < 0 ==> -b < r <= 0
  {
    if a >= 0 then a % b else -((-a) % b)
  }

  /** Unlike Dafny's Euclidean `%`, JavaScript's remainder is odd in its
      dividend. */
  lemma JsRemainderIsOdd(a: int, b: int)
    requires b > 0
    ensures JsRemainder(-a, b) == -JsRemainder(a, b)
  {
  }

  /** The selected dot, `showingIndex % childrenCount`; `None` stands for
      the `NaN` that JavaScript yields with no children. */
  function DotSelected(s: int, c: nat): (r: Option<int>)
    ensures r.None? <==> c == 0
    ensures c >= 1 && s >= 0 ==> r.Some? && 0 <= r.value < c && r.value == s % c
  {
    if c == 0 then None else Some(JsRemainder(s, c))
  }

  /** The selected dot shows the same item as the showing slot. */
  lemma SelectedDotShowsShowingItem<T>(items: seq<T>, s: int)
    requires |items| >= 1 && 0 <= s < |WorkingList(items)|
    ensures DotSelected(s, |items|).Some?
    ensures 0 <= DotSelected(s, |items|).value < |DotItems(items)|
    ensures DotItems(items)[DotSelected(s, |items|).value] == WorkingList(items)[s]
  {
  }

  /** With one, three, four or five children the dot indicator gets every
      slot of the doubled list, but the selected dot always lies in its
      first half: the dots of the second copy are never highlighted. */
  lemma DuplicateDotsNeverSelected<T>(items: seq<T>, s: int)
    requires 1 <= |items| <= 5 && |items| != 2 && s >= 0
    ensures |DotItems(items)| == 2 * |items|
    ensures DotSelected(s, |items|).value < |items|
  {
  }
}
