/**
 * Windowed binary search over an inclusive index window [start, end] of a
 * list of integers, and the driver that looks up an ascending list of
 * targets, moving the window's start past each target it finds.
 */
module BinarySearch {

  datatype Option<T> = None | Some(value: T)

  /** The inclusive index window [start, end] one search works on. */
  datatype Window = Window(start: int, end: int)

  /** Sorted with no duplicates; the driver's assumption on both its lists. */
  ghost predicate StrictlySorted(s: seq<int>)
  {
    forall i, j :: 0 <= i < j < |s| ==> s[i] < s[j]
  }

  /** Sorted ascending within the window s[lo..hi], both ends included; nothing is said outside it. */
  ghost predicate SortedIn(s: seq<int>, lo: int, hi: int)
  {
    forall i, j :: lo <= i < j <= hi && 0 <= i && j < |s| ==> s[i] <= s[j]
  }

  /** Strictly ascending within the window s[lo..hi]. */
  ghost predicate StrictlySortedIn(s: seq<int>, lo: int, hi: int)
  {
    forall i, j :: lo <= i < j <= hi && 0 <= i && j < |s| ==> s[i] < s[j]
  }

  /** A window that is strictly ascending is sorted. */
  lemma StrictlySortedInIsSortedIn(s: seq<int>, lo: int, hi: int)
    requires StrictlySortedIn(s, lo, hi)
    ensures SortedIn(s, lo, hi)
  {
  }

  /**
   * Reference definition, independent of binary search: the first index of
   * `x` in s[lo..hi] (both ends included) found by a left-to-right scan, or
   * -1 when `x` does not occur there.
   */
  function IndexOf(s: seq<int>, x: int, lo: nat, hi: int): (r: int)
    requires hi < |s|
    ensures r == -1 || (lo <= r <= hi && s[r] == x && forall i :: lo <= i < r ==> s[i] != x)
    ensures r == -1 <==> forall i :: lo <= i <= hi ==> s[i] != x
    decreases hi - lo + 1
  {
    if lo > hi then -1
    else if s[lo] == x then lo
    else IndexOf(s, x, lo + 1, hi)
  }

  /** When none of s[lo..start-1] is `x`, scanning from `lo` or from `start` finds the same index. */
  lemma {:induction false} IndexOfSkipsPrefix(s: seq<int>, x: int, lo: nat, start: nat, hi: int)
    requires hi < |s| && lo <= start <= hi + 1
    requires forall m :: lo <= m < start ==> s[m] != x
    ensures IndexOf(s, x, lo, hi) == IndexOf(s, x, start, hi)
    decreases start - lo
  {
    if lo < start {
      IndexOfSkipsPrefix(s, x, lo + 1, start, hi);
    }
  }

  /** In a strictly ascending window an occurrence is unique, so it is the one the scan finds. */
  lemma StrictlySortedIndexOf(s: seq<int>, x: int, lo: nat, hi: int, r: int)
    requires hi < |s| && StrictlySortedIn(s, lo, hi)
    requires lo <= r <= hi && s[r] == x
    ensures IndexOf(s, x, lo, hi) == r
  {
  }

  // ---------------------------------------------------------------------
  // The window and its probe

  /**
   * Window defaults: `start = p_start or 0`, `end = p_end or len - 1`, and a
   * caller's `p_end == 0` restored afterwards. The net effect is that every
   * value the caller gives is honoured, 0 included, and only a missing bound
   * takes its default.
   */
  function Resolve(len: nat, pStart: Option<nat>, pEnd: Option<int>): (w: Window)
    ensures w.start == (if pStart.Some? then pStart.value else 0)
    ensures w.end == (if pEnd.Some? then pEnd.value else len - 1)
  {
    var start := if pStart.Some? && pStart.value != 0 then pStart.value else 0;
    var defaultedEnd := if pEnd.Some? && pEnd.value != 0 then pEnd.value else len - 1;
    var end := if pEnd == Some(0) then 0 else defaultedEnd;
    Window(start, end)
  }

  /** The probe `start + (end - start) // 2`: inside the window, splitting it into halves that differ by at most one. */
  function Midpoint(start: int, end: int): (m: int)
    requires start <= end
    ensures start <= m <= end
    ensures m - start <= end - m <= m - start + 1
  {
    start + (end - start) / 2
  }

  // ---------------------------------------------------------------------
  // The iteration bound

  /** Number of binary digits of `w`: floor(log2 w) + 1 for w >= 1, and 0 for an empty window. */
  function Bits(w: int): nat
    decreases w
  {
    if w <= 0 then 0 else 1 + Bits(w / 2)
  }

  /** 2^k. */
  function Pow2(k: nat): nat
  {
    if k == 0 then 1 else 2 * Pow2(k - 1)
  }

  /** Bits(w) is floor(log2 w) + 1: 2^(Bits(w)-1) <= w < 2^Bits(w). */
  lemma {:induction false} BitsIsFloorLog2PlusOne(w: int)
    requires w >= 1
    ensures Bits(w) >= 1
    ensures Pow2(Bits(w) - 1) <= w < Pow2(Bits(w))
  {
    if w >= 2 {
      BitsIsFloorLog2PlusOne(w / 2);
    }
  }

  /** A wider window never has fewer binary digits. */
  lemma {:induction false} BitsMonotone(a: int, b: int)
    requires a <= b
    ensures Bits(a) <= Bits(b)
    decreases b
  {
    if a > 0 {
      BitsMonotone(a / 2, b / 2);
    }
  }

  // ---------------------------------------------------------------------
  // What a probe rules out on a sorted list

  /** In a sorted window [lo, hi], a probe above `item` rules out everything from the probe to the window's end. */
  lemma ProbeAbove(s: seq<int>, item: int, lo: int, midpoint: int, end: int, hi: int)
    requires SortedIn(s, lo, hi) && 0 <= lo <= midpoint <= end <= hi < |s| && s[midpoint] > item
    requires forall i :: end < i <= hi ==> item < s[i]
    ensures forall i :: midpoint - 1 < i <= hi ==> item < s[i]
  {
  }

  /** In a sorted window [lo, hi], a probe below `item` rules out everything from the window's start to the probe. */
  lemma ProbeBelow(s: seq<int>, item: int, lo: int, start: int, midpoint: int, hi: int)
    requires SortedIn(s, lo, hi) && 0 <= lo <= start <= midpoint <= hi < |s| && s[midpoint] < item
    requires forall i :: lo <= i < start ==> s[i] < item
    ensures forall i :: lo <= i < midpoint + 1 ==> s[i] < item
  {
  }

  /** Everything below `start` lies under `item` and everything above `end` over it, with start > end: `item` is not in [lo, hi]. */
  lemma WindowExhausted(s: seq<int>, item: int, lo: nat, start: int, end: int, hi: int)
    requires hi < |s| && end < start
    requires forall i :: lo <= i < start && i <= hi ==> s[i] < item
    requires forall i :: end < i <= hi && 0 <= i ==> item < s[i]
    ensures forall i :: lo <= i <= hi ==> s[i] != item
    ensures IndexOf(s, item, lo, hi) == -1
  {
  }

  // ---------------------------------------------------------------------
  // binary_search and the driver

  /**
   * binary_search(mylist, item, p_start, p_end): resolves the window, then
   * probes it. Returns the index it finds and the number of loop iterations
   * (the source prints that count).
   */
  method Search(s: seq<int>, item: int, pStart: Option<nat>, pEnd: Option<int>) returns (r: int, count: nat)
    requires pEnd.Some? ==> pEnd.value < |s|
    ensures var w := Resolve(|s|, pStart, pEnd);
      r == -1 || (w.start <= r <= w.end && s[r] == item)
    ensures var w := Resolve(|s|, pStart, pEnd);
      SortedIn(s, w.start, w.end) && r == -1 ==> forall i :: w.start <= i <= w.end ==> s[i] != item
    ensures var w := Resolve(|s|, pStart, pEnd);
      StrictlySortedIn(s, w.start, w.end) ==> r == IndexOf(s, item, w.start, w.end)
    ensures var w := Resolve(|s|, pStart, pEnd);
      w.start == w.end ==> (r == w.start <==> s[w.start] == item)
    ensures var w := Resolve(|s|, pStart, pEnd);
      w.start > w.end ==> r == -1 && count == 0
    ensures var w := Resolve(|s|, pStart, pEnd);
      w.start <= w.end ==> 1 <= count <= Bits(w.end - w.start + 1)
    ensures var w := Resolve(|s|, pStart, pEnd);
      w.start == w.end ==> count == 1
  {
    var w := Resolve(|s|, pStart, pEnd);
    r, count := SearchWindow(s, item, w.start, w.end);
  }

  /**
   * The probing loop of binary_search over the window [lo, hi].
   * A found index lies in the window and holds `item`; when the window is
   * sorted -1 means `item` is absent from it, and when it is strictly
   * ascending the result is the scan's IndexOf. Nothing outside the window
   * needs to be sorted: a one-element window finds exactly its own element. An empty window costs no iteration,
   * a one-element window exactly one, and any window of width w at most
   * floor(log2 w) + 1.
   */
  method SearchWindow(s: seq<int>, item: int, lo: nat, hi: int) returns (r: int, count: nat)
    requires hi < |s|
    ensures r == -1 || (lo <= r <= hi && s[r] == item)
    ensures SortedIn(s, lo, hi) && r == -1 ==> forall i :: lo <= i <= hi ==> s[i] != item
    ensures StrictlySortedIn(s, lo, hi) ==> r == IndexOf(s, item, lo, hi)
    ensures lo == hi ==> (r == lo <==> s[lo] == item)
    ensures lo > hi ==> r == -1 && count == 0
    ensures lo <= hi ==> 1 <= count <= Bits(hi - lo + 1)
    ensures lo == hi ==> count == 1
  {
    var start, end := lo, hi;
    count := 0;
    // `rest` bounds the iterations still to come: the window is narrower than 2^rest
    ghost var budget := Bits(hi - lo + 1);
    ghost var rest := budget;
    ghost var sorted := SortedIn(s, lo, hi);
    ghost var strict := StrictlySortedIn(s, lo, hi);
    if lo <= hi {
      BitsIsFloorLog2PlusOne(hi - lo + 1);
    }
    while start <= end
      invariant lo <= start && end <= hi
      invariant count == 0 ==> start == lo && end == hi
      invariant count > 0 ==> start <= end + 1
      invariant count + rest == budget
      invariant end - start + 1 < Pow2(rest)
      invariant sorted ==> forall i :: lo <= i < start ==> s[i] < item
      invariant sorted ==> forall i :: end < i <= hi ==> item < s[i]
      decreases end - start
    {
      count, rest := count + 1, rest - 1;
      var midpoint := Midpoint(start, end);
      if s[midpoint] == item {
        if strict {
          StrictlySortedIndexOf(s, item, lo, hi, midpoint);
        }
        return midpoint, count;
      } else if s[midpoint] > item {
        // lower half
        if sorted {
          ProbeAbove(s, item, lo, midpoint, end, hi);
        }
        end := midpoint - 1;
      } else {
        // upper half; on integers `s[midpoint] < item` always holds here
        if sorted {
          ProbeBelow(s, item, lo, start, midpoint, hi);
        }
        start := midpoint + 1;
      }
    }
    if strict {
      StrictlySortedInIsSortedIn(s, lo, hi);
    }
    if sorted {
      WindowExhausted(s, item, lo, start, end, hi);
    }
    r := -1;
  }

  /** Every element before `start` is below every target from position `i` on. */
  ghost predicate PrefixBelow(s: seq<int>, targets: seq<int>, i: nat, start: nat)
    requires start <= |s|
  {
    forall j, m :: i <= j < |targets| && 0 <= m < start ==> s[m] < targets[j]
  }

  /**
   * With both lists strictly ascending, moving `start` past the index where
   * targets[i] was found keeps every skipped element below the targets still
   * to come.
   */
  lemma AdvancePastFound(s: seq<int>, targets: seq<int>, i: nat, start: nat, r: nat)
    requires StrictlySorted(s) && StrictlySorted(targets)
    requires i < |targets| && start <= r < |s| && s[r] == targets[i]
    requires PrefixBelow(s, targets, i, start)
    ensures PrefixBelow(s, targets, i + 1, r + 1)
  {
    forall j, m | i + 1 <= j < |targets| && 0 <= m < r + 1
      ensures s[m] < targets[j]
    {
      assert targets[i] < targets[j];
      if m < r {
        assert s[m] < s[r];
      }
    }
  }

  /**
   * One pass of the driver's loop: search `target` over [start, len - 1]
   * and give the start for the next pass, r + 1 after a find at r (r = 0
   * included) and `start` unchanged after -1.
   */
  method SearchFrom(s: seq<int>, target: int, start: nat) returns (r: int, count: nat, next: nat)
    requires start <= |s|
    ensures r == -1 || (start <= r < |s| && s[r] == target)
    ensures next == (if r == -1 then start else r + 1) && next <= |s|
    ensures count <= Bits(|s|)
    ensures StrictlySorted(s) && (forall m :: 0 <= m < start ==> s[m] != target) ==>
      r == IndexOf(s, target, 0, |s| - 1)
  {
    var end := |s| - 1;
    r, count := Search(s, target, Some(start), Some(end));
    assert Resolve(|s|, Some(start), Some(end)) == Window(start, end);
    if start <= end {
      BitsMonotone(end - start + 1, |s|);
    }
    if StrictlySorted(s) && (forall m :: 0 <= m < start ==> s[m] != target) {
      IndexOfSkipsPrefix(s, target, 0, start, end);
    }
    next := start;
    if r != -1 {
      // found at 0 or elsewhere: the source's two branches do the same
      next := r + 1;
    }
  }

  /**
   * The driver: search each target in turn, the window's start moving as
   * SearchFrom says. `starts` records the start each search used. For a
   * strictly sorted list and strictly ascending targets each reported index
   * equals the one a search over the full list gives.
   */
  method FindTargets(s: seq<int>, targets: seq<int>) returns (indices: seq<int>, counts: seq<nat>, ghost starts: seq<nat>)
    ensures |indices| == |targets| && |counts| == |targets| && |starts| == |targets| + 1
    ensures starts[0] == 0
    ensures forall k :: 0 <= k < |targets| ==>
      starts[k + 1] == (if indices[k] == -1 then starts[k] else indices[k] + 1)
    ensures forall k :: 0 <= k < |targets| ==>
      indices[k] == -1 || (starts[k] <= indices[k] < |s| && s[indices[k]] == targets[k])
    ensures forall k :: 0 <= k < |targets| ==> counts[k] <= Bits(|s|)
    ensures StrictlySorted(s) && StrictlySorted(targets) ==>
      forall k :: 0 <= k < |targets| ==> indices[k] == IndexOf(s, targets[k], 0, |s| - 1)
  {
    ghost var ordered := StrictlySorted(s) && StrictlySorted(targets);
    ghost var maxCount := Bits(|s|);
    // what independent full-range searches report
    ghost var full := seq(|targets|, k requires 0 <= k < |targets| => IndexOf(s, targets[k], 0, |s| - 1));
    var start: nat := 0;
    indices, counts, starts := [], [], [0];
    for i := 0 to |targets|
      invariant |indices| == i && |counts| == i && |starts| == i + 1
      invariant starts[0] == 0 && starts[i] == start && start <= |s|
      invariant forall k :: 0 <= k < i ==>
        starts[k + 1] == (if indices[k] == -1 then starts[k] else indices[k] + 1)
      invariant forall k :: 0 <= k < i ==>
        indices[k] == -1 || (starts[k] <= indices[k] < |s| && s[indices[k]] == targets[k])
      invariant forall k :: 0 <= k < i ==> counts[k] <= maxCount
      invariant ordered ==> indices == full[..i]
      invariant ordered ==> PrefixBelow(s, targets, i, start)
    {
      var r, c, next := SearchFrom(s, targets[i], start);
      if ordered {
        assert forall m :: 0 <= m < start ==> s[m] < targets[i];
        if r != -1 {
          AdvancePastFound(s, targets, i, start, r);
        }
      }
      assert ordered ==> r == full[i];
      assert full[..i + 1] == full[..i] + [full[i]];
      indices, counts := indices + [r], counts + [c];
      start := next;
      starts := starts + [start];
    }
    assert ordered ==> indices == full;
  }

  /** The facts about the source's hard-coded lists that the driver's contract needs. */
  lemma HardCodedLists(s: seq<int>, targets: seq<int>)
    requires s == [1, 2, 3, 4, 5, 6, 7] && targets == [1, 4, 6, 8]
    ensures StrictlySorted(s) && StrictlySorted(targets)
    ensures IndexOf(s, 1, 0, 6) == 0 && IndexOf(s, 4, 0, 6) == 3
    ensures IndexOf(s, 6, 0, 6) == 5 && IndexOf(s, 8, 0, 6) == -1
  {
  }

  /** The source's hard-coded run: list [1..7], targets [1, 4, 6, 8]. */
  method HardCodedTargets() returns (indices: seq<int>)
    ensures indices == [0, 3, 5, -1]
  {
    var s := [1, 2, 3, 4, 5, 6, 7];
    var targets := [1, 4, 6, 8];
    HardCodedLists(s, targets);
    var counts;
    ghost var starts;
    indices, counts, starts := FindTargets(s, targets);
    assert indices[0] == 0 && indices[1] == 3 && indices[2] == 5 && indices[3] == -1;
  }

  /** A one-element list searched with the window (0, 0): found after exactly one comparison. */
  method SingletonWindow() returns (r: int, count: nat)
    ensures r == 0 && count == 1
  {
    r, count := Search([7], 7, Some(0), Some(0));
  }

  /**
   * Only the window has to be sorted: in the unsorted list [3, 7, 1] the
   * one-element window (1, 1) finds 7 at index 1.
   */
  method UnsortedOutsideWindow() returns (r: int, count: nat)
    ensures r == 1 && count == 1
  {
    r, count := Search([3, 7, 1], 7, Some(1), Some(1));
  }

  /** An empty list with the default window [0, -1]: not found, no comparison. */
  method EmptyList(item: int) returns (r: int, count: nat)
    ensures r == -1 && count == 0
  {
    r, count := Search([], item, None, None);
  }
}
