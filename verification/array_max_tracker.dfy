/**
 * The update loop of max-value-streaming/ArrayMaxTracker.java, a second copy
 * of the lazy-deletion tracker: its own `Entry.compareTo` and its own loop
 * body, over the same priority-queue model as `MaxValueTracker`.
 */
module ArrayMaxTracker {
  import opened Wrappers
  import M = MaxValueTracker

  /**
   * This file's `Entry.compareTo`: larger value first, ties to the smaller
   * index. It orders entries exactly as the other tracker's does, so both
   * priority queues rank their entries alike.
   */
  function CompareTo(a: M.Entry, b: M.Entry): (r: int)
    ensures r < 0 <==> M.Before(a, b)
    ensures r == 0 <==> a == b
    ensures r == M.Compare(a, b)
  {
    var diff := IntCompare(b.value, a.value);
    if diff == 0 then IntCompare(a.index, b.index) else diff
  }

  /**
   * One iteration of the update loop: `array[i] = v`, push `(i, v)`, poll
   * while the top is stale, print the top's index. An index outside the
   * array fails. Only slot `i` changes, the top left is live, and under the
   * invariant the printed index is the smallest tracked index holding the
   * largest tracked value.
   */
  method Update(t: M.Tracker, i: int, v: int, ghost tracked: set<int>) returns (res: Result<M.Step>)
    requires M.Indexed(t) || |t.slots| == 0
    ensures res.Failure? <==> !(0 <= i < |t.slots|)
    ensures res.Success? ==>
      && |res.value.next.slots| == |t.slots| && res.value.next.slots[i] == v
      && (forall k | 0 <= k < |t.slots| && k != i :: res.value.next.slots[k] == t.slots[k])
    ensures res.Success? ==>
      && M.Indexed(res.value.next) && |res.value.next.heap| > 0
      && M.Top(res.value.next.heap).index == res.value.printed
      && M.Live(res.value.next.slots, M.Top(res.value.next.heap))
    ensures res.Success? ==> M.DroppedOnlyStale(res.value.next.slots, t.heap + [M.Entry(i, v)], res.value.next.heap)
    ensures res.Success? && M.Valid(t, tracked) ==>
      && M.Valid(res.value.next, tracked + {i})
      && M.IsTrackedMax(res.value.next.slots, tracked + {i}, res.value.printed)
  {
    if !(0 <= i < |t.slots|) {
      return Failure(IndexOutOfBounds);
    }
    var slots := t.slots[i := v];
    var pushed := t.heap + [M.Entry(i, v)];
    var heap := pushed;
    assert M.Entry(i, v) in heap;
    while |heap| > 0 && slots[M.Top(heap).index] != M.Top(heap).value
      invariant M.DroppedOnlyStale(slots, pushed, heap)
      invariant forall e | e in pushed && M.Live(slots, e) :: e in heap
      invariant forall j | 0 <= j < |heap| :: 0 <= heap[j].index < |slots|
      decreases |heap|
    {
      M.PollStale(slots, pushed, heap);
      heap := M.Poll(heap);
    }
    assert M.Entry(i, v) in heap;
    res := Success(M.Step(M.Tracker(slots, heap), M.Top(heap).index));
    if M.Valid(t, tracked) {
      M.UpdateValid(t, i, v, tracked, heap);
    }
  }

  /**
   * Run from the same reachable state, the two trackers fail alike and,
   * when they succeed, leave the same array and print the same index.
   */
  method SameAsMaxValueTracker(t: M.Tracker, i: int, v: int, ghost tracked: set<int>)
    returns (mine: Result<M.Step>, theirs: Result<M.Step>)
    requires M.Indexed(t) && M.Valid(t, tracked)
    ensures mine.Failure? <==> theirs.Failure?
    ensures mine.Success? ==> mine.value.printed == theirs.value.printed && mine.value.next.slots == theirs.value.next.slots
  {
    mine := Update(t, i, v, tracked);
    theirs := M.Update(t, i, v, tracked);
    if mine.Success? {
      M.TrackedMaxUnique(mine.value.next.slots, tracked + {i}, mine.value.printed, theirs.value.printed);
    }
  }
}
