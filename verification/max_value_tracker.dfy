/**
 * The update loop of max-value-tracker/MaxValueTracker.java: an int array
 * that starts all zero, and a priority queue of (index, value) entries with
 * lazy deletion. Each update writes one slot and pushes its entry; entries
 * that no longer match the array are popped off the top, and the index of
 * the top entry is printed.
 *
 * The priority queue is a bag of entries held in a sequence whose order
 * means nothing: `peek` is the entry ranked first by `Entry.compareTo`, and
 * `poll` takes one copy of it out.
 */
module MaxValueTracker {
  import opened Wrappers

  datatype Entry = Entry(index: int, value: int)

  /** The tracker's state: the slots and the queue's entries. */
  datatype Tracker = Tracker(slots: seq<int>, heap: seq<Entry>)

  /** What one update leaves behind: the new state and the printed index. */
  datatype Step = Step(next: Tracker, printed: int)

  /** `a` ranks before `b`: a larger value, or the same value at a smaller index. */
  predicate Before(a: Entry, b: Entry) {
    a.value > b.value || (a.value == b.value && a.index < b.index)
  }

  /**
   * `Entry.compareTo`: values compared in reverse, so the larger value comes
   * first, and equal values compared by index.
   */
  function Compare(a: Entry, b: Entry): (r: int)
    ensures r < 0 <==> Before(a, b)
    ensures r > 0 <==> Before(b, a)
    ensures r == 0 <==> a == b
  {
    var diff := IntCompare(b.value, a.value);
    if diff == 0 then IntCompare(a.index, b.index) else diff
  }

  /** `compareTo` is a strict total order: exactly one of `a < b`, `a == b`, `b < a`, and transitive. */
  lemma CompareTotal(a: Entry, b: Entry, c: Entry)
    ensures (Compare(a, b) < 0) != (Compare(b, a) < 0) || a == b
    ensures Compare(a, b) < 0 && Compare(b, c) < 0 ==> Compare(a, c) < 0
  {
  }

  /** `peek`: the entry of the queue that ranks before every other. */
  function Top(h: seq<Entry>): (r: Entry)
    requires |h| > 0
    ensures r in h && forall j | 0 <= j < |h| :: !Before(h[j], r)
    decreases |h|
  {
    if |h| == 1 then h[0]
    else
      var m := Top(h[..|h| - 1]);
      var last := h[|h| - 1];
      assert forall j | 0 <= j < |h| - 1 :: h[j] == h[..|h| - 1][j];
      if Compare(last, m) < 0 then last else m
  }

  function Find(h: seq<Entry>, e: Entry): (k: nat)
    requires e in h
    ensures k < |h| && h[k] == e
  {
    if h[0] == e then 0 else 1 + Find(h[1..], e)
  }

  /** `poll`: one copy of the top entry leaves the queue; everything else stays. */
  function Poll(h: seq<Entry>): (r: seq<Entry>)
    requires |h| > 0
    ensures multiset(r) == multiset(h) - multiset{Top(h)}
    ensures |r| == |h| - 1
  {
    var k := Find(h, Top(h));
    assert h == h[..k] + [h[k]] + h[k + 1..];
    h[..k] + h[k + 1..]
  }

  /** The entry agrees with the array: it is not stale. */
  predicate Live(slots: seq<int>, e: Entry) {
    0 <= e.index < |slots| && slots[e.index] == e.value
  }

  /**
   * The program's initial state for an array of `m` slots: all zero, and
   * the queue holding the single entry `(0, 0)`. A negative size fails, as
   * `new int[m]` does.
   */
  function Init(m: int): (r: Result<Tracker>)
    ensures r.Failure? <==> m < 0
    ensures r.Success? ==> |r.value.slots| == m && (forall k | 0 <= k < m :: r.value.slots[k] == 0)
    ensures r.Success? ==> multiset(r.value.heap) == multiset{Entry(0, 0)}
  {
    if m < 0 then Failure(NegativeArraySize) else Success(Tracker(seq(m, _ => 0), [Entry(0, 0)]))
  }

  /**
   * The invariant of the update loop, given the indices `tracked` that have
   * an entry (index 0 and every index updated so far): each tracked index
   * has its live entry in the queue, every queued entry is at a tracked
   * index, and an untracked slot still holds its initial zero.
   */
  ghost predicate Valid(t: Tracker, tracked: set<int>) {
    0 in tracked && Covered(t.slots, t.heap, tracked) && Confined(t.heap, tracked) && Untouched(t.slots, tracked)
  }

  /** Each tracked index has its live entry in the queue. */
  ghost predicate Covered(slots: seq<int>, heap: seq<Entry>, tracked: set<int>) {
    forall k | k in tracked :: 0 <= k < |slots| && Entry(k, slots[k]) in heap
  }

  /** Every queued entry is at a tracked index. */
  ghost predicate Confined(heap: seq<Entry>, tracked: set<int>) {
    forall j | 0 <= j < |heap| :: heap[j].index in tracked
  }

  /** Every untracked slot still holds its initial zero. */
  ghost predicate Untouched(slots: seq<int>, tracked: set<int>) {
    forall k | 0 <= k < |slots| && k !in tracked :: slots[k] == 0
  }

  /** Every queued entry names a slot of the array; true in every reachable state with a non-empty array. */
  predicate Indexed(t: Tracker) {
    forall j | 0 <= j < |t.heap| :: 0 <= t.heap[j].index < |t.slots|
  }

  /** `p` is the smallest index among `tracked` holding the largest value there. */
  ghost predicate IsTrackedMax(slots: seq<int>, tracked: set<int>, p: int) {
    && p in tracked && 0 <= p < |slots|
    && forall k | k in tracked && 0 <= k < |slots| :: slots[k] < slots[p] || (slots[k] == slots[p] && p <= k)
  }

  /** `p` is the smallest index holding the largest value of the whole array. */
  predicate IsArgMax(slots: seq<int>, p: int) {
    && 0 <= p < |slots|
    && forall k | 0 <= k < |slots| :: slots[k] < slots[p] || (slots[k] == slots[p] && p <= k)
  }

  /** A fresh tracker over a non-empty array satisfies the invariant with only index 0 tracked. */
  lemma InitValid(m: nat)
    requires m > 0
    ensures Indexed(Init(m).value) && Valid(Init(m).value, {0})
  {
    var t := Init(m).value;
    assert t.heap[0] == Entry(0, t.slots[0]);
  }

  /**
   * `after` is `before` less some copies, every one of them stale in
   * `slots`: each live entry keeps all its copies.
   */
  predicate DroppedOnlyStale(slots: seq<int>, before: seq<Entry>, after: seq<Entry>) {
    && multiset(after) <= multiset(before)
    && forall e | e in before && Live(slots, e) :: multiset(after)[e] == multiset(before)[e]
  }

  /**
   * The stale-popping loop: while the top entry disagrees with the array it
   * is polled. A live entry is never polled, so the loop stops with a live
   * top, and every copy that has left was stale.
   */
  method DropStale(slots: seq<int>, heap: seq<Entry>, ghost live: Entry) returns (h: seq<Entry>)
    requires forall j | 0 <= j < |heap| :: 0 <= heap[j].index < |slots|
    requires live in heap && Live(slots, live)
    ensures |h| > 0 && Live(slots, Top(h))
    ensures DroppedOnlyStale(slots, heap, h)
    ensures forall e | e in heap && Live(slots, e) :: e in h
  {
    h := heap;
    while |h| > 0 && slots[Top(h).index] != Top(h).value
      invariant DroppedOnlyStale(slots, heap, h)
      invariant forall e | e in heap && Live(slots, e) :: e in h
      invariant forall j | 0 <= j < |h| :: 0 <= h[j].index < |slots|
      decreases |h|
    {
      PollStale(slots, heap, h);
      h := Poll(h);
    }
  }

  /** Polling a stale top keeps every live entry and every index in range, and drops one more stale copy. */
  lemma PollStale(slots: seq<int>, heap: seq<Entry>, h: seq<Entry>)
    requires |h| > 0 && !Live(slots, Top(h))
    requires DroppedOnlyStale(slots, heap, h)
    requires forall e | e in heap && Live(slots, e) :: e in h
    requires forall j | 0 <= j < |h| :: 0 <= h[j].index < |slots|
    ensures DroppedOnlyStale(slots, heap, Poll(h))
    ensures forall e | e in heap && Live(slots, e) :: e in Poll(h)
    ensures forall j | 0 <= j < |Poll(h)| :: 0 <= Poll(h)[j].index < |slots|
  {
    var r := Poll(h);
    forall e | e in heap && Live(slots, e) ensures e in r {
      assert e in multiset(r);
    }
    forall j | 0 <= j < |r| ensures 0 <= r[j].index < |slots| {
      assert r[j] in multiset(h);
    }
  }

  /**
   * One iteration of the update loop: `array[i] = v`, push `(i, v)`, pop
   * stale tops, print the top's index. An index outside the array fails.
   * Only slot `i` changes; the printed index is that of a live top entry,
   * and under the invariant it is the smallest tracked index holding the
   * largest tracked value, with `i` now tracked.
   */
  method Update(t: Tracker, i: int, v: int, ghost tracked: set<int>) returns (res: Result<Step>)
    requires Indexed(t) || |t.slots| == 0
    ensures res.Failure? <==> !(0 <= i < |t.slots|)
    ensures res.Success? ==>
      && |res.value.next.slots| == |t.slots| && res.value.next.slots[i] == v
      && (forall k | 0 <= k < |t.slots| && k != i :: res.value.next.slots[k] == t.slots[k])
    ensures res.Success? ==>
      && Indexed(res.value.next) && |res.value.next.heap| > 0
      && Top(res.value.next.heap).index == res.value.printed
      && Live(res.value.next.slots, Top(res.value.next.heap))
    ensures res.Success? ==> DroppedOnlyStale(res.value.next.slots, t.heap + [Entry(i, v)], res.value.next.heap)
    ensures res.Success? && Valid(t, tracked) ==>
      && Valid(res.value.next, tracked + {i})
      && IsTrackedMax(res.value.next.slots, tracked + {i}, res.value.printed)
  {
    if !(0 <= i < |t.slots|) {
      return Failure(IndexOutOfBounds);
    }
    var slots := t.slots[i := v];
    var heap := t.heap + [Entry(i, v)];
    assert Entry(i, v) in heap;
    heap := DropStale(slots, heap, Entry(i, v));
    var top := Top(heap);
    res := Success(Step(Tracker(slots, heap), top.index));
    forall j | 0 <= j < |heap| ensures 0 <= heap[j].index < |slots| {
      assert heap[j] in multiset(t.heap + [Entry(i, v)]);
    }
    if Valid(t, tracked) {
      UpdateValid(t, i, v, tracked, heap);
    }
  }

  /** The invariant survives an update, and it makes the live top the tracked maximum. */
  lemma UpdateValid(t: Tracker, i: int, v: int, tracked: set<int>, heap: seq<Entry>)
    requires Valid(t, tracked) && 0 <= i < |t.slots|
    requires |heap| > 0 && Live(t.slots[i := v], Top(heap))
    requires multiset(heap) <= multiset(t.heap + [Entry(i, v)])
    requires forall e | e in t.heap + [Entry(i, v)] && Live(t.slots[i := v], e) :: e in heap
    ensures Valid(Tracker(t.slots[i := v], heap), tracked + {i})
    ensures IsTrackedMax(t.slots[i := v], tracked + {i}, Top(heap).index)
  {
    var slots, all, tracked' := t.slots[i := v], t.heap + [Entry(i, v)], tracked + {i};
    StillCovered(t.slots, t.heap, tracked, i, v, slots, all, heap, tracked');
    StillConfined(t.heap, tracked, i, v, all, heap, tracked');
    TopIsMax(slots, heap, tracked');
  }

  lemma StillCovered(slots0: seq<int>, heap0: seq<Entry>, tracked: set<int>, i: int, v: int,
                     slots: seq<int>, all: seq<Entry>, heap: seq<Entry>, tracked': set<int>)
    requires Covered(slots0, heap0, tracked) && 0 <= i < |slots0|
    requires slots == slots0[i := v] && all == heap0 + [Entry(i, v)] && tracked' == tracked + {i}
    requires forall e | e in all && Live(slots, e) :: e in heap
    ensures Covered(slots, heap, tracked')
  {
    forall k | k in tracked' ensures 0 <= k < |slots| && Entry(k, slots[k]) in heap {
      if k != i {
        assert Entry(k, slots[k]) in heap0;
      }
      assert Entry(k, slots[k]) in all;
    }
  }

  lemma StillConfined(heap0: seq<Entry>, tracked: set<int>, i: int, v: int,
                      all: seq<Entry>, heap: seq<Entry>, tracked': set<int>)
    requires Confined(heap0, tracked)
    requires all == heap0 + [Entry(i, v)] && tracked' == tracked + {i}
    requires multiset(heap) <= multiset(all)
    ensures Confined(heap, tracked')
  {
    forall j | 0 <= j < |heap| ensures heap[j].index in tracked' {
      assert heap[j] in multiset(all);
      assert heap[j] in all;
    }
  }

  /** A live top that ranks before every queued entry is the tracked maximum. */
  lemma TopIsMax(slots: seq<int>, heap: seq<Entry>, tracked: set<int>)
    requires |heap| > 0 && Live(slots, Top(heap))
    requires Covered(slots, heap, tracked) && Confined(heap, tracked)
    ensures IsTrackedMax(slots, tracked, Top(heap).index)
  {
    var top := Top(heap);
    var j0 := Find(heap, top);
    assert top.index in tracked;
    forall k | k in tracked && 0 <= k < |slots| ensures slots[k] < slots[top.index] || (slots[k] == slots[top.index] && top.index <= k) {
      var e := Entry(k, slots[k]);
      var j := Find(heap, e);
      assert !Before(heap[j], top);
    }
  }

  /**
   * Index 0 and every updated index are all the program tracks: an update
   * from the zero-initialised array that writes a negative value to slot 0
   * prints 0, while the array's largest value, 0, sits first at slot 1.
   */
  method ZeroSlotsHidden() returns (printed: int, slots: seq<int>)
    ensures printed == 0 && slots == [-1, 0, 0]
    ensures !IsArgMax(slots, printed) && IsArgMax(slots, 1)
  {
    var t := Init(3).value;
    InitValid(3);
    var res := Update(t, 0, -1, {0});
    printed, slots := res.value.printed, res.value.next.slots;
    assert slots == [-1, 0, 0];
    assert {0} + {0} == {0};
    assert IsTrackedMax(slots, {0}, printed);
    assert slots[1] > slots[0];
  }

  /**
   * The evidently intended start: every slot's zero entry is queued, so
   * every index is tracked from the start.
   */
  function InitAll(m: int): (r: Result<Tracker>)
    ensures r.Failure? <==> m < 0
    ensures r.Success? ==> |r.value.slots| == m && (forall k | 0 <= k < m :: r.value.slots[k] == 0)
    ensures r.Success? && m > 0 ==> Indexed(r.value) && Valid(r.value, Indices(m))
  {
    if m < 0 then Failure(NegativeArraySize)
    else
      var t := Tracker(seq(m, _ => 0), seq(m, k => Entry(k, 0)));
      assert m > 0 ==> t.heap[0] == Entry(0, 0);
      assert forall k | 0 <= k < m :: t.heap[k] == Entry(k, t.slots[k]);
      Success(t)
  }

  /** The indices of an array of `m` slots. */
  function Indices(m: nat): (r: set<int>)
    ensures forall k :: k in r <==> 0 <= k < m
  {
    if m == 0 then {} else Indices(m - 1) + {m - 1}
  }

  /**
   * With every index tracked, an update prints the smallest index holding
   * the whole array's largest value, as the program's description promises.
   */
  method UpdateAll(t: Tracker, i: int, v: int) returns (res: Result<Step>)
    requires |t.slots| > 0 && Indexed(t) && Valid(t, Indices(|t.slots|))
    ensures res.Failure? <==> !(0 <= i < |t.slots|)
    ensures res.Success? ==> Valid(res.value.next, Indices(|t.slots|))
    ensures res.Success? ==> IsArgMax(res.value.next.slots, res.value.printed)
  {
    res := Update(t, i, v, Indices(|t.slots|));
    if res.Success? {
      assert Indices(|t.slots|) + {i} == Indices(|t.slots|);
    }
  }

  /** The tracked maximum is unique: the order ranks distinct indices strictly. */
  lemma TrackedMaxUnique(slots: seq<int>, tracked: set<int>, p: int, q: int)
    requires IsTrackedMax(slots, tracked, p) && IsTrackedMax(slots, tracked, q)
    ensures p == q
  {
  }

  /** When the tracked maximum is positive, untracked zero slots cannot beat it, and the printed index is the whole array's. */
  lemma PositiveMaxAgrees(t: Tracker, tracked: set<int>, p: int)
    requires Valid(t, tracked) && IsTrackedMax(t.slots, tracked, p) && t.slots[p] > 0
    ensures IsArgMax(t.slots, p)
  {
  }
}
