/**
 * The bucketed adaptable min-priority queue used by Dijkstra's algorithm
 * (HeapAdaptablePriorityQueue in vertex-centrality/ClosenessCentrality.java).
 *
 * The Java queue is a hash map from each key present to a FIFO bucket of
 * entries, plus a cached minimum key that is recomputed by a scan of the map's
 * keys whenever the bucket of the minimum key empties. Java entries are
 * objects identified by reference; here an entry is identified by a handle (a
 * natural number: the vertex id in Dijkstra's use), and `keyOf` records the key
 * each present handle carries, which is what `AdaptableEntry.getKey` returns.
 */
module AdaptableQueue {
  import opened Wrappers

  /** An entry as returned to the caller: its key and its handle. */
  datatype Entry = Entry(key: int, handle: nat)

  /**
   * `buckets` maps each key present to its FIFO bucket of handles; `keys` lists
   * the keys present in the order a scan of the hash map's key set meets them
   * (an order Java leaves unspecified: here, the order the keys were added);
   * `keyOf` is the key each present handle carries; `minKey` is the cache.
   */
  datatype Queue = Queue(buckets: map<int, seq<nat>>, keys: seq<int>, keyOf: map<nat, int>, minKey: Option<int>)

  /** What `removeMin` hands back, together with the queue it leaves. */
  datatype Removal = Removal(rest: Queue, entry: Option<Entry>)

  /** `m` is the least of `keys`, and is None exactly when there is no key. */
  predicate IsLeastKey(m: Option<int>, keys: seq<int>) {
    match m
    case None => |keys| == 0
    case Some(k) => k in keys && forall i | 0 <= i < |keys| :: k <= keys[i]
  }

  /**
   * The representation invariant: the key list is the map's key set without
   * repetition and the cached minimum is the least key present, None exactly
   * when the queue is empty (`KeysAgree`); no bucket is empty or holds a
   * handle twice, and a handle sits in exactly the bucket of its key
   * (`Linked`).
   */
  ghost predicate Valid(q: Queue) {
    KeysAgree(q.buckets, q.keys, q.minKey) && Linked(q.buckets, q.keyOf)
  }

  ghost predicate KeysAgree(buckets: map<int, seq<nat>>, keys: seq<int>, minKey: Option<int>) {
    && Distinct(keys)
    && (forall k :: k in buckets <==> k in keys)
    && IsLeastKey(minKey, keys)
  }

  ghost predicate Linked(buckets: map<int, seq<nat>>, keyOf: map<nat, int>) {
    && (forall k | k in buckets :: |buckets[k]| > 0 && Distinct(buckets[k]))
    && (forall k, h | k in buckets && h in buckets[k] :: h in keyOf && keyOf[h] == k)
    && (forall h | h in keyOf :: keyOf[h] in buckets && h in buckets[keyOf[h]])
  }

  /** The bucket of `k`, empty when `k` is not present. */
  function Bucket(q: Queue, k: int): seq<nat> {
    if k in q.buckets then q.buckets[k] else []
  }

  /** A new queue: no buckets and no minimum. */
  function Empty(): (q: Queue)
    ensures Valid(q)
    ensures forall h :: h !in q.keyOf
  {
    Queue(map[], [], map[], None)
  }

  /**
   * The loop of `recalculateMinKey` from the point where the least key seen so
   * far is `acc` and `keys` remain to be scanned.
   */
  function ScanMin(keys: seq<int>, acc: Option<int>): (m: Option<int>)
    ensures m == None <==> acc == None && |keys| == 0
    ensures m.Some? ==> m.value in keys || acc == m
    ensures m.Some? ==> forall i | 0 <= i < |keys| :: m.value <= keys[i]
    ensures m.Some? && acc.Some? ==> m.value <= acc.value
  {
    if |keys| == 0 then acc
    else
      var acc' := if acc == None || keys[0] < acc.value then Some(keys[0]) else acc;
      var m := ScanMin(keys[1..], acc');
      assert forall i | 1 <= i < |keys| :: keys[i] == keys[1..][i - 1];
      m
  }

  /** `recalculateMinKey`: a full scan yields the least key present, or None. */
  function RecalculateMinKey(keys: seq<int>): (m: Option<int>)
    ensures IsLeastKey(m, keys)
  {
    ScanMin(keys, None)
  }

  /** `isEmpty`: no key is present, which for a valid queue means no entry is left. */
  function IsEmpty(q: Queue): (r: bool)
    requires Valid(q)
    ensures r <==> forall h :: h !in q.keyOf
  {
    EmptyIffNoKeys(q);
    |q.keys| == 0
  }

  /** Every present handle's key is listed, and a listed key has a handle in its bucket. */
  lemma EmptyIffNoKeys(q: Queue)
    requires Valid(q)
    ensures forall h | h in q.keyOf :: q.keyOf[h] in q.keys
    ensures |q.keys| == 0 <==> forall h :: h !in q.keyOf
    ensures q.minKey == None <==> forall h :: h !in q.keyOf
  {
    forall h | h in q.keyOf ensures q.keyOf[h] in q.keys {
      var k := q.keyOf[h];
      assert k in q.buckets;
    }
    forall h | h in q.keyOf ensures |q.keys| > 0 {
      var k := q.keyOf[h];
      assert k in q.keys;
    }
    if |q.keys| > 0 {
      var k := q.keys[0];
      assert k in q.buckets;
      var h := q.buckets[k][0];
      assert h in q.buckets[k];
      assert h in q.keyOf;
    }
  }

  /**
   * `insert`: a fresh entry `h` with `key` joins the back of `key`'s bucket;
   * every other bucket is unchanged and the cached minimum stays the least
   * key present.
   */
  function Insert(q: Queue, key: int, h: nat): (r: Queue)
    requires Valid(q)
    requires h !in q.keyOf
    ensures Valid(r)
    ensures r.keyOf == q.keyOf[h := key]
    ensures Bucket(r, key) == Bucket(q, key) + [h]
    ensures forall k | k != key :: Bucket(r, k) == Bucket(q, k)
  {
    var keys := if key in q.buckets then q.keys else q.keys + [key];
    var m := if q.minKey == None || key < q.minKey.value then Some(key) else q.minKey;
    var r := Queue(q.buckets[key := Bucket(q, key) + [h]], keys, q.keyOf[h := key], m);
    InsertValid(q, key, h, r);
    r
  }

  lemma InsertValid(q: Queue, key: int, h: nat, r: Queue)
    requires Valid(q)
    requires h !in q.keyOf
    requires r.buckets == q.buckets[key := Bucket(q, key) + [h]]
    requires r.keys == if key in q.buckets then q.keys else q.keys + [key]
    requires r.keyOf == q.keyOf[h := key]
    requires r.minKey == if q.minKey == None || key < q.minKey.value then Some(key) else q.minKey
    ensures Valid(r)
  {
    InsertHandles(q, key, h, r.buckets, r.keyOf);
    assert Distinct(r.keys);
    forall k ensures k in r.buckets <==> k in r.keys {
    }
    assert IsLeastKey(r.minKey, r.keys);
  }

  /** Appending the fresh handle `h` to `key`'s bucket keeps every handle in exactly the bucket of its key. */
  lemma InsertHandles(q: Queue, key: int, h: nat, buckets: map<int, seq<nat>>, keyOf: map<nat, int>)
    requires Valid(q)
    requires h !in q.keyOf
    requires buckets == q.buckets[key := Bucket(q, key) + [h]]
    requires keyOf == q.keyOf[h := key]
    ensures Linked(buckets, keyOf)
  {
    var bucket := Bucket(q, key);
    assert h !in bucket;
    forall k, h' | k in buckets && h' in buckets[k] ensures h' in keyOf && keyOf[h'] == k {
      if k == key && h' != h {
        assert h' in bucket;
      }
    }
  }

  /** Removes the first occurrence of `x` from `s` (`Queue.remove(Object)`, `Map.remove`). */
  function RemoveFirst<T(==, !new)>(s: seq<T>, x: T): (r: seq<T>)
    ensures x !in s ==> r == s
    ensures x in s ==> |r| == |s| - 1
    ensures forall y | y != x :: y in r <==> y in s
    ensures Distinct(s) ==> Distinct(r) && x !in r
  {
    if |s| == 0 then []
    else if s[0] == x then
      assert Distinct(s) ==> forall i | 0 <= i < |s[1..]| :: s[1..][i] != x;
      s[1..]
    else
      var r := [s[0]] + RemoveFirst(s[1..], x);
      assert s == [s[0]] + s[1..];
      assert Distinct(s) ==> Distinct(s[1..]) && s[0] !in s[1..];
      r
  }

  /**
   * `removeMin`: on an empty queue nothing is returned and nothing changes;
   * otherwise the first entry of the least key's bucket leaves, every other
   * entry keeps its key and its place, and the minimum is recomputed when that
   * bucket empties.
   */
  function RemoveMin(q: Queue): (r: Removal)
    requires Valid(q)
    ensures Valid(r.rest)
    ensures r.entry == None <==> forall h :: h !in q.keyOf
    ensures r.entry == None ==> r.rest == q
    ensures r.entry.Some? ==>
      var e := r.entry.value;
      && e.handle in q.keyOf && e.key == q.keyOf[e.handle]
      && (forall h | h in q.keyOf :: e.key <= q.keyOf[h])
      && e.handle == Bucket(q, e.key)[0]
      && r.rest.keyOf == q.keyOf - {e.handle}
      && Bucket(r.rest, e.key) == Bucket(q, e.key)[1..]
      && (forall k | k != e.key :: Bucket(r.rest, k) == Bucket(q, k))
  {
    EmptyIffNoKeys(q);
    match q.minKey
    case None => Removal(q, None)
    case Some(k) =>
      var bucket := q.buckets[k];
      var h := bucket[0];
      var rest :=
        if |bucket| == 1 then
          var keys := RemoveFirst(q.keys, k);
          Queue(q.buckets - {k}, keys, q.keyOf - {h}, RecalculateMinKey(keys))
        else
          Queue(q.buckets[k := bucket[1..]], q.keys, q.keyOf - {h}, q.minKey);
      PollIsDetach(q, k);
      MinKeyIsLeast(q);
      Removal(rest, Some(Entry(k, h)))
  }

  /** The cached minimum is the key of a present bucket and no present entry has a smaller key. */
  lemma MinKeyIsLeast(q: Queue)
    requires Valid(q)
    requires q.minKey.Some?
    ensures q.minKey.value in q.buckets
    ensures forall h | h in q.keyOf :: q.minKey.value <= q.keyOf[h]
  {
    var m := q.minKey.value;
    assert m in q.keys;
    forall h | h in q.keyOf ensures m <= q.keyOf[h] {
      var k := q.keyOf[h];
      assert k in q.buckets;
      assert k in q.keys;
    }
  }

  /**
   * Polling the head of the least key's bucket is detaching that head: the
   * bucket loses its first entry, or is dropped with its key, and then the
   * minimum is recomputed.
   */
  lemma PollIsDetach(q: Queue, k: int)
    requires Valid(q)
    requires q.minKey == Some(k)
    ensures k in q.buckets && q.buckets[k][0] in q.keyOf && q.keyOf[q.buckets[k][0]] == k
    ensures var bucket := q.buckets[k]; var h := bucket[0];
      Detach(q, h) ==
        if |bucket| == 1 then
          var keys := RemoveFirst(q.keys, k);
          Queue(q.buckets - {k}, keys, q.keyOf - {h}, RecalculateMinKey(keys))
        else
          Queue(q.buckets[k := bucket[1..]], q.keys, q.keyOf - {h}, q.minKey)
  {
    assert k in q.keys;
    var bucket := q.buckets[k];
    var h := bucket[0];
    assert h in bucket;
    assert RemoveFirst(bucket, h) == bucket[1..];
  }

  /**
   * The first half of `replaceKey`: entry `h` leaves its bucket, the bucket is
   * dropped when it empties, and the minimum is recomputed when the dropped
   * bucket was the minimum's.
   */
  function Detach(q: Queue, h: nat): (r: Queue)
    requires Valid(q)
    requires h in q.keyOf
    ensures Valid(r)
    ensures r.keyOf == q.keyOf - {h}
    ensures Bucket(r, q.keyOf[h]) == RemoveFirst(Bucket(q, q.keyOf[h]), h)
    ensures forall k | k != q.keyOf[h] :: Bucket(r, k) == Bucket(q, k)
  {
    var oldKey := q.keyOf[h];
    var oldBucket := RemoveFirst(q.buckets[oldKey], h);
    var r :=
      if |oldBucket| == 0 then
        var keys := RemoveFirst(q.keys, oldKey);
        var m := if Some(oldKey) == q.minKey then RecalculateMinKey(keys) else q.minKey;
        Queue(q.buckets - {oldKey}, keys, q.keyOf - {h}, m)
      else
        Queue(q.buckets[oldKey := oldBucket], q.keys, q.keyOf - {h}, q.minKey);
    DetachValid(q, h, r);
    r
  }

  /**
   * Taking handle `h` out of its bucket, dropping the bucket (and its key) when
   * it empties, and recomputing the minimum when that key was the minimum,
   * keeps the queue valid.
   */
  lemma DetachValid(q: Queue, h: nat, r: Queue)
    requires Valid(q)
    requires h in q.keyOf
    requires var k := q.keyOf[h]; var b := RemoveFirst(q.buckets[k], h);
      if |b| == 0 then
        && r.buckets == q.buckets - {k}
        && r.keys == RemoveFirst(q.keys, k)
        && r.minKey == (if Some(k) == q.minKey then RecalculateMinKey(r.keys) else q.minKey)
      else
        && r.buckets == q.buckets[k := b]
        && r.keys == q.keys
        && r.minKey == q.minKey
    requires r.keyOf == q.keyOf - {h}
    ensures Valid(r)
  {
    var k := q.keyOf[h];
    var b := RemoveFirst(q.buckets[k], h);
    if |b| == 0 {
      DropBucketValid(q, h, k, r);
    } else {
      ShrinkBucketValid(q, h, k, b, r);
    }
  }

  /** The case of `DetachValid` where `h` was alone in its bucket. */
  lemma DropBucketValid(q: Queue, h: nat, k: int, r: Queue)
    requires Valid(q)
    requires h in q.keyOf && q.keyOf[h] == k
    requires |RemoveFirst(q.buckets[k], h)| == 0
    requires r.buckets == q.buckets - {k}
    requires r.keys == RemoveFirst(q.keys, k)
    requires r.minKey == (if Some(k) == q.minKey then RecalculateMinKey(r.keys) else q.minKey)
    requires r.keyOf == q.keyOf - {h}
    ensures Valid(r)
  {
    DropBucketHandles(q, h, k, r.buckets, r.keyOf);
    DropBucketKeys(q, k, r.buckets, r.keys, r.minKey);
  }

  /** Dropping `h`'s singleton bucket keeps every remaining handle in exactly the bucket of its key. */
  lemma DropBucketHandles(q: Queue, h: nat, k: int, buckets: map<int, seq<nat>>, keyOf: map<nat, int>)
    requires Valid(q)
    requires h in q.keyOf && q.keyOf[h] == k
    requires |RemoveFirst(q.buckets[k], h)| == 0
    requires buckets == q.buckets - {k}
    requires keyOf == q.keyOf - {h}
    ensures Linked(buckets, keyOf)
  {
    var bucket := q.buckets[k];
    assert h in bucket;
    forall h' | h' in bucket ensures h' == h {
      assert h' != h ==> h' in RemoveFirst(bucket, h);
    }
    forall k', h' | k' in buckets && h' in buckets[k'] ensures h' in keyOf && keyOf[h'] == k' {
      assert h' in q.buckets[k'];
    }
    forall h' | h' in keyOf ensures keyOf[h'] in buckets && h' in buckets[keyOf[h']] {
      var k' := q.keyOf[h'];
      assert k' in q.buckets;
      assert h' in q.buckets[k'];
      assert k' == k ==> h' in bucket;
    }
  }

  /** Dropping key `k` with its bucket keeps the key list distinct, in step with the buckets, and the minimum least. */
  lemma DropBucketKeys(q: Queue, k: int, buckets: map<int, seq<nat>>, keys: seq<int>, minKey: Option<int>)
    requires KeysAgree(q.buckets, q.keys, q.minKey)
    requires k in q.buckets
    requires buckets == q.buckets - {k}
    requires keys == RemoveFirst(q.keys, k)
    requires minKey == (if Some(k) == q.minKey then RecalculateMinKey(keys) else q.minKey)
    ensures KeysAgree(buckets, keys, minKey)
  {
    assert k in q.keys && k !in keys;
    forall k' ensures k' in buckets <==> k' in keys {
      assert k' != k ==> (k' in keys <==> k' in q.keys);
    }
    if Some(k) != q.minKey {
      assert q.minKey.Some?;
      var m := q.minKey.value;
      assert m in q.keys && m != k;
      assert m in keys;
      forall i | 0 <= i < |keys| ensures m <= keys[i] {
        var x := keys[i];
        assert x in q.keys;
      }
    }
  }

  /** The case of `DetachValid` where `h`'s bucket keeps other entries. */
  lemma ShrinkBucketValid(q: Queue, h: nat, k: int, b: seq<nat>, r: Queue)
    requires Valid(q)
    requires h in q.keyOf && q.keyOf[h] == k
    requires b == RemoveFirst(q.buckets[k], h) && |b| > 0
    requires r.buckets == q.buckets[k := b]
    requires r.keys == q.keys
    requires r.minKey == q.minKey
    requires r.keyOf == q.keyOf - {h}
    ensures Valid(r)
  {
    var bucket := q.buckets[k];
    assert h in bucket;
    forall k' ensures k' in r.buckets <==> k' in r.keys {
    }
    forall k', h' | k' in r.buckets && h' in r.buckets[k'] ensures h' in r.keyOf && r.keyOf[h'] == k' {
      if k' == k {
        assert h' in bucket;
      } else {
        assert h' in q.buckets[k'];
      }
    }
    forall h' | h' in r.keyOf ensures r.keyOf[h'] in r.buckets && h' in r.buckets[r.keyOf[h']] {
      var k' := q.keyOf[h'];
      assert k' in q.buckets;
      assert h' in q.buckets[k'];
      if k' == k {
        assert h' in b;
      }
    }
  }

  /**
   * `replaceKey`: entry `h` leaves its bucket (see `Detach`), takes `newKey`
   * and joins the back of `newKey`'s bucket exactly as `insert` would place
   * it; the entry count and every other entry's key are unchanged, and the
   * cached minimum is again the least key present.
   */
  function ReplaceKey(q: Queue, h: nat, newKey: int): (r: Queue)
    requires Valid(q)
    requires h in q.keyOf
    ensures Valid(r)
    ensures r.keyOf == q.keyOf[h := newKey]
    ensures |r.keyOf| == |q.keyOf|
    ensures Bucket(r, newKey) == RemoveFirst(Bucket(q, newKey), h) + [h]
    ensures q.keyOf[h] != newKey ==> Bucket(r, q.keyOf[h]) == RemoveFirst(Bucket(q, q.keyOf[h]), h)
    ensures forall k | k != newKey && k != q.keyOf[h] :: Bucket(r, k) == Bucket(q, k)
  {
    var d := Detach(q, h);
    Insert(d, newKey, h)
  }

  /**
   * A replaced key is what the next `removeMin` sees: when the new key is
   * below every other key present, the replaced entry comes out next, with
   * its new key.
   */
  lemma ReplaceThenRemoveMin(q: Queue, h: nat, newKey: int)
    requires Valid(q)
    requires h in q.keyOf
    requires forall x | x in q.keyOf && x != h :: newKey < q.keyOf[x]
    ensures RemoveMin(ReplaceKey(q, h, newKey)).entry == Some(Entry(newKey, h))
  {
    var r := ReplaceKey(q, h, newKey);
    assert h in r.keyOf;
    var e := RemoveMin(r).entry.value;
    assert e.key <= r.keyOf[h];
    assert e.handle == h;
  }
}
