/**
 * Object_Attr_Iterator: the walk over an object's attribute map.  The
 * iterator's `item` pointer is modelled as a position (bucket, index) in the
 * bucket array; `m` is always the attribute map of the iterator's object.
 */
module AttrIter {
  import opened Wrappers
  import opened AttrMap

  /** The chain item the iterator points at: item `index` of chain `bucket`. */
  datatype Pos = Pos(bucket: nat, index: nat)

  datatype Iter = Iter(obj: Option<NodeId>, bucketIndex: nat, item: Option<Pos>)

  /** `1 << n` */
  function Pow2(n: nat): nat
  {
    if n == 0 then 1 else 2 * Pow2(n - 1)
  }

  lemma BucketCountIsPow2()
    ensures Pow2(DEFAULT_BUCKET_COUNT_LOG2) == DEFAULT_BUCKET_COUNT
  {
  }

  /** The iterator's item is an item of the map and its bucket index lies within the bucket array. */
  ghost predicate Points(m: HashMap, it: Iter)
  {
    && (m.buckets.Some? ==> it.bucketIndex <= |m.buckets.value|)
    && (it.item.Some? ==>
          && m.buckets.Some?
          && it.item.value.bucket < |m.buckets.value|
          && it.item.value.index < |m.buckets.value[it.item.value.bucket]|)
  }

  /** The first bucket at or after b whose chain is non-empty, or the bucket count when there is none. */
  function FirstOccupied(chains: seq<Chain>, b: nat): (r: nat)
    requires b <= |chains|
    ensures b <= r <= |chains|
    ensures r < |chains| ==> chains[r] != []
    ensures forall j :: b <= j < r ==> chains[j] == []
    decreases |chains| - b
  {
    if b == |chains| then b
    else if chains[b] != [] then b
    else FirstOccupied(chains, b + 1)
  }

  /**
   * What obj_attr_iter_next computes: the next item of the current chain;
   * else, when nothing has been visited yet and bucket 0 is occupied, its
   * head; else the head of the first occupied bucket at or after the bucket
   * index, which then moves past it.  A null object or unallocated buckets
   * leave the iterator as it is.
   */
  function Next(m: HashMap, it: Iter): (r: Iter)
    requires m.Valid() && Points(m, it)
    ensures Points(m, r) && r.obj == it.obj
  {
    if it.obj.None? || m.buckets.None? then it
    else
      var chains := m.buckets.value;
      if it.item.Some? && it.item.value.index + 1 < |chains[it.item.value.bucket]| then
        it.(item := Some(Pos(it.item.value.bucket, it.item.value.index + 1)))
      else if it.item.None? && it.bucketIndex == 0 && chains[0] != [] then
        it.(item := Some(Pos(0, 0)))
      else
        var b := FirstOccupied(chains, it.bucketIndex);
        if b < |chains| then Iter(it.obj, b + 1, Some(Pos(b, 0)))
        else Iter(it.obj, |chains|, None)
  }

  /** obj_attr_iter_next */
  method IterNext(m: HashMap, it: Iter) returns (r: Iter)
    requires m.Valid() && Points(m, it)
    ensures r == Next(m, it)
  {
    if it.obj.None? {
      return it;
    }
    if m.buckets.None? {
      return it;
    }
    var chains := m.buckets.value;
    r := it;
    if r.item.Some? {
      var p := r.item.value;
      if p.index + 1 < |chains[p.bucket]| {
        return r.(item := Some(Pos(p.bucket, p.index + 1)));
      }
      r := r.(item := None);
    } else if r.bucketIndex == 0 {
      if chains[0] != [] {
        return r.(item := Some(Pos(0, 0)));
      }
    }
    // `1 << bucket_count_log2` is the length of the bucket array
    while r.bucketIndex < |chains|
      invariant it.bucketIndex <= r.bucketIndex <= |chains|
      invariant r.obj == it.obj && r.item.None?
      invariant FirstOccupied(chains, r.bucketIndex) == FirstOccupied(chains, it.bucketIndex)
      decreases |chains| - r.bucketIndex
    {
      var b := r.bucketIndex;
      r := r.(bucketIndex := b + 1, item := if chains[b] == [] then None else Some(Pos(b, 0)));
      if r.item.Some? {
        return r;
      }
    }
  }

  /** obj_attr_iter_begin: a null-item iterator at bucket 0, advanced once. */
  function Begin(m: HashMap, obj: Option<NodeId>): (r: Iter)
    requires m.Valid()
    ensures Points(m, r) && r.obj == obj
  {
    Next(m, Iter(obj, 0, None))
  }

  /** obj_attr_iter_end: bucket index `1 << bucket_count_log2`, null item.  It dereferences the object. */
  function End(m: HashMap, obj: NodeId): Iter
  {
    Iter(Some(obj), Pow2(m.bucketCountLog2), None)
  }

  /** obj_attr_iter_equal: 1 when object, bucket index and item all agree, else 0. */
  function IterEqual(a: Iter, b: Iter): (r: int)
    ensures r == 0 || r == 1
    ensures r == 1 <==> a == b
  {
    if a.obj != b.obj then 0
    else if a.bucketIndex != b.bucketIndex then 0
    else if a.item != b.item then 0
    else 1
  }

  /** The iterator after n calls of obj_attr_iter_next. */
  function Walk(m: HashMap, it: Iter, n: nat): (r: Iter)
    requires m.Valid() && Points(m, it)
    ensures Points(m, r) && r.obj == it.obj
  {
    if n == 0 then it else Next(m, Walk(m, it, n - 1))
  }

  /**
   * On an object whose buckets were never allocated, `begin` sits at bucket
   * index 0 and `end` at index 1, and no number of steps brings them together:
   * a `begin != end` loop never ends.
   */
  lemma {:induction false} UnallocatedBeginNeverReachesEnd(m: HashMap, obj: NodeId, n: nat)
    requires m.Valid() && m.buckets.None?
    ensures Walk(m, Begin(m, Some(obj)), n) == Iter(Some(obj), 0, None)
    ensures IterEqual(Walk(m, Begin(m, Some(obj)), n), End(m, obj)) == 0
  {
    if n > 0 {
      UnallocatedBeginNeverReachesEnd(m, obj, n - 1);
    }
  }

  lemma {:induction false} WalkFirstChain(m: HashMap, obj: NodeId, i: nat)
    requires m.Valid() && m.buckets.Some? && i < |m.buckets.value[0]|
    ensures Walk(m, Begin(m, Some(obj)), i) == Iter(Some(obj), 0, Some(Pos(0, i)))
  {
    if i > 0 {
      WalkFirstChain(m, obj, i - 1);
    }
  }

  /**
   * Bucket 0 is visited twice: when it is occupied, `begin` yields its head
   * without moving the bucket index, and after the whole chain has been walked
   * the bucket scan starts again at index 0 and yields the same head.
   */
  lemma FirstBucketVisitedTwice(m: HashMap, obj: NodeId)
    requires m.Valid() && m.buckets.Some? && m.buckets.value[0] != []
    ensures Begin(m, Some(obj)).item == Some(Pos(0, 0))
    ensures Walk(m, Begin(m, Some(obj)), |m.buckets.value[0]|) == Iter(Some(obj), 1, Some(Pos(0, 0)))
  {
    var n := |m.buckets.value[0]|;
    WalkFirstChain(m, obj, 0);
    WalkFirstChain(m, obj, n - 1);
  }

  /**
   * obj_attr_iter_next as evidently intended: taking the head of bucket 0
   * also moves the bucket index past it, as the bucket scan does for every
   * other bucket.
   */
  function NextIntended(m: HashMap, it: Iter): (r: Iter)
    requires m.Valid() && Points(m, it)
    ensures Points(m, r) && r.obj == it.obj
  {
    if it.obj.None? || m.buckets.None? then it
    else
      var chains := m.buckets.value;
      if it.item.Some? && it.item.value.index + 1 < |chains[it.item.value.bucket]| then
        it.(item := Some(Pos(it.item.value.bucket, it.item.value.index + 1)))
      else if it.item.None? && it.bucketIndex == 0 && chains[0] != [] then
        Iter(it.obj, 1, Some(Pos(0, 0)))
      else
        var b := FirstOccupied(chains, it.bucketIndex);
        if b < |chains| then Iter(it.obj, b + 1, Some(Pos(b, 0)))
        else Iter(it.obj, |chains|, None)
  }

  /** The iterator after n calls of the intended obj_attr_iter_next. */
  function WalkIntended(m: HashMap, it: Iter, n: nat): (r: Iter)
    requires m.Valid() && Points(m, it)
    ensures Points(m, r) && r.obj == it.obj
  {
    if n == 0 then it else NextIntended(m, WalkIntended(m, it, n - 1))
  }

  lemma {:induction false} WalkIntendedFirstChain(m: HashMap, obj: NodeId, i: nat)
    requires m.Valid() && m.buckets.Some? && i < |m.buckets.value[0]|
    ensures WalkIntended(m, NextIntended(m, Iter(Some(obj), 0, None)), i) == Iter(Some(obj), 1, Some(Pos(0, i)))
  {
    if i > 0 {
      WalkIntendedFirstChain(m, obj, i - 1);
    }
  }

  /**
   * With the intended step, once bucket 0's chain has been walked the
   * iterator moves on to the head of the next occupied bucket, or to `end`
   * when there is none: bucket 0 is visited once.
   */
  lemma FirstBucketVisitedOnceIntended(m: HashMap, obj: NodeId)
    requires m.Valid() && m.buckets.Some? && m.buckets.value[0] != []
    ensures var chains := m.buckets.value;
            var b := FirstOccupied(chains, 1);
            WalkIntended(m, NextIntended(m, Iter(Some(obj), 0, None)), |chains[0]|)
              == if b < |chains| then Iter(Some(obj), b + 1, Some(Pos(b, 0))) else End(m, obj)
  {
    var n := |m.buckets.value[0]|;
    WalkIntendedFirstChain(m, obj, n - 1);
    BucketCountIsPow2();
  }

  /**
   * obj_attr_iter_end as evidently intended: on a map whose buckets were
   * never allocated there is no bucket to pass, so `end` sits at index 0.
   */
  function EndIntended(m: HashMap, obj: NodeId): Iter
  {
    Iter(Some(obj), if m.buckets.None? then 0 else Pow2(m.bucketCountLog2), None)
  }

  /**
   * With the intended `end`, an object without attributes yields an empty
   * walk, and on an allocated map `end` is where the written one is.
   */
  lemma UnallocatedBeginIsEndIntended(m: HashMap, obj: NodeId)
    requires m.Valid()
    ensures m.buckets.None? ==> IterEqual(Begin(m, Some(obj)), EndIntended(m, obj)) == 1
    ensures m.buckets.Some? ==> EndIntended(m, obj) == End(m, obj) == Iter(Some(obj), |m.buckets.value|, None)
  {
    BucketCountIsPow2();
  }
}
