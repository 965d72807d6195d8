/** A ring buffer with one slot more than it may hold items, as a window on what was ever put in. */
module RingQueue {
  import opened Modulo

  datatype Ring<T> = Ring(slots: seq<T>, head: nat, tail: nat)

  ghost predicate InRing<T>(inserted: seq<T>, removed: seq<T>, k: int) {
    |removed| <= k < |inserted|
  }

  /** `removed` is a prefix of `inserted`; what lies between is in the slots, in order. */
  ghost predicate RingInv<T>(r: Ring<T>, inserted: seq<T>, removed: seq<T>) {
    && 1 < |r.slots| && removed <= inserted && |inserted| - |removed| < |r.slots|
    && r.head == |removed| % |r.slots| && r.tail == |inserted| % |r.slots|
    && r.head < |r.slots| && r.tail < |r.slots|
    && forall k :: InRing(inserted, removed, k) ==>
         0 <= k % |r.slots| < |r.slots| && r.slots[k % |r.slots|] == inserted[k]
  }

  /** The slot at the tail holds none of the items that are still to be read. */
  lemma TailIsFree<T>(r: Ring<T>, inserted: seq<T>, removed: seq<T>, k: int)
    requires RingInv(r, inserted, removed) && InRing(inserted, removed, k)
    ensures k % |r.slots| != r.tail
  {
    ModDistinct(k, |inserted|, |r.slots|);
  }

  lemma Write<T>(r: Ring<T>, inserted: seq<T>, removed: seq<T>, x: T)
    requires RingInv(r, inserted, removed)
    ensures RingInv(r.(slots := r.slots[r.tail := x]), inserted, removed)
  {
    var r' := r.(slots := r.slots[r.tail := x]);
    forall k | InRing(inserted, removed, k)
      ensures 0 <= k % |r.slots| < |r.slots| && r'.slots[k % |r.slots|] == inserted[k]
    {
      TailIsFree(r, inserted, removed, k);
    }
  }

  lemma Put<T>(r: Ring<T>, inserted: seq<T>, removed: seq<T>)
    requires RingInv(r, inserted, removed) && |inserted| - |removed| < |r.slots| - 1
    ensures RingInv(r.(tail := (r.tail + 1) % |r.slots|), inserted + [r.slots[r.tail]], removed)
  {
    ModNext(|inserted|, |r.slots|);
    var inserted' := inserted + [r.slots[r.tail]];
    assert removed <= inserted';
    forall k | InRing(inserted', removed, k)
      ensures 0 <= k % |r.slots| < |r.slots| && r.slots[k % |r.slots|] == inserted'[k]
    {
      assert k < |inserted| ==> InRing(inserted, removed, k);
    }
  }

  lemma Take<T>(r: Ring<T>, inserted: seq<T>, removed: seq<T>)
    requires RingInv(r, inserted, removed) && |removed| < |inserted|
    ensures r.slots[r.head] == inserted[|removed|]
    ensures RingInv(r.(head := (r.head + 1) % |r.slots|), inserted, removed + [r.slots[r.head]])
  {
    ModNext(|removed|, |r.slots|);
    assert InRing(inserted, removed, |removed|);
    var removed' := removed + [r.slots[r.head]];
    assert removed' <= inserted;
    forall k | InRing(inserted, removed', k)
      ensures 0 <= k % |r.slots| < |r.slots| && r.slots[k % |r.slots|] == inserted[k]
    {
      assert InRing(inserted, removed, k);
    }
  }

  /** The test for a full ring is exact. */
  lemma FullTest<T>(r: Ring<T>, inserted: seq<T>, removed: seq<T>)
    requires RingInv(r, inserted, removed)
    ensures (r.tail + 1) % |r.slots| == r.head <==> |inserted| - |removed| == |r.slots| - 1
  {
    var n, len := |r.slots|, |inserted| - |removed|;
    ModNext(|inserted|, n);
    if len == n - 1 {
      ModPeriod(|removed|, n);
    } else {
      ModDistinct(|removed|, |inserted| + 1, n);
    }
  }
}
