/** Which hole a request takes, and what it answers, stated on the sizes of the holes. */
module AllocatorOutcomes {
  import opened Options
  import opened Sequences
  import opened BlockList
  import opened AllocatorTheorems

  /** The front of the k-th block, a hole, now belongs to `name`; what is left of it is a hole. */
  ghost predicate TakenFrom(bs: Blocks, k: nat, name: string, size: nat, bs': Blocks) {
    && k < |bs| && bs[k].owner == None && size <= bs[k].size
    && bs' == bs[..k] + [Block(bs[k].lo, size, Some(name))]
              + (if size < bs[k].size then [Block(bs[k].lo + size, bs[k].size - size, None)] else [])
              + bs[k + 1..]
  }


  lemma InsertedBetween<T>(s: seq<T>, k: nat, x: T)
    requires k <= |s|
    ensures Inserted(s, k, x) == s[..k] + [x] + s[k..]
  {
  }

  lemma UpdatedBetween<T>(s: seq<T>, k: nat, x: T)
    requires k < |s|
    ensures s[k := x][..k + 1] == s[..k] + [x] && s[k := x][k + 1..] == s[k + 1..]
  {
  }

  lemma {:induction false} PlacedTakes(bs: Blocks, k: nat, name: string, size: nat)
    requires k < |bs| && Fits(bs[k], size)
    ensures TakenFrom(bs, k, name, size, Placed(bs, k, name, size))
  {
    var mine, rest := Block(bs[k].lo, size, Some(name)), Block(bs[k].lo + size, bs[k].size - size, None);
    var taken := bs[k := mine];
    UpdatedBetween(bs, k, mine);
    if size < bs[k].size {
      assert bs[k := bs[k].(owner := Some(name))][k := mine] == taken;
      assert Placed(bs, k, name, size) == Inserted(taken, k + 1, rest);
      InsertedBetween(taken, k + 1, rest);
    } else {
      assert Placed(bs, k, name, size) == taken == taken[..k + 1] + taken[k + 1..];
    }
  }

  /** First fit takes the front of a hole that is large enough; every hole before it is too small. */
  lemma {:induction false} FirstFitTakes(bs: Blocks, name: string, size: nat, bs': Blocks)
    requires Requested(bs, name, size, 'F', 0, bs')
    ensures exists k: nat :: (TakenFrom(bs, k, name, size, bs')
      && forall j :: 0 <= j < k && bs[j].owner == None ==> bs[j].size < size)
  {
    var k: nat :| Chosen(bs, size, 'F', k) && bs' == Placed(bs, k, name, size);
    PlacedTakes(bs, k, name, size);
    forall j | 0 <= j < k && bs[j].owner == None
      ensures bs[j].size < size
    {
      assert !Fits(bs[j], size);
    }
  }

  /** Best fit takes the front of a hole that is large enough and smaller than 2^64 - 1 bytes; no hole that
    * is large enough is smaller, and those before it are larger. */
  lemma {:induction false} BestFitTakes(bs: Blocks, name: string, size: nat, bs': Blocks)
    requires Requested(bs, name, size, 'B', 0, bs')
    ensures exists k: nat :: (TakenFrom(bs, k, name, size, bs') && bs[k].size < 0xFFFF_FFFF_FFFF_FFFF
      && (forall j :: 0 <= j < |bs| && bs[j].owner == None && size <= bs[j].size ==> bs[k].size <= bs[j].size)
      && (forall j :: 0 <= j < k && bs[j].owner == None && size <= bs[j].size ==> bs[k].size < bs[j].size))
  {
    var k: nat :| Chosen(bs, size, 'B', k) && bs' == Placed(bs, k, name, size);
    PlacedTakes(bs, k, name, size);
    assert forall j :: 0 <= j < |bs| && bs[j].owner == None && size <= bs[j].size ==> Fits(bs[j], size);
  }

  /** Worst fit takes the front of a hole that is large enough, for a size other than 0; no hole is larger,
    * and those before it are smaller. */
  lemma {:induction false} WorstFitTakes(bs: Blocks, name: string, size: nat, bs': Blocks)
    requires Requested(bs, name, size, 'W', 0, bs')
    ensures 0 < size && exists k: nat :: (TakenFrom(bs, k, name, size, bs')
      && (forall j :: 0 <= j < |bs| && bs[j].owner == None ==> bs[j].size <= bs[k].size)
      && (forall j :: 0 <= j < k && bs[j].owner == None ==> bs[j].size < bs[k].size))
  {
    var k: nat :| Chosen(bs, size, 'W', k) && bs' == Placed(bs, k, name, size);
    PlacedTakes(bs, k, name, size);
  }

  /** What a request answers: -1 for an unknown strategy, and for the others 0 exactly when there is a hole
    * for it, else -2. A request that is not granted changes nothing. */
  lemma {:induction false} RequestCodes(bs: Blocks, name: string, size: nat, strategy: char, code: int, bs': Blocks, memSize: nat)
    requires Inv(bs, memSize) && Requested(bs, name, size, strategy, code, bs')
    ensures code in {0, -1, -2} && (code != 0 ==> bs' == bs)
    ensures code == -1 <==> strategy != 'F' && strategy != 'B' && strategy != 'W'
    ensures strategy == 'F' ==>
      (code == 0 <==> exists k :: 0 <= k < |bs| && bs[k].owner == None && size <= bs[k].size)
    ensures strategy == 'B' ==>
      (code == 0 <==> exists k :: 0 <= k < |bs| && bs[k].owner == None && size <= bs[k].size < 0xFFFF_FFFF_FFFF_FFFF)
    ensures strategy == 'W' ==>
      (code == 0 <==> 0 < size && exists k :: 0 <= k < |bs| && bs[k].owner == None && size <= bs[k].size)
  {
    WhenServed(bs, size, memSize);
    assert forall k :: 0 <= k < |bs| ==> (Fits(bs[k], size) <==> bs[k].owner == None && size <= bs[k].size);
    assert code == 0 <==> Serves(bs, size, strategy);
  }
}
