/** What the allocator promises over single calls and over whole runs. */
module AllocatorTheorems {
  import opened Options
  import opened BlockList
  import opened BlockTheorems

  // ----- the three strategies -----

  ghost predicate Serves(bs: Blocks, size: nat, strategy: char) {
    exists k :: Chosen(bs, size, strategy, k)
  }

  ghost predicate AnyFits(bs: Blocks, size: nat) {
    exists k :: 0 <= k < |bs| && Fits(bs[k], size)
  }

  /** A strategy selects at most one block, so a request has only one outcome. */
  lemma ChosenOnce(bs: Blocks, size: nat, strategy: char, k: nat, k': nat)
    requires Chosen(bs, size, strategy, k) && Chosen(bs, size, strategy, k')
    ensures k == k'
  {
    assert Fits(bs[k], size) && Fits(bs[k'], size);
  }

  lemma {:induction false} FirstExists(bs: Blocks, size: nat, n: nat) returns (k: nat)
    requires n < |bs| && Fits(bs[n], size)
    ensures Chosen(bs, size, 'F', k)
  {
    k := n;
    if j :| 0 <= j < n && Fits(bs[j], size) { k := FirstExists(bs, size, j); }
  }

  lemma {:induction false} SmallestExists(bs: Blocks, size: nat, n: nat) returns (k: nat)
    requires n < |bs| && Fits(bs[n], size)
    ensures k < |bs| && Fits(bs[k], size) && bs[k].size <= bs[n].size
    ensures forall j :: 0 <= j < |bs| && Fits(bs[j], size) ==> bs[k].size <= bs[j].size
    ensures forall j :: 0 <= j < k && Fits(bs[j], size) ==> bs[k].size < bs[j].size
    decreases bs[n].size, n
  {
    k := n;
    if j :| 0 <= j < |bs| && Fits(bs[j], size) && bs[j].size < bs[n].size {
      k := SmallestExists(bs, size, j);
    } else if j :| 0 <= j < n && Fits(bs[j], size) && bs[j].size <= bs[n].size {
      k := SmallestExists(bs, size, j);
    }
  }

  lemma {:induction false} LargestExists(bs: Blocks, n: nat, bound: nat) returns (k: nat)
    requires n < |bs| && bs[n].Hole() && forall i :: 0 <= i < |bs| ==> bs[i].size <= bound
    ensures k < |bs| && bs[k].Hole() && bs[n].size <= bs[k].size
    ensures forall j :: 0 <= j < |bs| && bs[j].Hole() ==> bs[j].size <= bs[k].size
    ensures forall j :: 0 <= j < k && bs[j].Hole() ==> bs[j].size < bs[k].size
    decreases bound - bs[n].size, n
  {
    k := n;
    if j :| 0 <= j < |bs| && bs[j].Hole() && bs[n].size < bs[j].size {
      k := LargestExists(bs, j, bound);
    } else if j :| 0 <= j < n && bs[j].Hole() && bs[n].size <= bs[j].size {
      k := LargestExists(bs, j, bound);
    }
  }

  /** When each strategy finds a hole. First fit finds one whenever one is large enough; best fit
    * overlooks a hole of SIZE_MAX bytes, and worst fit never serves a request for 0 bytes. */
  lemma WhenServed(bs: Blocks, size: nat, memSize: nat)
    requires Inv(bs, memSize)
    ensures Serves(bs, size, 'F') <==> AnyFits(bs, size)
    ensures Serves(bs, size, 'B') <==> exists k :: 0 <= k < |bs| && Fits(bs[k], size) && bs[k].size < SIZE_MAX
    ensures Serves(bs, size, 'W') <==> AnyFits(bs, size) && 0 < size
  {
    TiledBounds(bs, 0, memSize);
    if AnyFits(bs, size) {
      var n :| 0 <= n < |bs| && Fits(bs[n], size);
      var f := FirstExists(bs, size, n);
      var w := LargestExists(bs, n, memSize);
      if 0 < size { assert Chosen(bs, size, 'W', w); }
    }
    if n :| 0 <= n < |bs| && Fits(bs[n], size) && bs[n].size < SIZE_MAX {
      var b := SmallestExists(bs, size, n);
      assert Chosen(bs, size, 'B', b);
    }
  }

  /** For proper sizes the three strategies serve exactly the same requests. */
  lemma SameRequestsServed(bs: Blocks, size: nat, memSize: nat)
    requires Inv(bs, memSize) && 0 < size && memSize < SIZE_MAX
    ensures Serves(bs, size, 'F') == Serves(bs, size, 'B') == Serves(bs, size, 'W') == AnyFits(bs, size)
  {
    WhenServed(bs, size, memSize);
    TiledBounds(bs, 0, memSize);
  }

  // ----- who owns which byte -----

  lemma PlacedMembers(bs: Blocks, k: nat, name: string, size: nat)
    requires k < |bs| && size <= bs[k].size && bs[k].Hole()
    ensures forall b: Block :: !b.Hole() ==>
      (b in Placed(bs, k, name, size) <==> b in bs || b == Block(bs[k].lo, size, Some(name)))
  {
    var r := Placed(bs, k, name, size);
    var mine := Block(bs[k].lo, size, Some(name));
    assert r[k] == mine;
    forall b: Block | !b.Hole()
      ensures b in r <==> b in bs || b == mine
    {
      if b in bs {
        var i :| 0 <= i < |bs| && bs[i] == b;
        assert b == if i < k || |r| == |bs| then r[i] else r[i + 1];
      }
      if b in r {
        var i :| 0 <= i < |r| && r[i] == b;
        assert i == k || b == (if i < k || |r| == |bs| then bs[i] else bs[i - 1]);
      }
    }
  }

  /** The bytes [lo, lo + size), owned by nobody in `bs`, belong to `name` in `bs'`; the others keep their owners. */
  ghost predicate Granted(bs: Blocks, name: string, lo: nat, size: nat, bs': Blocks) {
    && (forall a: nat, w :: lo <= a < lo + size ==> !Owns(bs, a, w))
    && (forall a: nat, w :: Owns(bs', a, w) <==> Owns(bs, a, w) || (w == name && lo <= a < lo + size))
  }

  lemma PlacedOwns(bs: Blocks, k: nat, name: string, size: nat, a: nat, w: string)
    requires k < |bs| && size <= bs[k].size && bs[k].Hole()
    ensures Owns(Placed(bs, k, name, size), a, w) <==> Owns(bs, a, w) || (w == name && bs[k].lo <= a < bs[k].lo + size)
  {
    PlacedMembers(bs, k, name, size);
    var mine, r := Block(bs[k].lo, size, Some(name)), Placed(bs, k, name, size);
    if w == name && mine.Has(a) { assert mine in r; }
    if Owns(bs, a, w) {
      var b :| b in bs && b.owner == Some(w) && b.Has(a);
      assert b in r;
    }
  }

  /** A granted request takes `size` consecutive bytes that nobody owned and changes no other byte. */
  lemma RequestOwns(bs: Blocks, name: string, size: nat, strategy: char, bs': Blocks, memSize: nat)
    requires Inv(bs, memSize) && Requested(bs, name, size, strategy, 0, bs')
    ensures exists lo: nat :: lo + size <= memSize && Granted(bs, name, lo, size, bs')
  {
    var k: nat :| Chosen(bs, size, strategy, k) && bs' == Placed(bs, k, name, size);
    TiledBounds(bs, 0, memSize);
    var lo := bs[k].lo;
    forall a: nat, w | lo <= a < lo + size
      ensures !Owns(bs, a, w)
    {
      HoleUnowned(bs, k, a, w, memSize);
    }
    forall a: nat, w
      ensures Owns(bs', a, w) <==> Owns(bs, a, w) || (w == name && lo <= a < lo + size)
    {
      PlacedOwns(bs, k, name, size, a, w);
    }
    assert Granted(bs, name, lo, size, bs');
  }

  lemma HoleUnowned(bs: Blocks, k: nat, a: nat, w: string, memSize: nat)
    requires Tiled(bs, 0, memSize) && k < |bs| && bs[k].Hole() && bs[k].Has(a)
    ensures !Owns(bs, a, w)
  {
    if Owns(bs, a, w) {
      var b :| b in bs && b.owner == Some(w) && b.Has(a);
      var i :| 0 <= i < |bs| && bs[i] == b;
      if i < k { TiledDisjoint(bs, i, k, 0, memSize); }
      if k < i { TiledDisjoint(bs, k, i, 0, memSize); }
    }
  }

  lemma {:induction false} CoalesceMembers(acc: Blocks, bs: Blocks, b: Block)
    requires !b.Hole()
    ensures b in Coalesce(acc, bs) <==> b in acc || b in bs
    decreases |bs|
  {
    if bs != [] {
      CoalesceMembers(Push(acc, bs[0]), bs[1..], b);
      PushMembers(acc, bs[0], b);
      assert bs == [bs[0]] + bs[1..];
    }
  }

  lemma PushMembers(acc: Blocks, x: Block, b: Block)
    requires !b.Hole()
    ensures b in Push(acc, x) <==> b in acc || b == x
  {
    if Push(acc, x) != acc + [x] {
      var n := |acc| - 1;
      assert acc == acc[..n] + [acc[n]];
    }
  }

  /** The used blocks after a release are those of other names, unchanged. */
  lemma ReleasedMembers(bs: Blocks, name: string, b: Block)
    requires !b.Hole()
    ensures b in Released(bs, name) <==> b in bs && b.owner != Some(name)
  {
    var m := MarkFree(bs, name);
    CoalesceMembers([], m, b);
    if b in bs && b.owner != Some(name) {
      var i :| 0 <= i < |bs| && bs[i] == b;
      assert m[i] == b;
    }
  }

  /** A release frees precisely the bytes of that name; every other byte keeps its owner. */
  lemma ReleaseFrees(bs: Blocks, name: string)
    ensures forall a: nat, w :: Owns(Released(bs, name), a, w) <==> Owns(bs, a, w) && w != name
  {
    forall a: nat, w
      ensures Owns(Released(bs, name), a, w) <==> Owns(bs, a, w) && w != name
    {
      forall b: Block | b.owner == Some(w)
        ensures b in Released(bs, name) <==> b in bs && w != name
      {
        ReleasedMembers(bs, name, b);
      }
    }
  }

  // ----- request, then release -----

  lemma {:induction false} CoalesceNothing(acc: Blocks, bs: Blocks)
    requires NoAdjacentHoles(acc + bs)
    ensures Coalesce(acc, bs) == acc + bs
    decreases |bs|
  {
    if bs == [] {
      assert acc + bs == acc;
    } else {
      var n := |acc|;
      assert n > 0 ==> (acc + bs)[n - 1] == acc[n - 1];
      assert (acc + bs)[n] == bs[0];
      assert Push(acc, bs[0]) == acc + [bs[0]];
      assert acc + [bs[0]] + bs[1..] == acc + bs;
      CoalesceNothing(acc + [bs[0]], bs[1..]);
    }
  }

  lemma {:induction false} CoalesceConcat(acc: Blocks, a: Blocks, b: Blocks)
    ensures Coalesce(acc, a + b) == Coalesce(Coalesce(acc, a), b)
    decreases |a|
  {
    if a == [] {
      assert a + b == b;
    } else {
      CoalesceConcat(Push(acc, a[0]), a[1..], b);
      assert (a + b)[1..] == a[1..] + b;
    }
  }

  /** Releasing a name that no block carries changes nothing. */
  lemma ReleaseUnknown(bs: Blocks, name: string, memSize: nat)
    requires Inv(bs, memSize) && !HasOwner(bs, name)
    ensures Released(bs, name) == bs
  {
    assert MarkFree(bs, name) == bs;
    CoalesceNothing([], bs);
    assert [] + bs == bs;
  }

  lemma PushTwice(pre: Blocks, x: Block, y: Block, h: Block)
    requires x.Hole() && y.Hole() && h == Block(x.lo, x.size + y.size, None)
    requires |pre| > 0 ==> !pre[|pre| - 1].Hole()
    ensures Coalesce(pre, [x, y]) == pre + [h]
  {
    assert [x, y][1..] == [y] && [y][1..] == [];
    assert Coalesce(pre, [x, y]) == Coalesce(Push(pre, x), [y]) == Coalesce(Push(Push(pre, x), y), []);
    assert Push(pre, x) == pre + [x];
    assert Push(pre + [x], y) == pre + [h];
  }

  lemma CoalesceSplitHole(pre: Blocks, h: Block, size: nat, post: Blocks)
    requires NoAdjacentHoles(pre + [h] + post) && h.Hole() && size <= h.size
    ensures Coalesce([], pre + [h.(size := size), Block(h.lo + size, h.size - size, None)] + post) == pre + [h] + post
  {
    var two := [h.(size := size), Block(h.lo + size, h.size - size, None)];
    var all := pre + [h] + post;
    assert NoAdjacentHoles(pre) by {
      assert forall i :: 0 <= i < |pre| ==> pre[i] == all[i];
    }
    CoalesceNothing([], pre);
    assert [] + pre == pre && pre + two + post == pre + (two + post);
    CoalesceConcat([], pre, two + post);
    assert |pre| > 0 ==> pre[|pre| - 1] == all[|pre| - 1] && all[|pre|] == h && !pre[|pre| - 1].Hole();
    CoalesceConcat(pre, two, post);
    PushTwice(pre, two[0], two[1], h);
    CoalesceNothing(pre + [h], post);
  }

  lemma AroundBlock(bs: Blocks, k: nat)
    requires k < |bs|
    ensures bs == bs[..k] + [bs[k]] + bs[k + 1..]
  {
  }

  lemma ReleasePlaced(bs: Blocks, k: nat, name: string, size: nat, memSize: nat)
    requires Inv(bs, memSize) && !HasOwner(bs, name) && k < |bs| && bs[k].Hole() && size < bs[k].size
    ensures Released(Placed(bs, k, name, size), name) == bs
  {
    MarkPlaced(bs, k, name, size);
    AroundBlock(bs, k);
    CoalesceSplitHole(bs[..k], bs[k], size, bs[k + 1..]);
  }

  lemma ReleaseWhole(bs: Blocks, k: nat, name: string, memSize: nat)
    requires Inv(bs, memSize) && !HasOwner(bs, name) && k < |bs| && bs[k].Hole()
    ensures Released(Placed(bs, k, name, bs[k].size), name) == bs
  {
    assert MarkFree(Placed(bs, k, name, bs[k].size), name) == bs;
    CoalesceNothing([], bs);
    assert [] + bs == bs;
  }

  /** Requesting a block under a fresh name and releasing that name restores the list of blocks. */
  lemma RequestThenRelease(bs: Blocks, name: string, size: nat, strategy: char, bs': Blocks, memSize: nat)
    requires Inv(bs, memSize) && !HasOwner(bs, name)
    requires Requested(bs, name, size, strategy, 0, bs')
    ensures Released(bs', name) == bs
  {
    var k: nat :| Chosen(bs, size, strategy, k) && bs' == Placed(bs, k, name, size);
    if bs[k].size == size {
      ReleaseWhole(bs, k, name, memSize);
    } else {
      ReleasePlaced(bs, k, name, size, memSize);
    }
  }

  lemma MarkPlaced(bs: Blocks, k: nat, name: string, size: nat)
    requires k < |bs| && bs[k].Hole() && size < bs[k].size && !HasOwner(bs, name)
    ensures MarkFree(Placed(bs, k, name, size), name) ==
      bs[..k] + [bs[k].(size := size), Block(bs[k].lo + size, bs[k].size - size, None)] + bs[k + 1..]
  {
    var r := MarkFree(Placed(bs, k, name, size), name);
    assert |r| == |bs| + 1;
    forall i | 0 <= i < |bs|
      ensures Mark(bs[i], name) == bs[i]
    {
    }
    var two := [bs[k].(size := size), Block(bs[k].lo + size, bs[k].size - size, None)];
    assert r[k] == two[0] && r[k + 1] == two[1];
    assert r[..k] == bs[..k] && r[k + 2..] == bs[k + 1..];
    assert r == r[..k] + two + r[k + 2..];
  }

  // ----- compaction -----

  /** The used blocks in list order, each by its name and size. */
  function Claims(bs: Blocks): seq<(Option<string>, nat)> {
    if bs == [] then []
    else
      var b := bs[|bs| - 1];
      Claims(bs[..|bs| - 1]) + if b.Hole() then [] else [(b.owner, b.size)]
  }

  lemma {:induction false} PackedClaims(bs: Blocks)
    ensures Claims(Packed(bs)) == Claims(bs) && UsedTotal(Packed(bs)) == UsedTotal(bs)
    ensures FreeTotal(Packed(bs)) == 0
  {
    if bs != [] {
      var pre, b := bs[..|bs| - 1], bs[|bs| - 1];
      PackedClaims(pre);
      if !b.Hole() {
        var s := Packed(bs);
        assert s[..|s| - 1] == Packed(pre);
      } else {
        assert Packed(bs) == Packed(pre);
        assert Claims(bs) == Claims(pre);
      }
    }
  }

  lemma ClaimsWithHole(p: Blocks, used: nat, free: nat, hole: bool)
    ensures Claims(WithHole(p, used, free, hole)) == Claims(p)
    ensures FreeTotal(WithHole(p, used, free, hole)) == FreeTotal(p) + if hole then free else 0
  {
    var r := WithHole(p, used, free, hole);
    if hole {
      assert r[|r| - 1].Hole() && r[..|r| - 1] == p;
    } else {
      assert r == p;
    }
  }

  /** After compaction the used blocks come first, in the same order with the same names and sizes,
    * and all free space is one hole behind them. */
  lemma CompactionShape(bs: Blocks, memSize: nat)
    requires Inv(bs, memSize)
    ensures var r := Compacted(bs);
      && Inv(r, memSize) && Claims(r) == Claims(bs) && FreeTotal(r) == FreeTotal(bs)
      && (forall i :: 0 <= i < |r| && r[i].Hole() ==> i == |r| - 1 && r[i].size == FreeTotal(bs))
      && (HasHole(r) <==> HasHole(bs))
  {
    var p, r := Packed(bs), Compacted(bs);
    CompactedKeepsInv(bs, memSize);
    PackedClaims(bs);
    ClaimsWithHole(p, UsedTotal(bs), FreeTotal(bs), HasHole(bs));
    if !HasHole(bs) { NoHoleNoFree(bs); }
    OnlyLastIsHole(bs);
  }

  lemma OnlyLastIsHole(bs: Blocks)
    ensures var r := Compacted(bs);
      && (forall i :: 0 <= i < |r| && r[i].Hole() ==> i == |r| - 1 && r[i].size == FreeTotal(bs))
      && (HasHole(r) <==> HasHole(bs))
  {
    var p, r := Packed(bs), Compacted(bs);
    PackedTiled(bs);
    assert forall i :: 0 <= i < |p| ==> p[i] in p && r[i] == p[i];
    if HasHole(bs) {
      assert r[|p|].Hole() && r[|p|] in r;
    }
  }

  /** After compaction any proper request is served exactly when it is no larger than the free space. */
  lemma ServedAfterCompaction(bs: Blocks, size: nat, memSize: nat)
    requires Inv(bs, memSize) && 0 < size && memSize < SIZE_MAX
    ensures forall s :: s in {'F', 'B', 'W'} ==> (Serves(Compacted(bs), size, s) <==> size <= FreeTotal(bs))
  {
    var r := Compacted(bs);
    CompactionShape(bs, memSize);
    SameRequestsServed(r, size, memSize);
    if size <= FreeTotal(bs) {
      if !HasHole(bs) { NoHoleNoFree(bs); }
      assert Fits(r[|r| - 1], size);
    }
  }

  // ----- whole runs -----

  datatype Op = RQ(name: string, size: Word, strategy: char) | RL(name: string) | C

  ghost predicate Step(bs: Blocks, op: Op, bs': Blocks) {
    match op
    case RQ(name, size, strategy) => exists code :: Requested(bs, name, size, strategy, code, bs')
    case RL(name) => bs' == Released(bs, name)
    case C => bs' == Compacted(bs)
  }

  /** `states` is a run of the allocator from one unused block of `memSize` bytes. */
  ghost predicate Run(states: seq<Blocks>, ops: seq<Op>, memSize: Word) {
    && |states| == |ops| + 1 && states[0] == [Block(0, memSize, None)]
    && forall i, j :: 0 <= i && j == i + 1 < |states| ==> Step(states[i], ops[i], states[j])
  }

  lemma StepKeepsInv(bs: Blocks, op: Op, bs': Blocks, memSize: nat)
    requires Inv(bs, memSize) && Step(bs, op, bs')
    ensures Inv(bs', memSize)
  {
    match op
    case RQ(name, size, strategy) =>
      if bs' != bs {
        var k: nat :| Chosen(bs, size, strategy, k) && bs' == Placed(bs, k, name, size);
        PlacedKeepsInv(bs, k, name, size, memSize);
      }
    case RL(name) => ReleasedKeepsInv(bs, name, memSize);
    case C => CompactedKeepsInv(bs, memSize);
  }

  /** In every state of every run the blocks tile the memory exactly, no two holes are adjacent, and
    * used and free space add up to the whole. */
  lemma {:induction false} RunKeepsInv(states: seq<Blocks>, ops: seq<Op>, memSize: Word, i: nat)
    requires Run(states, ops, memSize) && i < |states|
    ensures Inv(states[i], memSize)
    ensures UsedTotal(states[i]) + FreeTotal(states[i]) == memSize
  {
    if i > 0 {
      RunKeepsInv(states, ops, memSize, i - 1);
      assert Step(states[i - 1], ops[i - 1], states[i]);
      StepKeepsInv(states[i - 1], ops[i - 1], states[i], memSize);
    }
    TiledTotals(states[i], 0, memSize);
  }
}
