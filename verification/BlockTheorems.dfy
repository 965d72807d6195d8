module BlockTheorems {
  import opened Options
  import opened BlockList
  import opened Sequences

  /** The words that request_memory computes when it splits a block. */
  lemma SplitWords(b: Block, size: nat)
    requires size < b.size && b.End() < WORD
    ensures Plus(b.lo, size) == b.lo + size
    ensures Minus(Plus(b.lo, size), 1) == Last(b.(size := size))
    ensures Last(Block(b.lo + size, b.size - size, None)) == Last(b)
  {
  }

  lemma PlacedKeepsInv(bs: Blocks, k: nat, name: string, size: nat, memSize: nat)
    requires Inv(bs, memSize) && k < |bs| && Fits(bs[k], size)
    ensures Inv(Placed(bs, k, name, size), memSize)
  {
    var bs' := Placed(bs, k, name, size);
    forall i, j | 0 <= i && j == i + 1 < |bs'|
      ensures bs'[i].End() == bs'[j].lo && !(bs'[i].Hole() && bs'[j].Hole())
    {
      if k < i - 1 { assert bs[i - 1].End() == bs[j - 1].lo && !(bs[i - 1].Hole() && bs[j - 1].Hole()); }
    }
  }

  lemma PlacedIsRequested(bs: Blocks, k: nat, name: string, size: nat, strategy: char, memSize: nat)
    requires Inv(bs, memSize) && Chosen(bs, size, strategy, k)
    ensures Requested(bs, name, size, strategy, 0, Placed(bs, k, name, size))
    ensures Inv(Placed(bs, k, name, size), memSize) && bs[k].End() <= memSize
  {
    TiledBounds(bs, 0, memSize);
    PlacedKeepsInv(bs, k, name, size, memSize);
  }

  lemma NoneChosen(bs: Blocks, name: string, size: nat, strategy: char)
    requires strategy in {'F', 'B', 'W'} && forall j :: !Chosen(bs, size, strategy, j)
    ensures Requested(bs, name, size, strategy, -2, bs)
  {
  }

  // ----- release -----

  lemma MergedAtIsPush(bs: Blocks, k: nat)
    requires k < |bs|
    ensures MergedAt(bs, k) == Push(bs[..k], bs[k]) + bs[k + 1..]
  {
    var acc := bs[..k];
    if Mergeable(bs, k) {
      assert acc[|acc| - 1] == bs[k - 1];
      var merged := bs[k].(lo := bs[k - 1].lo, size := bs[k - 1].size + bs[k].size);
      RemovedBefore(bs, k, merged);
      assert acc[..k - 1] == bs[..k - 1];
    } else {
      assert k > 0 ==> acc[|acc| - 1] == bs[k - 1];
      assert bs == acc + [bs[k]] + bs[k + 1..];
    }
  }

  lemma RemovedBefore(bs: Blocks, k: nat, b: Block)
    requires 0 < k < |bs|
    ensures Without(bs[k := b], k - 1) == bs[..k - 1] + [b] + bs[k + 1..]
  {
  }

  lemma MergedAtTiled(bs: Blocks, k: nat, memSize: nat)
    requires k < |bs| && Tiled(bs, 0, memSize)
    ensures Tiled(MergedAt(bs, k), 0, memSize)
  {
    if Mergeable(bs, k) {
      var r := MergedAt(bs, k);
      assert bs[k - 1].End() == bs[k].lo;
      assert r[k - 1].End() == bs[k].End();
      assert k + 1 < |bs| ==> bs[k].End() == bs[k + 1].lo;
      assert k > 1 ==> bs[k - 2].End() == bs[k - 1].lo;
    }
  }

  lemma ReleaseTurnIsPush(bs: Blocks, k: nat, name: string)
    requires k < |bs|
    ensures ReleaseTurn(bs, k, name) == Push(bs[..k], Mark(bs[k], name)) + bs[k + 1..]
  {
    var bs' := bs[k := Mark(bs[k], name)];
    MergedAtIsPush(bs', k);
    assert bs'[..k] == bs[..k] && bs'[k + 1..] == bs[k + 1..];
  }

  lemma ConcatParts<T>(s: seq<T>, a: seq<T>, b: seq<T>)
    requires s == a + b
    ensures s[..|a|] == a && s[|a|..] == b
  {
  }

  /** The release loop folds the rest of the list onto the part behind its cursor. */
  lemma {:induction false} ReleaseRestIsCoalesce(bs: Blocks, k: nat, name: string)
    requires k <= |bs|
    ensures ReleaseRest(bs, k, name) == Coalesce(bs[..k], MarkFree(bs[k..], name))
    decreases |bs| - k
  {
    if k < |bs| {
      var acc, rest := Push(bs[..k], Mark(bs[k], name)), bs[k + 1..];
      var r := ReleaseTurn(bs, k, name);
      ReleaseTurnIsPush(bs, k, name);
      ConcatParts(r, acc, rest);
      ReleaseRestIsCoalesce(r, |acc|, name);
      assert MarkFree(bs[k..], name)[1..] == MarkFree(rest, name);
    } else {
      assert bs[..k] == bs;
    }
  }

  lemma ReleaseTurnTiled(bs: Blocks, k: nat, name: string, memSize: nat)
    requires k < |bs| && Tiled(bs, 0, memSize)
    ensures Tiled(ReleaseTurn(bs, k, name), 0, memSize)
  {
    MergedAtTiled(bs[k := Mark(bs[k], name)], k, memSize);
  }

  lemma {:induction false} MeetsSame(bs: Blocks, k: nat, bs': Blocks, k': nat, name: string)
    requires k <= |bs| && k' <= |bs'| && bs[k..] == bs'[k'..]
    ensures MeetsOwner(bs, k, name) == MeetsOwner(bs', k', name)
    decreases |bs| - k
  {
    assert |bs| - k == |bs'| - k';
    if k < |bs| {
      assert bs[k..][0] == bs[k] && bs'[k'..][0] == bs'[k'];
      assert bs[k..][1..] == bs[k + 1..] && bs'[k'..][1..] == bs'[k' + 1..];
      MeetsSame(bs, k + 1, bs', k' + 1, name);
    }
  }

  lemma ReleaseTurnMeets(bs: Blocks, k: nat, name: string)
    requires k < |bs|
    ensures var r := ReleaseTurn(bs, k, name); var k' := |r| - |bs| + k + 1;
      0 <= k' <= |r| && MeetsOwner(r, k', name) == MeetsOwner(bs, k + 1, name)
  {
    var acc, rest := Push(bs[..k], Mark(bs[k], name)), bs[k + 1..];
    ReleaseTurnIsPush(bs, k, name);
    ConcatParts(ReleaseTurn(bs, k, name), acc, rest);
    MeetsSame(ReleaseTurn(bs, k, name), |acc|, bs, k + 1, name);
  }

  /** The release loop at block `k`, after it started from `bs0`: what remains to be done leads to
    * the same list, and `flag` is 0 once a block of that name was met. */
  ghost predicate Releasing(bs: Blocks, k: nat, name: string, flag: int, bs0: Blocks, memSize: nat) {
    && k <= |bs| && Tiled(bs, 0, memSize)
    && ReleaseRest(bs, k, name) == ReleaseRest(bs0, 0, name)
    && MeetsOwner(bs0, 0, name) == (flag == 0 || MeetsOwner(bs, k, name))
    && (flag == 0 || flag == 1)
  }

  lemma ReleasingStep(bs: Blocks, k: nat, name: string, flag: int, bs0: Blocks, memSize: nat)
    requires k < |bs| && Releasing(bs, k, name, flag, bs0, memSize)
    ensures k > 0 ==> bs[k - 1].End() == bs[k].lo
    ensures var r := ReleaseTurn(bs, k, name);
      |bs| <= |r| + k + 1 && Releasing(r, |r| - |bs| + k + 1, name, if bs[k].owner == Some(name) then 0 else flag, bs0, memSize)
  {
    ReleaseTurnTiled(bs, k, name, memSize);
    ReleaseTurnMeets(bs, k, name);
  }

  lemma {:induction false} MeetsIffHas(bs: Blocks, k: nat, name: string)
    requires k <= |bs|
    ensures MeetsOwner(bs, k, name) <==> exists i :: k <= i < |bs| && bs[i].owner == Some(name)
    decreases |bs| - k
  {
    if k < |bs| { MeetsIffHas(bs, k + 1, name); }
  }

  lemma ReleaseCorrect(bs: Blocks, name: string, memSize: nat)
    requires Inv(bs, memSize)
    ensures ReleaseRest(bs, 0, name) == Released(bs, name)
    ensures MeetsOwner(bs, 0, name) == HasOwner(bs, name)
    ensures Inv(Released(bs, name), memSize)
  {
    ReleaseRestIsCoalesce(bs, 0, name);
    assert bs[..0] == [] && bs[0..] == bs;
    MeetsIffHas(bs, 0, name);
    ReleasedKeepsInv(bs, name, memSize);
  }

  lemma PushKeepsInv(acc: Blocks, b: Block, mid: nat)
    requires Inv(acc, mid) && b.lo == mid
    ensures Inv(Push(acc, b), b.End())
  {
    var r := Push(acc, b);
    forall i, j | 0 <= i && j == i + 1 < |r|
      ensures r[i].End() == r[j].lo && !(r[i].Hole() && r[j].Hole())
    {
      assert j < |acc| ==> acc[i].End() == acc[j].lo && !(acc[i].Hole() && acc[j].Hole());
    }
  }

  lemma {:induction false} CoalesceKeepsInv(acc: Blocks, bs: Blocks, mid: nat, to: nat)
    requires Inv(acc, mid) && Tiled(bs, mid, to)
    ensures Inv(Coalesce(acc, bs), to)
    decreases |bs|
  {
    if bs != [] {
      PushKeepsInv(acc, bs[0], mid);
      CoalesceKeepsInv(Push(acc, bs[0]), bs[1..], bs[0].End(), to);
    }
  }

  lemma ReleasedKeepsInv(bs: Blocks, name: string, memSize: nat)
    requires Inv(bs, memSize)
    ensures Inv(Released(bs, name), memSize)
  {
    CoalesceKeepsInv([], MarkFree(bs, name), 0, memSize);
  }

  // ----- compaction -----

  /** The words that compact_memory computes when it swaps a hole `h` with the used block `u` behind it. */
  lemma SwapWords(h: Block, u: Block)
    requires h.End() == u.lo && u.End() < WORD
    ensures Last(u) == Last(Block(h.lo + u.size, h.size, None))
    ensures var last := Plus(h.lo, Minus(Last(u), u.lo));
            last == Last(u.(lo := h.lo)) && Plus(last, 1) == h.lo + u.size
  {
  }

  lemma {:induction false} NoHoleNoFree(bs: Blocks)
    requires !HasHole(bs)
    ensures FreeTotal(bs) == 0
  {
    if bs != [] {
      assert bs[|bs| - 1] in bs;
      NoHoleNoFree(bs[..|bs| - 1]);
    }
  }

  lemma {:induction false} PackedTiled(bs: Blocks)
    ensures Tiled(Packed(bs), 0, UsedTotal(bs))
    ensures forall b :: b in Packed(bs) ==> !b.Hole()
  {
    if bs != [] { PackedTiled(bs[..|bs| - 1]); }
  }

  lemma CompactedKeepsInv(bs: Blocks, memSize: nat)
    requires Tiled(bs, 0, memSize)
    ensures Inv(Compacted(bs), memSize)
  {
    PackedTiled(bs);
    TiledTotals(bs, 0, memSize);
    if !HasHole(bs) { NoHoleNoFree(bs); }
    var p := Packed(bs);
    forall i, j | 0 <= i && j == i + 1 < |Compacted(bs)|
      ensures !(Compacted(bs)[i].Hole() && Compacted(bs)[j].Hole())
    {
      assert Compacted(bs)[i] == p[i] && p[i] in p;
    }
  }

  lemma HasHoleSnoc(bs: Blocks, b: Block)
    ensures HasHole(bs + [b]) <==> HasHole(bs) || b.Hole()
  {
    assert b in bs + [b];
    assert forall x :: x in bs + [b] <==> x in bs || x == b;
    if HasHole(bs) {
      var h :| h in bs && h.Hole();
      assert h in bs + [b];
    }
  }

  /** Packed blocks `p` and a hole, with one more block `c` packed or absorbed. */
  function PackOne(p: Blocks, used: nat, free: nat, hole: bool, c: Block): Blocks {
    if c.Hole() then WithHole(p, used, free + c.size, true)
    else WithHole(p + [c.(lo := used)], used + c.size, free, hole)
  }

  /** One turn at block `c`, after packed blocks `p` and perhaps a hole of `free` bytes. */
  lemma TurnAfterPacked(done: Blocks, p: Blocks, used: nat, free: nat, hole: bool, c: Block, rest: Blocks)
    requires Tiled(p, 0, used) && forall b :: b in p ==> !b.Hole()
    requires c.lo == used + free && (hole || free == 0) && done == WithHole(p, used, free, hole)
    ensures CompactTurn(done + [c] + rest, |done|) == PackOne(p, used, free, hole, c) + rest
  {
    var k := |done|;
    var now := done + [c] + rest;
    assert now[k] == c && (k > 0 ==> now[k - 1] == done[k - 1]);
    if !hole {
      assert k > 0 ==> p[k - 1] in p;
    } else if !c.Hole() {
      assert SwappedAt(now, k) == p + [c.(lo := used)] + [Block(used + c.size, free, None)] + rest;
    }
  }

  lemma TotalsSnoc(bs: Blocks, c: Block)
    ensures UsedTotal(bs + [c]) == if c.Hole() then UsedTotal(bs) else UsedTotal(bs) + c.size
    ensures FreeTotal(bs + [c]) == if c.Hole() then FreeTotal(bs) + c.size else FreeTotal(bs)
    ensures Packed(bs + [c]) == if c.Hole() then Packed(bs) else Packed(bs) + [c.(lo := UsedTotal(bs))]
    ensures HasHole(bs + [c]) <==> HasHole(bs) || c.Hole()
  {
    var s := bs + [c];
    assert s[..|s| - 1] == bs && s[|s| - 1] == c;
    HasHoleSnoc(bs, c);
  }

  lemma CompactedSnoc(bs: Blocks, c: Block)
    ensures Compacted(bs + [c]) == PackOne(Packed(bs), UsedTotal(bs), FreeTotal(bs), HasHole(bs), c)
  {
    TotalsSnoc(bs, c);
  }

  lemma TurnOfCompacted(pre: Blocks, c: Block, rest: Blocks)
    requires c.lo == UsedTotal(pre) + FreeTotal(pre) && (HasHole(pre) || FreeTotal(pre) == 0)
    requires Tiled(Packed(pre), 0, UsedTotal(pre)) && forall b :: b in Packed(pre) ==> !b.Hole()
    ensures CompactTurn(Compacted(pre) + [c] + rest, |Compacted(pre)|) == Compacted(pre + [c]) + rest
  {
    TurnAfterPacked(Compacted(pre), Packed(pre), UsedTotal(pre), FreeTotal(pre), HasHole(pre), c, rest);
    CompactedSnoc(pre, c);
  }

  lemma SwappedAtTiled(bs: Blocks, k: nat, memSize: nat)
    requires 0 < k < |bs| && Tiled(bs, 0, memSize)
    ensures Tiled(SwappedAt(bs, k), 0, memSize)
  {
    assert bs[k - 1].End() == bs[k].lo;
    assert k > 1 ==> bs[k - 2].End() == bs[k - 1].lo;
    assert k + 1 < |bs| ==> bs[k].End() == bs[k + 1].lo;
  }

  /** What a turn leaves behind its cursor is untouched; the first block changes only if it absorbs another. */
  lemma CompactTurnRest(bs: Blocks, k: nat)
    requires k < |bs|
    ensures var r := CompactTurn(bs, k);
      var k' := |r| - |bs| + k + 1;
      && 0 <= k' <= |r|
      && (forall i :: k' <= i < |r| ==> r[i] == bs[i - k' + k + 1])
      && (k' == 1 && k == 0 ==> r[0] == bs[0])
      && (k' == 1 ==> k == 0 || Mergeable(bs, k))
  {
  }

  lemma CompactTurnReady(bs: Blocks, k: nat, memSize: nat)
    requires k < |bs| && CompactReady(bs, k, memSize)
    ensures Mergeable(bs, k) ==> k > 1
    ensures k > 0 ==> bs[k - 1].End() == bs[k].lo
    ensures bs[k].End() <= memSize
    ensures var r := CompactTurn(bs, k); var k' := |r| - |bs| + k + 1; 0 <= k' && CompactReady(r, k', memSize)
  {
    TiledBounds(bs, 0, memSize);
    CompactTurnRest(bs, k);
    if k > 0 && bs[k - 1].Hole() && !bs[k].Hole() {
      SwappedAtTiled(bs, k, memSize);
      MergedAtTiled(SwappedAt(bs, k), k, memSize);
    } else {
      MergedAtTiled(bs, k, memSize);
    }
  }

  /** The compaction loop at block `k`, after it started from `bs0`. */
  ghost predicate Compacting(bs: Blocks, k: nat, bs0: Blocks, memSize: nat) {
    k <= |bs| && CompactReady(bs, k, memSize) && CompactRest(bs, k) == CompactRest(bs0, 0)
  }

  lemma CompactingStep(bs: Blocks, k: nat, bs0: Blocks, memSize: nat)
    requires k < |bs| && Compacting(bs, k, bs0, memSize)
    ensures Mergeable(bs, k) ==> k > 1
    ensures k > 0 ==> bs[k - 1].End() == bs[k].lo
    ensures bs[k].End() <= memSize
    ensures var r := CompactTurn(bs, k); |bs| <= |r| + k + 1 && Compacting(r, |r| - |bs| + k + 1, bs0, memSize)
  {
    CompactTurnReady(bs, k, memSize);
    CompactTurnRest(bs, k);
  }

  lemma Regroup<T>(a: seq<T>, b: seq<T>)
    requires b != []
    ensures a + b == a + [b[0]] + b[1..]
  {
  }

  /** The compaction loop, started in the middle: the blocks before its cursor are compacted. */
  lemma {:induction false} CompactRestIsCompacted(pre: Blocks, todo: Blocks, mid: nat, memSize: nat)
    requires Tiled(pre, 0, mid) && Tiled(todo, mid, memSize)
    ensures CompactRest(Compacted(pre) + todo, |Compacted(pre)|) == Compacted(pre + todo)
    decreases |todo|
  {
    var done := Compacted(pre);
    if todo == [] {
      assert done + todo == done && pre + todo == pre;
    } else {
      var c, rest := todo[0], todo[1..];
      OneTurn(pre, c, rest, mid);
      Regroup(done, todo);
      Regroup(pre, todo);
      TiledConcat(pre, [c], 0, mid, c.End());
      CompactRestIsCompacted(pre + [c], rest, c.End(), memSize);
    }
  }

  lemma OneTurn(pre: Blocks, c: Block, rest: Blocks, mid: nat)
    requires Tiled(pre, 0, mid) && c.lo == mid
    ensures CompactRest(Compacted(pre) + [c] + rest, |Compacted(pre)|) ==
            CompactRest(Compacted(pre + [c]) + rest, |Compacted(pre + [c])|)
  {
    TiledTotals(pre, 0, mid);
    if !HasHole(pre) { NoHoleNoFree(pre); }
    PackedTiled(pre);
    TurnOfCompacted(pre, c, rest);
    Unfold(Compacted(pre) + [c] + rest, |Compacted(pre)|, Compacted(pre + [c]), rest);
  }

  lemma Unfold(bs: Blocks, k: nat, done: Blocks, rest: Blocks)
    requires k < |bs| && |bs| - k == |rest| + 1 && CompactTurn(bs, k) == done + rest
    ensures CompactRest(bs, k) == CompactRest(done + rest, |done|)
  {
  }

  lemma CompactCorrect(bs: Blocks, memSize: nat)
    requires Tiled(bs, 0, memSize)
    ensures CompactRest(bs, 0) == Compacted(bs) && Inv(Compacted(bs), memSize)
  {
    CompactRestIsCompacted([], bs, 0, memSize);
    assert Compacted([]) + bs == bs && [] + bs == bs;
    CompactedKeepsInv(bs, memSize);
  }
}
