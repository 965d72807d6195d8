/** What the contiguous allocator promises, stated on the list of blocks it keeps.
  *
  * A block is the stretch of addresses [lo, lo + size) together with its owner, if any.
  * Machine words are 64-bit and unsigned, so every size that can be asked for is covered,
  * including 0 and the largest word. */
module BlockList {
  import opened Options
  import opened Sequences

  const WORD := 0x1_0000_0000_0000_0000

  /** `size_t` */
  type Word = n: nat | n < WORD

  const SIZE_MAX: Word := WORD - 1

  function Plus(a: Word, b: Word): Word {
    if a + b < WORD then a + b else a + b - WORD
  }

  function Minus(a: Word, b: Word): Word {
    if b <= a then a - b else a - b + WORD
  }

  datatype Block = Block(lo: nat, size: nat, owner: Option<string>) {
    predicate Hole() { owner.None? }

    function End(): nat { lo + size }

    predicate Has(a: nat) { lo <= a < lo + size }
  }

  type Blocks = seq<Block>

  /** The last address of a block, as the C code stores it: an empty block at 0 ends at SIZE_MAX. */
  function Last(b: Block): int {
    if 0 < b.End() then b.End() - 1 else SIZE_MAX
  }

  /** The blocks follow one another without gap or overlap, from address `from` up to `to`. */
  ghost predicate Tiled(bs: Blocks, from: nat, to: nat) {
    && (bs == [] ==> from == to)
    && (bs != [] ==> bs[0].lo == from && bs[|bs| - 1].End() == to)
    && forall i, j :: 0 <= i && j == i + 1 < |bs| ==> bs[i].End() == bs[j].lo
  }

  ghost predicate NoAdjacentHoles(bs: Blocks) {
    forall i, j :: 0 <= i && j == i + 1 < |bs| ==> !(bs[i].Hole() && bs[j].Hole())
  }

  ghost predicate Inv(bs: Blocks, memSize: nat) {
    Tiled(bs, 0, memSize) && NoAdjacentHoles(bs)
  }

  /** The byte at address `a` belongs to `who`. */
  ghost predicate Owns(bs: Blocks, a: nat, who: string) {
    exists b :: b in bs && b.owner == Some(who) && b.Has(a)
  }

  function FreeTotal(bs: Blocks): nat {
    if bs == [] then 0
    else FreeTotal(bs[..|bs| - 1]) + (if bs[|bs| - 1].Hole() then bs[|bs| - 1].size else 0)
  }

  function UsedTotal(bs: Blocks): nat {
    if bs == [] then 0
    else UsedTotal(bs[..|bs| - 1]) + (if bs[|bs| - 1].Hole() then 0 else bs[|bs| - 1].size)
  }

  // ----- tilings -----

  /** Cuts a tiling before its k-th block. */
  lemma {:induction false} TiledSplit(bs: Blocks, k: nat, from: nat, to: nat) returns (mid: nat)
    requires k <= |bs| && Tiled(bs, from, to)
    ensures from <= mid <= to
    ensures Tiled(bs[..k], from, mid) && Tiled(bs[k..], mid, to)
    ensures k < |bs| ==> bs[k].lo == mid && mid + bs[k].size <= to
  {
    mid := if k < |bs| then bs[k].lo else to;
    TiledBounds(bs, from, to);
  }

  lemma {:induction false} TiledBounds(bs: Blocks, from: nat, to: nat)
    requires Tiled(bs, from, to)
    ensures from <= to
    ensures forall i :: 0 <= i < |bs| ==> from <= bs[i].lo && bs[i].End() <= to
  {
    if bs != [] {
      var n := |bs| - 1;
      TiledBounds(bs[..n], from, bs[n].lo);
    }
  }

  lemma TiledConcat(a: Blocks, b: Blocks, from: nat, mid: nat, to: nat)
    requires Tiled(a, from, mid) && Tiled(b, mid, to)
    ensures Tiled(a + b, from, to)
  {
  }

  lemma {:induction false} TiledTotals(bs: Blocks, from: nat, to: nat)
    requires Tiled(bs, from, to)
    ensures from + UsedTotal(bs) + FreeTotal(bs) == to
  {
    if bs != [] {
      var n := |bs| - 1;
      TiledTotals(bs[..n], from, bs[n].lo);
    }
  }

  /** In a tiling every address below the end lies in one block, and blocks apart do not overlap. */
  lemma {:induction false} TiledDisjoint(bs: Blocks, i: nat, j: nat, from: nat, to: nat)
    requires Tiled(bs, from, to) && i < j < |bs|
    ensures from <= bs[i].lo && bs[i].lo + bs[i].size <= bs[j].lo && bs[j].lo + bs[j].size <= to
  {
    var mid := TiledSplit(bs, j, from, to);
    var _ := TiledSplit(bs[..j], i, from, mid);
  }

  // ----- choosing a hole -----

  ghost predicate Fits(b: Block, size: nat) { b.Hole() && size <= b.size }

  /** Block `k` is the one the strategy selects. 'F' takes the first hole that is large enough,
    * 'B' the earliest of the smallest such holes, 'W' the earliest of the largest holes. The two
    * sentinels show: 'B' never takes a hole of SIZE_MAX bytes, 'W' never serves size 0. */
  ghost predicate Chosen(bs: Blocks, size: nat, strategy: char, k: nat) {
    && k < |bs| && Fits(bs[k], size)
    && match strategy
       case 'F' => forall j :: 0 <= j < k ==> !Fits(bs[j], size)
       case 'B' =>
         && bs[k].size < SIZE_MAX
         && (forall j :: 0 <= j < |bs| && Fits(bs[j], size) ==> bs[k].size <= bs[j].size)
         && (forall j :: 0 <= j < k && Fits(bs[j], size) ==> bs[k].size < bs[j].size)
       case 'W' =>
         && 0 < size
         && (forall j :: 0 <= j < |bs| && bs[j].Hole() ==> bs[j].size <= bs[k].size)
         && (forall j :: 0 <= j < k && bs[j].Hole() ==> bs[j].size < bs[k].size)
       case _ => false
  }

  /** Cuts the first `size` bytes off block `k`; what is left becomes a hole. */
  function Split(bs: Blocks, k: nat, size: nat): Blocks
    requires k < |bs| && size <= bs[k].size
  {
    Inserted(bs[k := bs[k].(size := size)], k + 1, Block(bs[k].lo + size, bs[k].size - size, None))
  }

  /** The request takes the front of block `k` and leaves the rest, if any, as a hole. */
  function Placed(bs: Blocks, k: nat, name: string, size: nat): Blocks
    requires k < |bs| && size <= bs[k].size
  {
    var named := bs[k := bs[k].(owner := Some(name))];
    if bs[k].size == size then named else Split(named, k, size)
  }

  ghost predicate Requested(bs: Blocks, name: string, size: nat, strategy: char, code: int, bs': Blocks) {
    if strategy !in {'F', 'B', 'W'} then code == -1 && bs' == bs
    else if exists k :: Chosen(bs, size, strategy, k) then
      code == 0 && exists k :: Chosen(bs, size, strategy, k) && bs' == Placed(bs, k, name, size)
    else code == -2 && bs' == bs
  }

  // ----- releasing -----

  ghost predicate HasOwner(bs: Blocks, name: string) {
    exists i :: 0 <= i < |bs| && bs[i].owner == Some(name)
  }

  function Mark(b: Block, name: string): Block {
    if b.owner == Some(name) then b.(owner := None) else b
  }

  function MarkFree(bs: Blocks, name: string): (r: Blocks)
    ensures |r| == |bs| && forall i :: 0 <= i < |bs| ==> r[i] == Mark(bs[i], name)
  {
    seq(|bs|, i requires 0 <= i < |bs| => Mark(bs[i], name))
  }

  predicate Mergeable(bs: Blocks, k: nat)
    requires k < |bs|
  {
    k > 0 && bs[k - 1].Hole() && bs[k].Hole()
  }

  /** Merges block `k` with the one before it if both are holes. */
  function MergedAt(bs: Blocks, k: nat): Blocks
    requires k < |bs|
  {
    if Mergeable(bs, k)
    then Without(bs[k := bs[k].(lo := bs[k - 1].lo, size := bs[k - 1].size + bs[k].size)], k - 1)
    else bs
  }

  /** Appends a block, merging it into a hole that it follows. */
  function Push(acc: Blocks, b: Block): Blocks {
    if acc != [] && acc[|acc| - 1].Hole() && b.Hole()
    then acc[..|acc| - 1] + [b.(lo := acc[|acc| - 1].lo, size := acc[|acc| - 1].size + b.size)]
    else acc + [b]
  }

  function Coalesce(acc: Blocks, bs: Blocks): Blocks
    decreases |bs|
  {
    if bs == [] then acc else Coalesce(Push(acc, bs[0]), bs[1..])
  }

  function Released(bs: Blocks, name: string): Blocks {
    Coalesce([], MarkFree(bs, name))
  }

  /** One turn of the release loop, its cursor at block `k`. */
  function ReleaseTurn(bs: Blocks, k: nat, name: string): Blocks
    requires k < |bs|
  {
    MergedAt(bs[k := Mark(bs[k], name)], k)
  }

  /** What the release loop computes from the list `bs` with its cursor at block `k`. */
  function ReleaseRest(bs: Blocks, k: nat, name: string): Blocks
    decreases |bs| - k
  {
    if |bs| <= k then bs
    else
      var r := ReleaseTurn(bs, k, name);
      ReleaseRest(r, |r| - |bs| + k + 1, name)
  }

  /** Whether the loop, from block `k` on, meets a block of that name. */
  predicate MeetsOwner(bs: Blocks, k: nat, name: string)
    decreases |bs| - k
  {
    k < |bs| && (bs[k].owner == Some(name) || MeetsOwner(bs, k + 1, name))
  }

  // ----- compacting -----

  /** The used blocks of `bs`, moved down so that they start at address 0 and leave no gap. */
  function Packed(bs: Blocks): Blocks {
    if bs == [] then []
    else
      var pre, b := bs[..|bs| - 1], bs[|bs| - 1];
      Packed(pre) + if b.Hole() then [] else [b.(lo := UsedTotal(pre))]
  }

  ghost predicate HasHole(bs: Blocks) { exists b :: b in bs && b.Hole() }

  /** Packed blocks up to address `used`, then, if `hole`, one hole of `free` bytes. */
  function WithHole(p: Blocks, used: nat, free: nat, hole: bool): Blocks {
    p + if hole then [Block(used, free, None)] else []
  }

  /** Compaction: the packed used blocks, then all free space as one hole. */
  ghost function Compacted(bs: Blocks): Blocks {
    WithHole(Packed(bs), UsedTotal(bs), FreeTotal(bs), HasHole(bs))
  }

  /** Puts the used block `k` in front of a hole that precedes it; the bytes they cover stay the same. */
  function SwappedAt(bs: Blocks, k: nat): Blocks
    requires 0 < k < |bs|
  {
    bs[k - 1 := bs[k].(lo := bs[k - 1].lo)]
      [k := bs[k - 1].(lo := bs[k - 1].lo + bs[k].size)]
  }

  /** One turn of the compaction loop, its cursor at block `k`. */
  function CompactTurn(bs: Blocks, k: nat): Blocks
    requires k < |bs|
  {
    MergedAt(if k > 0 && bs[k - 1].Hole() && !bs[k].Hole() then SwappedAt(bs, k) else bs, k)
  }

  /** What the compaction loop computes from the list `bs` with its cursor at block `k`. */
  function CompactRest(bs: Blocks, k: nat): Blocks
    decreases |bs| - k
  {
    if |bs| <= k then bs
    else
      var r := CompactTurn(bs, k);
      CompactRest(r, |r| - |bs| + k + 1)
  }

  /** The loop never merges into the first block: the cursor sees two holes only further on. */
  ghost predicate CompactReady(bs: Blocks, k: nat, memSize: nat) {
    && Tiled(bs, 0, memSize)
    && (forall i, j :: k <= i && j == i + 1 < |bs| ==> !(bs[i].Hole() && bs[j].Hole()))
    && (k == 1 < |bs| ==> !(bs[0].Hole() && bs[1].Hole()))
  }
}
