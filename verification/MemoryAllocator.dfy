/** The allocator itself: a heap-allocated doubly linked list of blocks, updated in place.
  * The ghost sequence `nodes` holds the live blocks in list order; a block that has been freed is
  * no longer in it, so `mem == nodes[0]` says that the head pointer never dangles. The ghost
  * sequence `blocks` is the abstract value of the list. */
module MemoryAllocator {
  import opened Options
  import opened BlockList
  import opened Sequences
  import opened BlockTheorems

  class MemBlock {
    var lo: Word
    var hi: Word
    var name: Option<string>
    var prev: MemBlock?
    var next: MemBlock?

    /** make_block: an empty name makes an unused block; both neighbours are linked to it. */
    constructor (lo: Word, hi: Word, name: string, prev: MemBlock?, next: MemBlock?)
      modifies (if prev == null then {} else {prev})`next, (if next == null then {} else {next})`prev
      ensures this.lo == lo && this.hi == hi && this.prev == prev && this.next == next
      ensures this.name == if name == "" then None else Some(name)
      ensures prev != null ==> prev.next == this
      ensures next != null ==> next.prev == this
    {
      this.lo, this.hi := lo, hi;
      this.name := if name == "" then None else Some(name);
      this.prev, this.next := prev, next;
      new;
      if prev != null {
        prev.next := this;
      }
      if next != null {
        next.prev := this;
      }
    }

    /** hi - lo + 1 in unsigned arithmetic */
    function Size(): Word
      reads this`lo, this`hi
    {
      Plus(Minus(hi, lo), 1)
    }

    lemma SizeOf(b: Block)
      requires lo == b.lo && hi == Last(b) && b.End() < WORD
      ensures Size() == b.size
    {
    }
  }

  ghost predicate Linked(ns: seq<MemBlock>)
    reads ns`prev, ns`next
  {
    forall i {:trigger At(i)} :: 0 <= i < |ns| && At(i) ==>
      && ns[i].prev == (if i == 0 then null else ns[i - 1])
      && ns[i].next == (if i == |ns| - 1 then null else ns[i + 1])
  }

  ghost predicate Represents(ns: seq<MemBlock>, bs: Blocks)
    reads ns`lo, ns`hi, ns`name
  {
    && |ns| == |bs|
    && forall i {:trigger At(i)} :: 0 <= i < |ns| && At(i) ==>
         ns[i].lo == bs[i].lo && ns[i].hi == Last(bs[i]) && ns[i].name == bs[i].owner
  }

  lemma RepresentsInserted(ns: seq<MemBlock>, bs: Blocks, k: nat, n: MemBlock, b: Block)
    requires Represents(ns, bs) && k <= |ns|
    requires n.lo == b.lo && n.hi == Last(b) && n.name == b.owner
    ensures Represents(Inserted(ns, k, n), Inserted(bs, k, b))
  {
    var ns', bs' := Inserted(ns, k, n), Inserted(bs, k, b);
    forall i | 0 <= i < |ns'| && At(i)
      ensures ns'[i].lo == bs'[i].lo && ns'[i].hi == Last(bs'[i]) && ns'[i].name == bs'[i].owner
    {
      assert At(i - 1);
    }
  }

  lemma RepresentsRemoved(ns: seq<MemBlock>, bs: Blocks, k: nat)
    requires Represents(ns, bs) && k < |ns|
    ensures Represents(Without(ns, k), Without(bs, k))
  {
    var ns', bs' := Without(ns, k), Without(bs, k);
    forall i | 0 <= i < |ns'| && At(i)
      ensures ns'[i].lo == bs'[i].lo && ns'[i].hi == Last(bs'[i]) && ns'[i].name == bs'[i].owner
    {
      assert At(i + 1);
    }
  }

  /** Links that mirror each other and end in null already rule out a cycle. */
  lemma {:induction false} Acyclic(ns: seq<MemBlock>, i: nat, j: nat)
    requires Linked(ns) && i < j < |ns|
    ensures ns[i] != ns[j]
  {
    assert At(i) && At(j);
    if i > 0 { Acyclic(ns, i - 1, j - 1); }
  }

  lemma OnlyAt(ns: seq<MemBlock>, k: nat)
    requires Linked(ns) && k < |ns|
    ensures forall i {:trigger At(i)} :: 0 <= i < |ns| && i != k ==> ns[i] != ns[k]
  {
    forall i | 0 <= i < |ns| && i != k
      ensures ns[i] != ns[k]
    {
      if i < k { Acyclic(ns, i, k); } else { Acyclic(ns, k, i); }
    }
  }

  class Allocator {
    var memSize: Word
    var mem: MemBlock
    ghost var nodes: seq<MemBlock>
    ghost var blocks: Blocks
    ghost var Repr: set<MemBlock>

    /** The nodes are linked as the blocks say. */
    ghost predicate Chain()
      reads this`nodes, this`blocks, this`Repr, Repr
    {
      && (forall i :: 0 <= i < |nodes| ==> nodes[i] in Repr)
      && nodes != [] && Linked(nodes) && Represents(nodes, blocks)
    }

    ghost predicate Shape()
      reads this, Repr
    {
      Chain() && mem == nodes[0]
    }

    ghost predicate Valid()
      reads this, Repr
    {
      Shape() && Inv(blocks, memSize)
    }

    /** init: all of memory is one unused block. */
    constructor (size: Word)
      ensures Valid() && memSize == size && fresh(Repr)
      ensures blocks == [Block(0, size, None)]
    {
      memSize := size;
      var b := new MemBlock(0, Minus(size, 1), "", null, null);
      mem := b;
      nodes := [b];
      blocks := [Block(0, size, None)];
      Repr := {b};
      new;
      assert Represents(nodes, blocks);
      assert Inv(blocks, memSize);
    }

    /** Links a new unused block behind `hole`. */
    method InsertAfter(hole: MemBlock, ghost k: nat, lo: Word, hi: Word) returns (b: MemBlock)
      requires Linked(nodes) && k < |nodes| && hole == nodes[k]
      modifies this`nodes, hole`next, (if hole.next == null then {} else {hole.next})`prev
      ensures Linked(nodes)
      ensures fresh(b) && nodes == Inserted(old(nodes), k + 1, b)
      ensures b.lo == lo && b.hi == hi && b.name == None
    {
      ghost var ns := nodes;
      assert At(k) && At(k + 1);
      OnlyAt(ns, k);
      if k + 1 < |ns| { OnlyAt(ns, k + 1); }
      b := new MemBlock(lo, hi, "", hole, hole.next);
      hole.next := b;
      nodes := Inserted(ns, k + 1, b);
      forall i | 0 <= i < |nodes| && At(i)
        ensures nodes[i].prev == (if i == 0 then null else nodes[i - 1])
        ensures nodes[i].next == (if i == |nodes| - 1 then null else nodes[i + 1])
      {
        assert At(i - 1);
      }
    }

    /** The two statements that cut `size` bytes off the front of a block. */
    method CutNode(hole: MemBlock, ghost k: nat, size: Word) returns (rest: MemBlock)
      requires Linked(nodes) && Represents(nodes, blocks) && k < |nodes| && hole == nodes[k]
      requires size < blocks[k].size && blocks[k].End() < WORD
      modifies this`nodes, hole`next, hole`hi, (if hole.next == null then {} else {hole.next})`prev
      ensures Linked(nodes) && fresh(rest) && nodes == Inserted(old(nodes), k + 1, rest)
      ensures Represents(nodes, Split(blocks, k, size))
    {
      ghost var bs, ns, b := blocks, nodes, blocks[k];
      OnlyAt(nodes, k);
      SplitWords(b, size);
      assert At(k);
      rest := InsertAfter(hole, k, Plus(hole.lo, size), hole.hi);
      hole.hi := Minus(Plus(hole.lo, size), 1);
      assert Represents(ns, bs[k := b.(size := size)]);
      RepresentsInserted(ns, bs[k := b.(size := size)], k + 1, rest, Block(b.lo + size, b.size - size, None));
    }

    /** Cuts `size` bytes off the front of a block; the rest becomes an unused block behind it. */
    method SplitOff(hole: MemBlock, ghost k: nat, size: Word)
      requires Shape() && k < |nodes| && hole == nodes[k]
      requires size < blocks[k].size && blocks[k].End() < WORD
      modifies this`nodes, this`blocks, this`Repr, Repr
      ensures Shape() && fresh(Repr - old(Repr))
      ensures blocks == Split(old(blocks), k, size)
    {
      assert At(k);
      assert k + 1 < |nodes| ==> nodes[k + 1] in Repr;
      var rest := CutNode(hole, k, size);
      blocks := Split(blocks, k, size);
      Repr := Repr + {rest};
    }

    /** The second half of request_memory: the hole takes the name and, unless the sizes agree, the
      * remainder becomes a new unused block behind it. */
    method Take(hole: MemBlock, ghost k: nat, name: string, size: Word)
      requires Shape()
      requires k < |nodes| && hole == nodes[k] && Fits(blocks[k], size) && blocks[k].End() < WORD
      modifies this`nodes, this`blocks, this`Repr, Repr
      ensures Shape() && fresh(Repr - old(Repr))
      ensures blocks == Placed(old(blocks), k, name, size)
    {
      OnlyAt(nodes, k);
      hole.name := Some(name);
      blocks := blocks[k := blocks[k].(owner := Some(name))];
      assert At(k);
      hole.SizeOf(blocks[k]);
      if hole.Size() == size {
        return;
      }
      SplitOff(hole, k, size);
    }

    /** The switch of request_memory. */
    method Select(size: Word, strategy: char) returns (hole: MemBlock?, ghost k: nat)
      requires Valid() && strategy in {'F', 'B', 'W'}
      ensures hole == null ==> forall j :: !Chosen(blocks, size, strategy, j)
      ensures hole != null ==> k < |nodes| && hole == nodes[k] && Chosen(blocks, size, strategy, k)
    {
      TiledBounds(blocks, 0, memSize);
      match strategy {
        case 'F' => hole, k := FirstFit(size);
        case 'B' => hole, k := BestFit(size);
        case _ => hole, k := WorstFit(size);
      }
    }

    method FirstFit(size: Word) returns (hole: MemBlock?, ghost k: nat)
      requires Shape() && forall i :: 0 <= i < |blocks| ==> blocks[i].End() < WORD
      ensures hole == null ==> forall j :: 0 <= j < |nodes| ==> !Fits(blocks[j], size)
      ensures hole != null ==> k < |nodes| && hole == nodes[k] && Chosen(blocks, size, 'F', k)
    {
      hole, k := mem, 0;
      while hole != null
        invariant k <= |nodes| && hole == if k < |nodes| then nodes[k] else null
        invariant forall j :: 0 <= j < k ==> !Fits(blocks[j], size)
        decreases |nodes| - k
      {
        assert At(k);
        hole.SizeOf(blocks[k]);
        if hole.name == None && hole.Size() >= size {
          break;
        }
        hole, k := hole.next, k + 1;
      }
    }

    method BestFit(size: Word) returns (hole: MemBlock?, ghost k: nat)
      requires Shape() && forall i :: 0 <= i < |blocks| ==> blocks[i].End() < WORD
      ensures hole == null ==> forall j :: 0 <= j < |nodes| ==> !(Fits(blocks[j], size) && blocks[j].size < SIZE_MAX)
      ensures hole != null ==> k < |nodes| && hole == nodes[k] && Chosen(blocks, size, 'B', k)
    {
      var cursor: MemBlock?, minSize := mem, SIZE_MAX;
      hole, k := null, 0;
      ghost var i := 0;
      while cursor != null
        invariant i <= |nodes| && cursor == if i < |nodes| then nodes[i] else null
        invariant hole == null ==> minSize == SIZE_MAX
        invariant hole != null ==> k < i && hole == nodes[k] && Fits(blocks[k], size)
        invariant hole != null ==> minSize == blocks[k].size < SIZE_MAX
        invariant forall j :: 0 <= j < i && Fits(blocks[j], size) ==> minSize <= blocks[j].size
        invariant hole != null ==> forall j :: 0 <= j < k && Fits(blocks[j], size) ==> minSize < blocks[j].size
        decreases |nodes| - i
      {
        assert At(i);
        cursor.SizeOf(blocks[i]);
        var holeSize := cursor.Size();
        if cursor.name == None && size <= holeSize && holeSize < minSize {
          minSize, hole, k := holeSize, cursor, i;
        }
        cursor, i := cursor.next, i + 1;
      }
    }

    method WorstFit(size: Word) returns (hole: MemBlock?, ghost k: nat)
      requires Shape() && forall i :: 0 <= i < |blocks| ==> blocks[i].End() < WORD
      ensures hole == null ==> size == 0 || forall j :: 0 <= j < |nodes| ==> !Fits(blocks[j], size)
      ensures hole != null ==> k < |nodes| && hole == nodes[k] && Chosen(blocks, size, 'W', k)
    {
      var cursor: MemBlock?, maxSize := mem, Minus(size, 1);
      hole, k := null, 0;
      ghost var i := 0;
      while cursor != null
        invariant i <= |nodes| && cursor == if i < |nodes| then nodes[i] else null
        invariant hole == null ==> maxSize == Minus(size, 1)
        invariant hole != null ==> 0 < size && k < i && hole == nodes[k] && Fits(blocks[k], size)
        invariant hole != null ==> maxSize == blocks[k].size
        invariant forall j :: 0 <= j < i && blocks[j].Hole() ==> blocks[j].size <= maxSize
        invariant hole != null ==> forall j :: 0 <= j < k && blocks[j].Hole() ==> blocks[j].size < maxSize
        decreases |nodes| - i
      {
        assert At(i);
        cursor.SizeOf(blocks[i]);
        var holeSize := cursor.Size();
        if cursor.name == None && holeSize > maxSize {
          maxSize, hole, k := holeSize, cursor, i;
        }
        cursor, i := cursor.next, i + 1;
      }
    }

    /** The outcome of a request for which the switch has found a hole. */
    method Serve(hole: MemBlock, ghost k: nat, name: string, size: Word, ghost strategy: char)
      requires Valid() && k < |nodes| && hole == nodes[k] && Chosen(blocks, size, strategy, k)
      modifies this`nodes, this`blocks, this`Repr, Repr
      ensures Valid() && fresh(Repr - old(Repr))
      ensures Requested(old(blocks), name, size, strategy, 0, blocks)
    {
      PlacedIsRequested(blocks, k, name, size, strategy, memSize);
      Take(hole, k, name, size);
    }

    /** request_memory: 0 on success, -1 for an unknown strategy, -2 when no hole is found. */
    method Request(name: string, size: Word, strategy: char) returns (code: int)
      requires Valid()
      modifies this`nodes, this`blocks, this`Repr, Repr
      ensures Valid() && fresh(Repr - old(Repr))
      ensures Requested(old(blocks), name, size, strategy, code, blocks)
    {
      if strategy !in {'F', 'B', 'W'} {
        return -1;
      }
      var hole, k := Select(size, strategy);
      assert At(k);
      if hole == null || hole.name != None {
        NoneChosen(blocks, name, size, strategy);
        return -2;
      }
      Serve(hole, k, name, size, strategy);
      return 0;
    }

    /** Merges the block before `cursor` into `cursor` and frees it. */
    method AbsorbPrev(cursor: MemBlock, ghost k: nat)
      requires Linked(nodes) && 0 < k < |nodes| && cursor == nodes[k]
      modifies this`nodes, cursor`prev, cursor`lo, (if k > 1 then {nodes[k - 2]} else {})`next
      ensures Linked(nodes) && nodes == Without(old(nodes), k - 1)
      ensures cursor.lo == old(nodes[k - 1].lo)
    {
      ghost var ns := nodes;
      assert At(k) && At(k - 1) && At(k - 2);
      OnlyAt(ns, k);
      if k > 1 { OnlyAt(ns, k - 2); }
      var temp := cursor.prev;
      cursor.prev := temp.prev;
      if temp.prev != null {
        temp.prev.next := cursor;
      }
      cursor.lo := temp.lo;
      nodes := Without(ns, k - 1);
      forall i | 0 <= i < |nodes| && At(i)
        ensures nodes[i].prev == (if i == 0 then null else nodes[i - 1])
        ensures nodes[i].next == (if i == |nodes| - 1 then null else nodes[i + 1])
      {
        assert At(i + 1);
      }
    }

    /** The same on the abstract list, when both blocks are holes. */
    method AbsorbHole(cursor: MemBlock, ghost k: nat)
      requires Chain() && k < |nodes| && cursor == nodes[k]
      requires Mergeable(blocks, k) && blocks[k - 1].End() == blocks[k].lo
      modifies this`nodes, this`blocks, cursor`prev, cursor`lo, (if k > 1 then {nodes[k - 2]} else {})`next
      ensures Chain()
      ensures blocks == MergedAt(old(blocks), k) && nodes == Without(old(nodes), k - 1)
      ensures cursor == nodes[k - 1] && |nodes| == |old(nodes)| - 1
    {
      ghost var bs, ns := blocks, nodes;
      ghost var b := bs[k].(lo := bs[k - 1].lo, size := bs[k - 1].size + bs[k].size);
      assert Last(b) == Last(bs[k]);
      assert At(k) && At(k - 1);
      assert MergedAt(bs, k) == Without(bs[k := b], k - 1);
      OnlyAt(ns, k);
      AbsorbPrev(cursor, k);
      assert Represents(ns, bs[k := b]);
      RepresentsRemoved(ns, bs[k := b], k - 1);
      blocks := Without(bs[k := b], k - 1);
    }

    /** Merges the hole `cursor` with a hole before it, and keeps the head of the list right. */
    method MergeBack(cursor: MemBlock, ghost k: nat)
      requires Shape() && k < |nodes| && cursor == nodes[k]
      requires k > 0 ==> blocks[k - 1].End() == blocks[k].lo
      modifies this`nodes, this`blocks, this`mem, Repr`prev, Repr`next, Repr`lo
      ensures Shape() && blocks == MergedAt(old(blocks), k)
      ensures var k' := |nodes| - |old(nodes)| + k; 0 <= k' < |nodes| && cursor == nodes[k']
    {
      assert At(k) && At(k - 1);
      ghost var k' := k;
      if cursor.name == None && cursor.prev != null && cursor.prev.name == None {
        assert k > 1 ==> nodes[k - 2] in Repr;
        AbsorbHole(cursor, k);
        k' := k - 1;
      }
      assert At(k');
      if cursor.prev == null {
        mem := cursor;
      }
    }

    /** One turn of the loop in release_memory. */
    method ReleaseOne(cursor: MemBlock, ghost k: nat, name: string) returns (hit: bool)
      requires Shape() && k < |nodes| && cursor == nodes[k]
      requires k > 0 ==> blocks[k - 1].End() == blocks[k].lo
      modifies this`nodes, this`blocks, this`mem, Repr
      ensures Shape() && hit == (old(blocks)[k].owner == Some(name))
      ensures blocks == ReleaseTurn(old(blocks), k, name)
      ensures var k' := |nodes| - |old(nodes)| + k; 0 <= k' < |nodes| && cursor == nodes[k']
    {
      OnlyAt(nodes, k);
      assert At(k);
      hit := false;
      if cursor.name == Some(name) {
        cursor.name := None;
        hit := true;
      }
      blocks := blocks[k := Mark(blocks[k], name)];
      MergeBack(cursor, k);
    }

    /** release_memory: frees every block of that name; the result is 1 if there was none. */
    method Release(name: string) returns (flag: int)
      requires Valid()
      modifies this`nodes, this`blocks, this`mem, Repr
      ensures Valid()
      ensures blocks == Released(old(blocks), name)
      ensures flag == if HasOwner(old(blocks), name) then 0 else 1
    {
      var cursor: MemBlock?;
      cursor, flag := mem, 1;
      ghost var k := 0;
      while cursor != null
        invariant 0 <= k <= |nodes| && Shape() && Releasing(blocks, k, name, flag, old(blocks), memSize)
        invariant cursor == if k < |nodes| then nodes[k] else null
        decreases |nodes| - k
      {
        ReleasingStep(blocks, k, name, flag, old(blocks), memSize);
        ghost var left := |nodes| - k;
        var hit := ReleaseOne(cursor, k, name);
        if hit {
          flag := 0;
        }
        k := |nodes| - left;
        assert At(k);
        cursor, k := cursor.next, k + 1;
      }
      ReleaseCorrect(old(blocks), name, memSize);
    }

    /** Moves the used block under the cursor in front of the hole before it. */
    method SwapBack(cursor: MemBlock, ghost k: nat)
      requires Shape() && 0 < k < |nodes| && cursor == nodes[k]
      requires blocks[k - 1].Hole() && !blocks[k].Hole()
      requires blocks[k - 1].End() == blocks[k].lo && blocks[k].End() < WORD
      modifies this`blocks, Repr`lo, Repr`hi, Repr`name
      ensures Shape() && blocks == SwappedAt(old(blocks), k)
    {
      ghost var bs := blocks;
      assert At(k) && At(k - 1);
      OnlyAt(nodes, k);
      OnlyAt(nodes, k - 1);
      SwapWords(bs[k - 1], bs[k]);
      var prev := cursor.prev;
      prev.hi := Plus(prev.lo, Minus(cursor.hi, cursor.lo));
      cursor.lo := Plus(prev.hi, 1);
      prev.name := cursor.name;
      cursor.name := None;
      blocks := SwappedAt(bs, k);
    }

    /** One turn of the loop in compact_memory. The head of the list is not updated here. */
    method CompactOne(cursor: MemBlock, ghost k: nat)
      requires Shape() && k < |nodes| && cursor == nodes[k]
      requires k > 0 ==> blocks[k - 1].End() == blocks[k].lo && blocks[k].End() < WORD
      requires Mergeable(blocks, k) ==> k > 1
      modifies this`nodes, this`blocks, Repr
      ensures Shape() && blocks == CompactTurn(old(blocks), k)
      ensures var k' := |nodes| - |old(nodes)| + k; 0 <= k' < |nodes| && cursor == nodes[k']
    {
      assert At(k) && At(k - 1);
      if cursor.name != None && cursor.prev != null && cursor.prev.name == None {
        SwapBack(cursor, k);
      }
      assert At(k) && At(k - 1);
      if cursor.name == None && cursor.prev != null && cursor.prev.name == None {
        assert k > 1 ==> nodes[k - 2] in Repr;
        AbsorbHole(cursor, k);
      }
    }

    /** compact_memory. The block that `mem` points to is never freed. */
    method Compact()
      requires Valid()
      modifies this`nodes, this`blocks, Repr
      ensures Valid() && blocks == Compacted(old(blocks))
    {
      var cursor: MemBlock? := mem;
      ghost var k := 0;
      while cursor != null
        invariant 0 <= k <= |nodes| && Shape() && Compacting(blocks, k, old(blocks), memSize)
        invariant cursor == if k < |nodes| then nodes[k] else null
        decreases |nodes| - k
      {
        CompactingStep(blocks, k, old(blocks), memSize);
        ghost var left := |nodes| - k;
        CompactOne(cursor, k);
        k := |nodes| - left;
        assert At(k);
        cursor, k := cursor.next, k + 1;
      }
      CompactCorrect(old(blocks), memSize);
    }
  }
}
