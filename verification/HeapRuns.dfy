/** Whole histories of the allocator, as sequences of calls made after `Memory_init`. */
module HeapRuns {
  import opened Bytes
  import opened Blocks

  datatype HeapOp = Alloc(n: Word) | Free(p: nat)

  ghost function Step(bs: seq<Block>, lo: nat, hi: nat, op: HeapOp): seq<Block> {
    match op
    case Alloc(n) => AllocBlocks(bs, n)
    case Free(p) => FreeBlocks(bs, lo, hi, p)
  }

  ghost function Run(bs: seq<Block>, lo: nat, hi: nat, ops: seq<HeapOp>): seq<Block> {
    if ops == [] then bs else Step(Run(bs, lo, hi, ops[..|ops| - 1]), lo, hi, ops[|ops| - 1])
  }

  ghost predicate Bounds(lo: nat, hi: nat) {
    lo % 4 == 0 && hi % 4 == 0 && lo + HEADER <= hi
  }

  /** The heap `Memory_init` makes, after the calls `ops`. */
  ghost function After(lo: nat, hi: nat, ops: seq<HeapOp>): seq<Block>
    requires lo + HEADER <= hi
  {
    Run(InitBlocks(lo, hi), lo, hi, ops)
  }

  /** Allocations of any size; frees of live pointers, of free memory, or of pointers outside the heap. */
  ghost predicate Legal(lo: nat, hi: nat, ops: seq<HeapOp>)
    requires lo + HEADER <= hi
  {
    ops == [] || (
      var ops', op := ops[..|ops| - 1], ops[|ops| - 1];
      Legal(lo, hi, ops') && (op.Free? ==> Freeable(After(lo, hi, ops'), lo, hi, op.p)))
  }

  lemma StepKeepsHeapOk(bs: seq<Block>, lo: nat, hi: nat, op: HeapOp)
    requires HeapOk(bs, lo, hi) && (op.Free? ==> Freeable(bs, lo, hi, op.p))
    ensures HeapOk(Step(bs, lo, hi, op), lo, hi)
    ensures LastNonempty(bs) ==> LastNonempty(Step(bs, lo, hi, op))
  {
    match op
    case Alloc(n) =>
      TakeFirstWellFormed(bs, lo, hi, Rounded(n));
      if LastNonempty(bs) { TakeFirstKeepsLast(bs, Rounded(n)); }
    case Free(p) =>
      FreeRemovesOneBlock(bs, lo, hi, p);
      if LastNonempty(bs) { FreeKeepsLast(bs, lo, hi, p); }
  }

  /**
   Every reachable heap tiles the whole region and has no two adjacent free blocks; in a region larger than
   one header its last block is never empty.
   */
  lemma {:induction false} ReachableIsCanonical(lo: nat, hi: nat, ops: seq<HeapOp>)
    requires Bounds(lo, hi) && Legal(lo, hi, ops)
    ensures HeapOk(After(lo, hi, ops), lo, hi)
    ensures lo + HEADER < hi ==> LastNonempty(After(lo, hi, ops))
  {
    if ops == [] {
      InitBlocksOk(lo, hi);
    } else {
      ReachableIsCanonical(lo, hi, ops[..|ops| - 1]);
      StepKeepsHeapOk(After(lo, hi, ops[..|ops| - 1]), lo, hi, ops[|ops| - 1]);
    }
  }

  /** Two histories that leave the same allocations live leave the same heap. */
  lemma HistoryIndependence(lo: nat, hi: nat, ops: seq<HeapOp>, ops': seq<HeapOp>)
    requires Bounds(lo, hi) && Legal(lo, hi, ops) && Legal(lo, hi, ops')
    requires Live(After(lo, hi, ops)) == Live(After(lo, hi, ops'))
    ensures After(lo, hi, ops) == After(lo, hi, ops')
  {
    ReachableIsCanonical(lo, hi, ops);
    ReachableIsCanonical(lo, hi, ops');
    LiveSetDeterminesBlocks(After(lo, hi, ops), After(lo, hi, ops'), lo, hi);
  }

  /** A region of exactly one header is one empty block for ever. */
  lemma HeaderOnlyHeap(lo: nat, bs: seq<Block>)
    requires Tiles(bs, lo, lo + HEADER)
    ensures bs == [Block(lo, 0, bs[0].used)]
    ensures LivePtrs(bs) == (if bs[0].used then {lo + HEADER} else {})
  {
    if |bs| > 1 {
      BytesConserved(bs, lo, lo + HEADER);
    }
    assert bs == [bs[0]];
  }

  /**
   Every live pointer can be freed, whatever sizes were asked for, unless the region is one single header
   and that one is taken.
   */
  lemma LivePtrsBelowEnd(lo: nat, hi: nat, ops: seq<HeapOp>)
    requires Bounds(lo, hi) && Legal(lo, hi, ops)
    ensures (forall p | p in LivePtrs(After(lo, hi, ops)) :: p < hi)
      <==> lo + HEADER < hi || LivePtrs(After(lo, hi, ops)) == {}
  {
    var bs := After(lo, hi, ops);
    ReachableIsCanonical(lo, hi, ops);
    if lo + HEADER < hi {
      LastNonemptyPtrs(bs, lo, hi);
    } else {
      HeaderOnlyHeap(lo, bs);
    }
  }

  /** Under the same condition, freeing what is live, in any order and any number of times, undoes any history. */
  lemma RunThenFreeAll(lo: nat, hi: nat, ops: seq<HeapOp>, ps: seq<nat>)
    requires Bounds(lo, hi) && Legal(lo, hi, ops)
    requires forall p :: p in ps <==> p in LivePtrs(After(lo, hi, ops))
    ensures FreeAll(After(lo, hi, ops), lo, hi, ps) == InitBlocks(lo, hi)
      <==> lo + HEADER < hi || LivePtrs(After(lo, hi, ops)) == {}
  {
    ReachableIsCanonical(lo, hi, ops);
    LivePtrsBelowEnd(lo, hi, ops);
    FreeAllRestoresInit(After(lo, hi, ops), lo, hi, ps);
  }

  /**
   An allocation of any size that is freed at once leaves no trace in any reachable heap, unless the region
   is one single header, not yet taken, and the size wraps.
   */
  lemma AllocThenFreeLeavesNoTrace(lo: nat, hi: nat, ops: seq<HeapOp>, n: Word)
    requires Bounds(lo, hi) && Legal(lo, hi, ops)
    ensures var bs := After(lo, hi, ops);
      FreeBlocks(AllocBlocks(bs, n), lo, hi, AllocPtr(bs, n)) == bs
      <==> lo + HEADER < hi || n <= MAX_REQUEST || LivePtrs(bs) != {}
  {
    ReachableIsCanonical(lo, hi, ops);
    AllocThenFreeIsIdentity(After(lo, hi, ops), lo, hi, n);
    AllocBelowEnd(After(lo, hi, ops), lo, hi, n);
  }

  lemma AllocBelowEnd(bs: seq<Block>, lo: nat, hi: nat, n: Word)
    requires HeapOk(bs, lo, hi) && (lo + HEADER < hi ==> LastNonempty(bs))
    ensures AllocPtr(bs, n) < hi <==> lo + HEADER < hi || n <= MAX_REQUEST || LivePtrs(bs) != {}
  {
    TilesBounds(bs, lo, hi);
    if lo + HEADER >= hi {
      assert lo + HEADER == hi by { BytesConserved(bs, lo, hi); }
      HeaderOnlyHeap(lo, bs);
      HeaderOnlyAlloc(lo, bs[0].used, n);
    } else if AllocPtr(bs, n) != 0 {
      TakeFirstKeepsLast(bs, Rounded(n));
      var b := AllocAddsOneBlock(bs, lo, hi, n);
      LastNonemptyPtrs(AllocBlocks(bs, n), lo, hi);
    }
  }

  lemma HeaderOnlyAlloc(lo: nat, used: bool, n: Word)
    ensures var bs := [Block(lo, 0, used)];
      AllocPtr(bs, n) == if n > MAX_REQUEST && !used then lo + HEADER else 0
  {
    RoundedIsCeiling(n);
  }

  /**
   In a region of exactly one header a request that wraps is handed the pointer to the heap end, and no
   sequence of frees gives that block back.
   */
  lemma HeaderOnlyHeapLeaks(lo: nat, n: Word, ps: seq<nat>)
    requires Bounds(lo, lo + HEADER) && n > MAX_REQUEST
    ensures Legal(lo, lo + HEADER, [Alloc(n)])
    ensures AllocPtr(InitBlocks(lo, lo + HEADER), n) == lo + HEADER
    ensures FreeAll(After(lo, lo + HEADER, [Alloc(n)]), lo, lo + HEADER, ps)
      == [Block(lo, 0, true)] != InitBlocks(lo, lo + HEADER)
    decreases |ps|
  {
    var bs := InitBlocks(lo, lo + HEADER);
    var ops := [Alloc(n)];
    assert ops[..|ops| - 1] == [];
    RoundedIsCeiling(n);
    assert Rounded(n) == 0 && FirstFit(bs, 0, 0) == 0;
    assert After(lo, lo + HEADER, []) == bs;
    assert After(lo, lo + HEADER, ops) == AllocBlocks(bs, n);
    assert AllocBlocks(bs, n) == Splice(bs, 0, 1, [Block(lo, 0, true)]) == [Block(lo, 0, true)];
    OneEmptyBlockStays(lo, ps);
  }

  lemma {:induction false} OneEmptyBlockStays(lo: nat, ps: seq<nat>)
    ensures FreeAll([Block(lo, 0, true)], lo, lo + HEADER, ps) == [Block(lo, 0, true)]
    decreases |ps|
  {
    if ps != [] {
      assert BlockAt([Block(lo, 0, true)], ps[0], 0) == if ps[0] == lo + HEADER then 0 else 1;
      OneEmptyBlockStays(lo, ps[1..]);
    }
  }

  /** A block handed out holds the bytes asked for exactly when the rounding did not wrap. */
  lemma AllocHoldsRequest(bs: seq<Block>, lo: nat, hi: nat, n: Word) returns (b: Block)
    requires HeapOk(bs, lo, hi) && hi < WORD_LIMIT
    requires AllocPtr(bs, n) != 0
    ensures b in Live(AllocBlocks(bs, n)) && b.Payload() == AllocPtr(bs, n)
    ensures b.size >= n <==> n <= MAX_REQUEST
  {
    b := AllocAddsOneBlock(bs, lo, hi, n);
    RoundedIsCeiling(n);
  }

  /** On the boot heap a request of 0xFFFFFFFD bytes succeeds with an empty block. */
  lemma WrappingRequestSucceeds()
    ensures AllocPtr(InitBlocks(0x10_0000, 0x20_0000), 0xFFFF_FFFD) == 0x10_000C
    ensures Block(0x10_0000, 0, true) in AllocBlocks(InitBlocks(0x10_0000, 0x20_0000), 0xFFFF_FFFD)
  {
    assert Rounded(0xFFFF_FFFD) == 0;
  }
}
