/**
 The heap of kernel/memory/memory.c seen as a sequence of blocks, without the memory that stores it.
 Every operation of the allocator is a function on such sequences; module HeapMemory shows that the code on
 raw memory computes these functions, and the lemmas here say what they achieve.
 */
module Blocks {
  import opened Bytes

  /** `sizeof(block_header_t)` on the 32-bit target: size, used (padded), next. */
  const HEADER := 12

  /** The largest request that `(size + 3) & ~3` does not wrap to 0. */
  const MAX_REQUEST := 0xFFFF_FFFC

  datatype Block = Block(addr: nat, size: nat, used: bool) {
    function Payload(): nat { addr + HEADER }
    function End(): nat { addr + HEADER + size }
  }

  // ---------------------------------------------------------------- well-formed heaps

  /** The blocks lie end to end and fill exactly the addresses `lo` up to `hi`. */
  ghost predicate Tiles(bs: seq<Block>, lo: nat, hi: nat) {
    if bs == [] then lo == hi else bs[0].addr == lo && Tiles(bs[1..], bs[0].End(), hi)
  }

  /** Block `i` and its successor, if it has one, are not both free. */
  ghost predicate Parted(bs: seq<Block>, i: nat) {
    i + 1 < |bs| ==> bs[i].used || bs[i + 1].used
  }

  /** No two neighbouring blocks are both free. */
  ghost predicate Canonical(bs: seq<Block>) {
    forall i: nat :: Parted(bs, i)
  }

  ghost predicate OnGrid(b: Block) {
    b.addr % 4 == 0 && b.size % 4 == 0
  }

  ghost predicate Aligned(bs: seq<Block>) {
    forall b | b in bs :: OnGrid(b)
  }

  ghost predicate HeapOk(bs: seq<Block>, lo: nat, hi: nat) {
    lo < hi && lo % 4 == 0 && Tiles(bs, lo, hi) && Canonical(bs) && Aligned(bs)
  }

  /** The live allocations. */
  ghost function Live(bs: seq<Block>): set<Block> {
    set b | b in bs && b.used
  }

  /** The pointers handed out and not yet returned. */
  ghost function LivePtrs(bs: seq<Block>): set<nat> {
    set b | b in bs && b.used :: b.Payload()
  }

  lemma {:induction false} TilesBounds(bs: seq<Block>, lo: nat, hi: nat)
    requires Tiles(bs, lo, hi)
    ensures lo <= hi
    ensures forall b | b in bs :: lo <= b.addr && b.End() <= hi
  {
    if bs != [] {
      TilesBounds(bs[1..], bs[0].End(), hi);
      assert forall b | b in bs :: b == bs[0] || b in bs[1..];
    }
  }

  /** Blocks of a tiling are pairwise disjoint, headers included. */
  lemma {:induction false} BlocksDisjoint(bs: seq<Block>, lo: nat, hi: nat, b: Block, c: Block)
    requires Tiles(bs, lo, hi) && b in bs && c in bs
    ensures b == c || b.End() <= c.addr || c.End() <= b.addr
  {
    TilesBounds(bs[1..], bs[0].End(), hi);
    if b != bs[0] && c != bs[0] {
      BlocksDisjoint(bs[1..], bs[0].End(), hi, b, c);
    } else {
      assert b == bs[0] || b in bs[1..];
      assert c == bs[0] || c in bs[1..];
    }
  }

  /** Live payloads are aligned, inside the heap, clear of every header and of each other. */
  lemma PayloadsAreSeparate(bs: seq<Block>, lo: nat, hi: nat, b: Block)
    requires HeapOk(bs, lo, hi) && b in Live(bs)
    ensures b.Payload() % 4 == 0 && lo + HEADER <= b.Payload() && b.End() <= hi
    ensures forall c | c in bs :: b.End() <= c.addr || c.Payload() <= b.Payload()
    ensures forall c | c in Live(bs) && c != b :: b.End() <= c.Payload() || c.End() <= b.Payload()
  {
    TilesBounds(bs, lo, hi);
    forall c | c in bs ensures b == c || b.End() <= c.addr || c.End() <= b.addr {
      BlocksDisjoint(bs, lo, hi, b, c);
    }
  }

  lemma LiveHead(bs: seq<Block>)
    requires bs != []
    ensures Live(bs) == (if bs[0].used then {bs[0]} else {}) + Live(bs[1..])
  {
    assert forall b | b in bs :: b == bs[0] || b in bs[1..];
  }

  lemma LivePtrsOfLive(bs: seq<Block>)
    ensures LivePtrs(bs) == set b | b in Live(bs) :: b.Payload()
  {
  }

  lemma CanonicalTail(bs: seq<Block>)
    requires Canonical(bs) && bs != []
    ensures Canonical(bs[1..])
  {
    forall i: nat ensures Parted(bs[1..], i) {
      assert Parted(bs, i + 1);
    }
  }

  lemma {:induction false} TilesSplit(bs: seq<Block>, i: nat, lo: nat, hi: nat) returns (mid: nat)
    requires Tiles(bs, lo, hi) && i <= |bs|
    ensures Tiles(bs[..i], lo, mid) && Tiles(bs[i..], mid, hi)
    ensures i < |bs| ==> mid == bs[i].addr
    ensures i > 0 ==> mid == bs[i - 1].End()
  {
    if i == 0 {
      mid := lo;
      assert bs[0..] == bs;
    } else {
      mid := TilesSplit(bs[1..], i - 1, bs[0].End(), hi);
      assert bs[..i][1..] == bs[1..][..i - 1];
      assert bs[i..] == bs[1..][i - 1..];
    }
  }

  lemma {:induction false} TilesAppend(bs: seq<Block>, cs: seq<Block>, lo: nat, mid: nat, hi: nat)
    requires Tiles(bs, lo, mid) && Tiles(cs, mid, hi)
    ensures Tiles(bs + cs, lo, hi)
  {
    if bs == [] {
      assert bs + cs == cs;
    } else {
      TilesAppend(bs[1..], cs, bs[0].End(), mid, hi);
      assert (bs + cs)[1..] == bs[1..] + cs;
    }
  }

  lemma Ordered(bs: seq<Block>, i: nat, j: nat, lo: nat, hi: nat)
    requires i < j < |bs| && Tiles(bs, lo, hi)
    ensures bs[i].End() <= bs[j].addr
    ensures j == i + 1 ==> bs[i].End() == bs[j].addr
  {
    var mid := TilesSplit(bs, j, lo, hi);
    TilesBounds(bs[..j], lo, mid);
    assert bs[i] in bs[..j];
  }

  // ---------------------------------------------------------------- replacing a run of blocks

  /** `bs` with the `k` blocks from index `i` replaced by `piece`. */
  ghost function Splice(bs: seq<Block>, i: nat, k: nat, piece: seq<Block>): seq<Block>
    requires i + k <= |bs|
  {
    bs[..i] + piece + bs[i + k..]
  }

  lemma GridSums(x: int, y: int)
    requires x % 4 == 0 && y % 4 == 0
    ensures (x + HEADER + y) % 4 == 0 && (x + (y + HEADER)) % 4 == 0 && (x - y - HEADER) % 4 == 0
  {
  }

  lemma SpliceAligned(bs: seq<Block>, i: nat, k: nat, piece: seq<Block>)
    requires i + k <= |bs| && Aligned(bs) && Aligned(piece)
    ensures Aligned(Splice(bs, i, k, piece))
  {
    var cs := Splice(bs, i, k, piece);
    forall b | b in cs ensures OnGrid(b) {
      assert b in bs || b in piece;
    }
  }

  lemma SpliceTiles(bs: seq<Block>, i: nat, k: nat, piece: seq<Block>, lo: nat, hi: nat)
    requires k > 0 && i + k <= |bs|
    requires Tiles(bs, lo, hi) && Tiles(piece, bs[i].addr, bs[i + k - 1].End())
    ensures Tiles(Splice(bs, i, k, piece), lo, hi)
  {
    var a := TilesSplit(bs, i, lo, hi);
    var b := TilesSplit(bs, i + k, lo, hi);
    TilesAppend(bs[..i], piece, lo, a, b);
    TilesAppend(bs[..i] + piece, bs[i + k..], lo, b, hi);
  }

  /** Changing only the `used` flag of one block. */
  lemma MarkWellFormed(bs: seq<Block>, i: nat, used: bool, lo: nat, hi: nat)
    requires i < |bs| && Tiles(bs, lo, hi) && Aligned(bs)
    ensures var cs := bs[i := bs[i].(used := used)];
      Tiles(cs, lo, hi) && Aligned(cs) && cs == Splice(bs, i, 1, [bs[i].(used := used)])
  {
    var piece := [bs[i].(used := used)];
    assert bs[i := piece[0]] == Splice(bs, i, 1, piece) && piece[1..] == [];
    SpliceTiles(bs, i, 1, piece, lo, hi);
    assert OnGrid(bs[i]) && OnGrid(piece[0]);
    SpliceAligned(bs, i, 1, piece);
  }

  lemma SpliceLive(bs: seq<Block>, i: nat, k: nat, piece: seq<Block>)
    requires i + k <= |bs| && Live(bs[i..i + k]) == {}
    ensures Live(Splice(bs, i, k, piece)) == Live(bs) + Live(piece)
  {
    var cs := Splice(bs, i, k, piece);
    forall b ensures b in Live(cs) <==> b in Live(bs) || b in Live(piece) {
      assert bs == bs[..i] + bs[i..i + k] + bs[i + k..];
      assert b in Live(bs[i..i + k]) <==> b in bs[i..i + k] && b.used;
    }
  }

  // ---------------------------------------------------------------- the live set determines the heap

  /**
   A well-formed heap is a function of its live allocations alone: two heaps over the same addresses
   with the same live blocks have the same free blocks as well, whatever their histories.
   */
  lemma {:induction false} LiveSetDeterminesBlocks(bs: seq<Block>, cs: seq<Block>, lo: nat, hi: nat)
    requires Tiles(bs, lo, hi) && Tiles(cs, lo, hi)
    requires Canonical(bs) && Canonical(cs)
    requires Live(bs) == Live(cs)
    ensures bs == cs
  {
    if bs == [] || cs == [] {
      if bs != [] { TilesBounds(bs[1..], bs[0].End(), hi); }
      if cs != [] { TilesBounds(cs[1..], cs[0].End(), hi); }
    } else {
      SameFirstBlock(bs, cs, lo, hi);
      LiveHead(bs);
      LiveHead(cs);
      TilesBounds(bs[1..], bs[0].End(), hi);
      TilesBounds(cs[1..], cs[0].End(), hi);
      assert bs[0] !in Live(bs[1..]) && bs[0] !in Live(cs[1..]);
      assert Live(bs[1..]) == Live(bs) - {bs[0]} == Live(cs[1..]);
      CanonicalTail(bs);
      CanonicalTail(cs);
      LiveSetDeterminesBlocks(bs[1..], cs[1..], bs[0].End(), hi);
      assert bs == [bs[0]] + bs[1..] && cs == [cs[0]] + cs[1..];
    }
  }

  lemma {:induction false} SameFirstBlock(bs: seq<Block>, cs: seq<Block>, lo: nat, hi: nat)
    requires bs != [] && cs != []
    requires Tiles(bs, lo, hi) && Tiles(cs, lo, hi)
    requires Canonical(bs) && Canonical(cs)
    requires Live(bs) == Live(cs)
    ensures bs[0] == cs[0]
  {
    FirstBlockNoLonger(bs, cs, lo, hi);
    FirstBlockNoLonger(cs, bs, lo, hi);
  }

  lemma {:induction false} FirstBlockNoLonger(bs: seq<Block>, cs: seq<Block>, lo: nat, hi: nat)
    requires bs != [] && cs != []
    requires Tiles(bs, lo, hi) && Tiles(cs, lo, hi)
    requires Canonical(bs)
    requires Live(bs) == Live(cs)
    ensures bs[0].used ==> bs[0] == cs[0]
    ensures !bs[0].used && !cs[0].used ==> cs[0].size <= bs[0].size
  {
    TilesBounds(cs[1..], cs[0].End(), hi);
    assert forall c | c in cs :: c == cs[0] || c in cs[1..];
    if bs[0].used {
      assert bs[0] in Live(cs);
    } else if |bs| > 1 {
      assert Parted(bs, 0) && bs[1] == bs[1..][0];
      assert bs[1] in Live(cs);
    } else {
      assert bs[0].End() == hi;
    }
  }

  // ---------------------------------------------------------------- coalescing

  ghost function Merge(a: Block, b: Block): Block {
    Block(a.addr, a.size + (b.size + HEADER), false)
  }

  /** Block `i` after swallowing its successor. */
  ghost function MergeAt(bs: seq<Block>, i: nat): seq<Block>
    requires i + 1 < |bs|
  {
    Splice(bs, i, 2, [Merge(bs[i], bs[i + 1])])
  }

  /** One pass from block `i` on: swallow a free successor as long as there is one, then step. */
  ghost function Coalesce(bs: seq<Block>, i: nat): seq<Block>
    decreases |bs|, |bs| - i
  {
    if i + 1 >= |bs| then bs
    else if !bs[i].used && !bs[i + 1].used then Coalesce(MergeAt(bs, i), i)
    else Coalesce(bs, i + 1)
  }

  lemma MergeAtAligned(bs: seq<Block>, i: nat)
    requires i + 1 < |bs| && Aligned(bs)
    ensures Aligned(MergeAt(bs, i))
  {
    assert OnGrid(bs[i]) && OnGrid(bs[i + 1]);
    var merged := Merge(bs[i], bs[i + 1]);
    GridSums(bs[i].size, bs[i + 1].size);
    assert OnGrid(merged);
    SpliceAligned(bs, i, 2, [merged]);
  }

  lemma MergeAtCorrect(bs: seq<Block>, i: nat, lo: nat, hi: nat)
    requires i + 1 < |bs| && Tiles(bs, lo, hi)
    requires !bs[i].used && !bs[i + 1].used
    ensures Tiles(MergeAt(bs, i), lo, hi) && Live(MergeAt(bs, i)) == Live(bs)
    ensures bs[i].End() == bs[i + 1].addr
    ensures |MergeAt(bs, i)| == |bs| - 1 && MergeAt(bs, i)[i] == Merge(bs[i], bs[i + 1])
  {
    var piece := [Merge(bs[i], bs[i + 1])];
    Ordered(bs, i, i + 1, lo, hi);
    assert piece[1..] == [];
    SpliceTiles(bs, i, 2, piece, lo, hi);
    assert Live(bs[i..i + 2]) == {} == Live(piece);
    SpliceLive(bs, i, 2, piece);
  }

  /** One pass is enough: the result is canonical, covers the same addresses and keeps every live block. */
  lemma {:induction false} CoalesceCorrect(bs: seq<Block>, i: nat, lo: nat, hi: nat)
    requires Tiles(bs, lo, hi) && Aligned(bs)
    requires forall j: nat | j < i :: Parted(bs, j)
    ensures Tiles(Coalesce(bs, i), lo, hi) && Aligned(Coalesce(bs, i))
    ensures Canonical(Coalesce(bs, i))
    ensures Live(Coalesce(bs, i)) == Live(bs)
    decreases |bs|, |bs| - i
  {
    if i + 1 >= |bs| {
      assert forall j: nat | j >= i :: Parted(bs, j);
    } else if !bs[i].used && !bs[i + 1].used {
      MergeAtCorrect(bs, i, lo, hi);
      MergeAtAligned(bs, i);
      forall j: nat | j < i ensures Parted(MergeAt(bs, i), j) {
        assert Parted(bs, j);
      }
      CoalesceCorrect(MergeAt(bs, i), i, lo, hi);
    } else {
      CoalesceCorrect(bs, i + 1, lo, hi);
    }
  }

  // ---------------------------------------------------------------- Memory_init, Memory_alloc, Memory_free

  ghost function InitBlocks(lo: nat, hi: nat): seq<Block>
    requires lo + HEADER <= hi
  {
    [Block(lo, hi - lo - HEADER, false)]
  }

  lemma InitBlocksOk(lo: nat, hi: nat)
    requires lo % 4 == 0 && hi % 4 == 0 && lo + HEADER <= hi
    ensures HeapOk(InitBlocks(lo, hi), lo, hi)
    ensures Live(InitBlocks(lo, hi)) == {} && LivePtrs(InitBlocks(lo, hi)) == {}
  {
    assert Tiles(InitBlocks(lo, hi)[1..], hi, hi);
  }

  /** `(size + 3) & ~3` in 32-bit arithmetic. */
  function Rounded(n: Word): Word {
    (n + 3) % WORD_LIMIT / 4 * 4
  }

  lemma RoundedIsCeiling(n: Word)
    ensures Rounded(n) % 4 == 0
    ensures n <= MAX_REQUEST ==> n <= Rounded(n) < n + 4
    ensures n > MAX_REQUEST ==> Rounded(n) == 0
  {
  }

  lemma RoundedIsLeast(n: Word, size: nat)
    requires n <= MAX_REQUEST && n <= size && size % 4 == 0
    ensures Rounded(n) <= size
  {
    RoundedIsCeiling(n);
  }

  predicate Fits(b: Block, r: nat) {
    !b.used && b.size >= r
  }

  /** The index from `i` on of the first block that holds `r` bytes, `|bs|` if there is none. */
  ghost function FirstFit(bs: seq<Block>, r: nat, i: nat): (k: nat)
    requires i <= |bs|
    ensures i <= k <= |bs|
    ensures k < |bs| ==> Fits(bs[k], r)
    ensures forall j | i <= j < k :: !Fits(bs[j], r)
    decreases |bs| - i
  {
    if i == |bs| || Fits(bs[i], r) then i else FirstFit(bs, r, i + 1)
  }

  /** The blocks that replace the free block `b` when `r` bytes of it are taken. */
  ghost function Carve(b: Block, r: nat): (piece: seq<Block>)
    requires Fits(b, r)
    ensures piece != []
  {
    if b.size > r + HEADER + 4 then
      [Block(b.addr, r, true), Block(b.addr + HEADER + r, b.size - r - HEADER, false)]
    else
      [Block(b.addr, b.size, true)]
  }

  ghost function TakeFirst(bs: seq<Block>, r: nat): seq<Block> {
    var k := FirstFit(bs, r, 0);
    if k == |bs| then bs else Splice(bs, k, 1, Carve(bs[k], r))
  }

  ghost function FirstFitPtr(bs: seq<Block>, r: nat): nat {
    var k := FirstFit(bs, r, 0);
    if k == |bs| then 0 else bs[k].Payload()
  }

  /** The block list after `Memory_alloc(n)`. */
  ghost function AllocBlocks(bs: seq<Block>, n: Word): seq<Block> {
    if n == 0 then bs else TakeFirst(bs, Rounded(n))
  }

  /** The pointer that `Memory_alloc(n)` returns, 0 for NULL. */
  ghost function AllocPtr(bs: seq<Block>, n: Word): nat {
    if n == 0 then 0 else FirstFitPtr(bs, Rounded(n))
  }

  /** The index from `i` on of the block with payload pointer `p`, `|bs|` if there is none. */
  ghost function BlockAt(bs: seq<Block>, p: nat, i: nat): (k: nat)
    requires i <= |bs|
    ensures i <= k <= |bs|
    ensures k < |bs| ==> bs[k].Payload() == p
    ensures forall j | i <= j < k :: bs[j].Payload() != p
    decreases |bs| - i
  {
    if i == |bs| || bs[i].Payload() == p then i else BlockAt(bs, p, i + 1)
  }

  /** Marks the block with payload pointer `p` free. */
  ghost function Release(bs: seq<Block>, p: nat): seq<Block> {
    var k := BlockAt(bs, p, 0);
    if k == |bs| then bs else bs[k := bs[k].(used := false)]
  }

  /**
   Nothing depends on the byte at `p - 8`, which `Memory_free(p)` clears: it is padding in the header of `b`,
   or the `used` byte of the free block `b`, or in its payload.
   */
  ghost predicate StaleIn(b: Block, p: nat) {
    b.Payload() < p < b.Payload() + 4 || (!b.used && (p == b.Payload() || b.Payload() + 8 <= p < b.End() + 8))
  }

  ghost predicate Stale(bs: seq<Block>, p: nat) {
    exists b | b in bs :: StaleIn(b, p)
  }

  /**
   A pointer `Memory_free` may be given: a live one, one that makes it clear a byte without meaning, such as a
   pointer freed before, or one outside the heap, which it ignores. `FreeableIff` says it in terms of that byte.
   */
  ghost predicate Freeable(bs: seq<Block>, lo: nat, hi: nat, p: nat) {
    p == 0 || p < lo || p >= hi || p in LivePtrs(bs) || Stale(bs, p)
  }

  /** The block list after `Memory_free(p)` of a `Freeable` pointer. */
  ghost function FreeBlocks(bs: seq<Block>, lo: nat, hi: nat, p: nat): seq<Block> {
    if p == 0 || p < lo || p >= hi then bs else Coalesce(Release(bs, p), 0)
  }

  // ---------------------------------------------------------------- what allocation achieves

  /** A block of `r` payload bytes at address `a` lies in the heap and touches no live block. */
  ghost predicate Room(live: set<Block>, lo: nat, hi: nat, a: nat, r: nat) {
    lo <= a && a + HEADER + r <= hi && forall b | b in live :: a + HEADER + r <= b.addr || b.End() <= a
  }

  /** The live block that taking `r` bytes from the first fitting block creates. */
  ghost function Taken(bs: seq<Block>, r: nat): (b: Block)
    requires FirstFitPtr(bs, r) != 0
    ensures b.used && b.Payload() == FirstFitPtr(bs, r)
    ensures r <= b.size <= r + HEADER + 4
  {
    Carve(bs[FirstFit(bs, r, 0)], r)[0]
  }

  lemma CarveAligned(b: Block, r: nat)
    requires Fits(b, r) && r % 4 == 0 && OnGrid(b)
    ensures Aligned(Carve(b, r))
  {
    var piece := Carve(b, r);
    GridSums(b.addr, r);
    GridSums(b.size, r);
    assert OnGrid(piece[0]);
    if |piece| == 2 { assert OnGrid(piece[1]); }
  }

  lemma CarveCorrect(b: Block, r: nat)
    requires Fits(b, r)
    ensures Tiles(Carve(b, r), b.addr, b.End())
    ensures Carve(b, r)[0].used && Live(Carve(b, r)) == {Carve(b, r)[0]}
  {
    var piece := Carve(b, r);
    if |piece| == 2 {
      assert piece[1..] == [piece[1]] && piece[1..][1..] == [];
    } else {
      assert piece[1..] == [];
    }
  }

  lemma TakeFirstWellFormed(bs: seq<Block>, lo: nat, hi: nat, r: nat)
    requires Tiles(bs, lo, hi) && Canonical(bs) && Aligned(bs) && r % 4 == 0
    ensures Tiles(TakeFirst(bs, r), lo, hi) && Canonical(TakeFirst(bs, r)) && Aligned(TakeFirst(bs, r))
  {
    var k := FirstFit(bs, r, 0);
    if k < |bs| {
      var piece, cs := Carve(bs[k], r), TakeFirst(bs, r);
      CarveCorrect(bs[k], r);
      SpliceTiles(bs, k, 1, piece, lo, hi);
      forall i: nat ensures Parted(cs, i) {
        if i + 1 <= k {
          assert Parted(bs, i);
        } else if k + |piece| - 1 <= i {
          assert Parted(bs, i - |piece| + 1);
        }
      }
      CarveAligned(bs[k], r);
      SpliceAligned(bs, k, 1, piece);
    }
  }

  /** Taking adds one live block. */
  lemma TakeFirstLive(bs: seq<Block>, lo: nat, hi: nat, r: nat)
    requires Tiles(bs, lo, hi) && Aligned(bs) && r % 4 == 0
    requires FirstFitPtr(bs, r) != 0
    ensures Live(TakeFirst(bs, r)) == Live(bs) + {Taken(bs, r)}
  {
    var k := FirstFit(bs, r, 0);
    CarveCorrect(bs[k], r);
    assert Live(bs[k..k + 1]) == {};
    SpliceLive(bs, k, 1, Carve(bs[k], r));
  }

  /** The taken block lies inside a free block, and no lower free block fits. */
  lemma TakenPlace(bs: seq<Block>, lo: nat, hi: nat, r: nat)
    requires Tiles(bs, lo, hi) && FirstFitPtr(bs, r) != 0
    ensures lo <= Taken(bs, r).addr && Taken(bs, r).End() <= hi
    ensures forall b | b in Live(bs) :: b.End() <= Taken(bs, r).addr || Taken(bs, r).End() <= b.addr
    ensures forall c | c in bs && Fits(c, r) :: Taken(bs, r).addr <= c.addr
  {
    var k := FirstFit(bs, r, 0);
    TilesBounds(bs, lo, hi);
    forall c | c in bs ensures c == bs[k] || c.End() <= bs[k].addr || bs[k].End() <= c.addr {
      BlocksDisjoint(bs, lo, hi, c, bs[k]);
    }
    forall j | k < j < |bs| ensures bs[k].addr <= bs[j].addr {
      Ordered(bs, k, j, lo, hi);
    }
  }

  lemma TakeFirstFails(bs: seq<Block>, r: nat)
    ensures FirstFitPtr(bs, r) == 0 <==> forall c | c in bs :: !Fits(c, r)
    ensures FirstFitPtr(bs, r) == 0 ==> TakeFirst(bs, r) == bs
  {
    var k := FirstFit(bs, r, 0);
    if k < |bs| { assert bs[k] in bs; }
  }

  /** Wherever there is room for a block, the block lying there is free and large enough. */
  lemma {:induction false} RoomIsInFreeBlock(bs: seq<Block>, lo: nat, hi: nat, a: nat, r: nat) returns (f: Block)
    requires Tiles(bs, lo, hi) && Canonical(bs)
    requires Room(Live(bs), lo, hi, a, r)
    ensures f in bs && !f.used && f.addr <= a && a + HEADER + r <= f.End()
  {
    TilesBounds(bs[1..], bs[0].End(), hi);
    LiveHead(bs);
    if a < bs[0].End() {
      f := bs[0];
      if |bs| > 1 && !f.used {
        assert Parted(bs, 0) && bs[1] == bs[1..][0] && bs[1] in Live(bs);
      }
    } else {
      CanonicalTail(bs);
      f := RoomIsInFreeBlock(bs[1..], bs[0].End(), hi, a, r);
    }
  }

  /** A request for nothing fails, and a failed request changes nothing. */
  lemma AllocFailureChangesNothing(bs: seq<Block>, n: Word)
    ensures AllocPtr(bs, 0) == 0
    ensures AllocPtr(bs, n) == 0 ==> AllocBlocks(bs, n) == bs
  {
    TakeFirstFails(bs, Rounded(n));
  }

  /**
   Exactness of `Memory_alloc`: for a nonzero request it returns NULL exactly when no stretch of the
   heap clear of live blocks holds a header and the rounded size, and otherwise it places the new
   block at the lowest address where such a stretch begins.
   */
  lemma AllocExact(bs: seq<Block>, lo: nat, hi: nat, n: Word)
    requires HeapOk(bs, lo, hi) && n != 0
    ensures AllocPtr(bs, n) == 0 <==> forall a :: !Room(Live(bs), lo, hi, a, Rounded(n))
    ensures AllocPtr(bs, n) != 0 ==>
      && AllocPtr(bs, n) >= HEADER
      && Room(Live(bs), lo, hi, AllocPtr(bs, n) - HEADER, Rounded(n))
      && forall a | Room(Live(bs), lo, hi, a, Rounded(n)) :: AllocPtr(bs, n) - HEADER <= a
  {
    var r := Rounded(n);
    TakeFirstFails(bs, r);
    forall a | Room(Live(bs), lo, hi, a, r)
      ensures AllocPtr(bs, n) != 0 && AllocPtr(bs, n) - HEADER <= a
    {
      var f := RoomIsInFreeBlock(bs, lo, hi, a, r);
      assert Fits(f, r);
      TakenPlace(bs, lo, hi, r);
    }
    if AllocPtr(bs, n) != 0 {
      TakenPlace(bs, lo, hi, r);
      assert Room(Live(bs), lo, hi, Taken(bs, r).addr, r);
    }
  }

  /** The gap that starts with a free block is exactly as long as that block. */
  lemma FreeBlockIsGap(bs: seq<Block>, lo: nat, hi: nat, f: Block, k: nat)
    requires Tiles(bs, lo, hi) && Canonical(bs) && f in bs && !f.used
    ensures Room(Live(bs), lo, hi, f.addr, k) <==> k <= f.size
  {
    TilesBounds(bs, lo, hi);
    if Room(Live(bs), lo, hi, f.addr, k) {
      var g := RoomIsInFreeBlock(bs, lo, hi, f.addr, k);
      BlocksDisjoint(bs, lo, hi, f, g);
    }
    forall b | b in Live(bs) ensures b.End() <= f.addr || f.End() <= b.addr {
      BlocksDisjoint(bs, lo, hi, b, f);
    }
  }

  /**
   How much a successful allocation takes: the rounded request if more than 16 bytes of the gap would be
   left over, otherwise the whole gap.
   */
  lemma AllocSizeExact(bs: seq<Block>, lo: nat, hi: nat, n: Word)
    requires HeapOk(bs, lo, hi) && AllocPtr(bs, n) != 0
    ensures var r, b := Rounded(n), Taken(bs, Rounded(n));
      if Room(Live(bs), lo, hi, b.addr, r + HEADER + 5) then b.size == r
      else Room(Live(bs), lo, hi, b.addr, b.size) && !Room(Live(bs), lo, hi, b.addr, b.size + 1)
  {
    var r := Rounded(n);
    var f := bs[FirstFit(bs, r, 0)];
    FreeBlockIsGap(bs, lo, hi, f, r + HEADER + 5);
    FreeBlockIsGap(bs, lo, hi, f, f.size);
    FreeBlockIsGap(bs, lo, hi, f, f.size + 1);
  }

  /** A successful allocation adds one block, disjoint from the others, wasting at most 16 bytes. */
  lemma AllocAddsOneBlock(bs: seq<Block>, lo: nat, hi: nat, n: Word) returns (b: Block)
    requires HeapOk(bs, lo, hi) && AllocPtr(bs, n) != 0
    ensures HeapOk(AllocBlocks(bs, n), lo, hi)
    ensures b.used && b.Payload() == AllocPtr(bs, n) && b.addr % 4 == 0
    ensures Rounded(n) <= b.size <= Rounded(n) + HEADER + 4
    ensures lo <= b.addr && b.End() <= hi
    ensures forall c | c in Live(bs) :: c.End() <= b.addr || b.End() <= c.addr
    ensures Live(AllocBlocks(bs, n)) == Live(bs) + {b}
    ensures b !in Live(bs) && b.Payload() !in LivePtrs(bs)
    ensures LivePtrs(AllocBlocks(bs, n)) == LivePtrs(bs) + {b.Payload()}
  {
    var r := Rounded(n);
    b := Taken(bs, r);
    TakeFirstWellFormed(bs, lo, hi, r);
    TakeFirstLive(bs, lo, hi, r);
    TakenPlace(bs, lo, hi, r);
    LivePtrsOfLive(bs);
    LivePtrsOfLive(AllocBlocks(bs, n));
    assert b in Live(AllocBlocks(bs, n));
  }

  // ---------------------------------------------------------------- what freeing achieves

  lemma ReleaseWellFormed(bs: seq<Block>, lo: nat, hi: nat, p: nat)
    requires Tiles(bs, lo, hi) && Aligned(bs)
    ensures Tiles(Release(bs, p), lo, hi) && Aligned(Release(bs, p))
  {
    var k := BlockAt(bs, p, 0);
    if k < |bs| {
      MarkWellFormed(bs, k, false, lo, hi);
    }
  }

  lemma ReleaseLive(bs: seq<Block>, lo: nat, hi: nat, p: nat)
    requires Tiles(bs, lo, hi)
    ensures Live(Release(bs, p)) == set b | b in Live(bs) && b.Payload() != p
  {
    var k, cs := BlockAt(bs, p, 0), Release(bs, p);
    if k < |bs| {
      forall j | 0 <= j < |bs| && j != k ensures bs[j].Payload() != p && cs[j] == bs[j] {
        if j > k { Ordered(bs, k, j, lo, hi); }
      }
      forall b ensures b in Live(cs) <==> b in Live(bs) && b.Payload() != p {
        if b in bs && b.Payload() != p {
          var j :| 0 <= j < |bs| && bs[j] == b;
          assert cs[j] == b;
        }
      }
    }
  }

  /** Freeing a pointer below the heap end removes exactly its block from the live set. */
  lemma FreeRemovesOneBlock(bs: seq<Block>, lo: nat, hi: nat, p: nat)
    requires HeapOk(bs, lo, hi) && Freeable(bs, lo, hi, p)
    ensures HeapOk(FreeBlocks(bs, lo, hi, p), lo, hi)
    ensures Live(FreeBlocks(bs, lo, hi, p)) == set b | b in Live(bs) && (b.Payload() != p || p >= hi)
    ensures LivePtrs(FreeBlocks(bs, lo, hi, p)) == LivePtrs(bs) - (if p < hi then {p} else {})
  {
    TilesBounds(bs, lo, hi);
    ReleaseWellFormed(bs, lo, hi, p);
    ReleaseLive(bs, lo, hi, p);
    CoalesceCorrect(Release(bs, p), 0, lo, hi);
    LivePtrsOfLive(bs);
    LivePtrsOfLive(FreeBlocks(bs, lo, hi, p));
  }

  /**
   Freeing right after allocating restores the whole block list, whether or not a block was split. The
   one exception is a pointer equal to the heap end, which `Memory_free` ignores; only a request whose
   rounding wraps to 0 can be handed that pointer.
   */
  lemma AllocThenFreeIsIdentity(bs: seq<Block>, lo: nat, hi: nat, n: Word)
    requires HeapOk(bs, lo, hi)
    ensures FreeBlocks(AllocBlocks(bs, n), lo, hi, AllocPtr(bs, n)) == bs <==> AllocPtr(bs, n) < hi
    ensures n <= MAX_REQUEST ==> AllocPtr(bs, n) < hi
  {
    if AllocPtr(bs, n) == 0 {
      TakeFirstFails(bs, Rounded(n));
    } else {
      var b := AllocAddsOneBlock(bs, lo, hi, n);
      var cs := FreeBlocks(AllocBlocks(bs, n), lo, hi, b.Payload());
      FreeRemovesOneBlock(AllocBlocks(bs, n), lo, hi, b.Payload());
      if b.Payload() < hi {
        LiveWithoutTaken(bs, AllocBlocks(bs, n), b);
        LiveSetDeterminesBlocks(cs, bs, lo, hi);
      } else {
        assert b in Live(AllocBlocks(bs, n));
      }
    }
  }

  lemma LiveWithoutTaken(bs: seq<Block>, cs: seq<Block>, b: Block)
    requires Live(cs) == Live(bs) + {b} && b.Payload() !in LivePtrs(bs)
    ensures (set c | c in Live(cs) && c.Payload() != b.Payload()) == Live(bs)
  {
    assert forall c | c in Live(bs) :: c.Payload() in LivePtrs(bs);
  }

  lemma {:induction false} BlockCovering(bs: seq<Block>, lo: nat, hi: nat, a: nat) returns (b: Block)
    requires Tiles(bs, lo, hi) && lo <= a < hi
    ensures b in bs && b.addr <= a < b.End()
  {
    if a < bs[0].End() {
      b := bs[0];
    } else {
      b := BlockCovering(bs[1..], bs[0].End(), hi, a);
    }
  }

  /** The byte at `a` belongs to the `size` or the `next` field of block `b`, or to its payload if it is live. */
  ghost predicate Matters(b: Block, a: nat) {
    || b.addr <= a < b.addr + 4
    || b.addr + 8 <= a < b.Payload()
    || (b.used && b.Payload() <= a < b.End())
  }

  lemma SparedByte(b: Block, p: nat)
    requires p >= 8 && ((b.used && p == b.Payload()) || StaleIn(b, p))
    ensures b.addr <= p - 8 < b.End() && !Matters(b, p - 8)
  {
  }

  /**
   Which pointers into the heap may be freed: exactly those for which the byte cleared lies in the heap and in
   no `size` or `next` field and in no live payload.
   */
  lemma FreeableIff(bs: seq<Block>, lo: nat, hi: nat, p: nat)
    requires Tiles(bs, lo, hi) && lo <= p < hi && p != 0
    ensures Freeable(bs, lo, hi, p) <==> lo + 8 <= p && forall b | b in bs :: !Matters(b, p - 8)
  {
    TilesBounds(bs, lo, hi);
    if Freeable(bs, lo, hi, p) {
      var b :| b in bs && ((b.used && p == b.Payload()) || StaleIn(b, p));
      SparedByte(b, p);
      forall c | c in bs ensures !Matters(c, p - 8) {
        BlocksDisjoint(bs, lo, hi, b, c);
      }
    } else if lo + 8 <= p {
      var b := BlockCovering(bs, lo, hi, p - 8);
      assert Matters(b, p - 8);
    }
  }

  lemma StaleIsNotLive(bs: seq<Block>, lo: nat, hi: nat, p: nat)
    requires Tiles(bs, lo, hi) && Stale(bs, p)
    ensures p !in LivePtrs(bs)
  {
    var b :| b in bs && StaleIn(b, p);
    forall c | c in bs && c.used ensures c.Payload() != p {
      BlocksDisjoint(bs, lo, hi, b, c);
    }
  }

  /** Freeing a pointer again, while its memory has not been handed out anew, does nothing. */
  lemma StaleFreeDoesNothing(bs: seq<Block>, lo: nat, hi: nat, p: nat)
    requires HeapOk(bs, lo, hi) && Stale(bs, p)
    ensures FreeBlocks(bs, lo, hi, p) == bs
  {
    StaleIsNotLive(bs, lo, hi, p);
    FreeRemovesOneBlock(bs, lo, hi, p);
    LivePtrsOfLive(bs);
    assert forall b | b in Live(bs) :: b.Payload() in LivePtrs(bs);
    LiveSetDeterminesBlocks(FreeBlocks(bs, lo, hi, p), bs, lo, hi);
  }

  lemma ReleaseKeepsStale(bs: seq<Block>, p: nat, q: nat)
    requires Stale(bs, q) || (p == q && q in LivePtrs(bs))
    ensures Stale(Release(bs, p), q)
  {
    var k, cs := BlockAt(bs, p, 0), Release(bs, p);
    if Stale(bs, q) {
      var b :| b in bs && StaleIn(b, q);
      var j :| 0 <= j < |bs| && bs[j] == b;
      assert cs[j] in cs && StaleIn(cs[j], q);
    } else {
      assert cs[k] in cs && StaleIn(cs[k], q);
    }
  }

  lemma MergeKeepsStale(bs: seq<Block>, lo: nat, hi: nat, i: nat, q: nat)
    requires Tiles(bs, lo, hi) && i + 1 < |bs| && !bs[i].used && !bs[i + 1].used && Stale(bs, q)
    ensures Stale(MergeAt(bs, i), q)
  {
    MergeAtCorrect(bs, i, lo, hi);
    var b :| b in bs && StaleIn(b, q);
    var j :| 0 <= j < |bs| && bs[j] == b;
    var cs := MergeAt(bs, i);
    if j == i || j == i + 1 {
      assert cs[i] in cs && StaleIn(cs[i], q);
    } else {
      assert cs[if j < i then j else j - 1] == b;
    }
  }

  lemma {:induction false} CoalesceKeepsStale(bs: seq<Block>, i: nat, lo: nat, hi: nat, q: nat)
    requires Tiles(bs, lo, hi) && Stale(bs, q)
    ensures Stale(Coalesce(bs, i), q)
    decreases |bs|, |bs| - i
  {
    if i + 1 >= |bs| {
    } else if !bs[i].used && !bs[i + 1].used {
      MergeAtCorrect(bs, i, lo, hi);
      MergeKeepsStale(bs, lo, hi, i, q);
      CoalesceKeepsStale(MergeAt(bs, i), i, lo, hi, q);
    } else {
      CoalesceKeepsStale(bs, i + 1, lo, hi, q);
    }
  }

  /** What may be freed may still be freed after any other free, and what has been freed may be freed again. */
  lemma FreeKeepsFreeable(bs: seq<Block>, lo: nat, hi: nat, p: nat, q: nat)
    requires HeapOk(bs, lo, hi) && Freeable(bs, lo, hi, p) && Freeable(bs, lo, hi, q)
    ensures Freeable(FreeBlocks(bs, lo, hi, p), lo, hi, q)
  {
    FreeRemovesOneBlock(bs, lo, hi, p);
    if lo <= p < hi && p != 0 && (Stale(bs, q) || (p == q && q in LivePtrs(bs))) {
      ReleaseWellFormed(bs, lo, hi, p);
      ReleaseKeepsStale(bs, p, q);
      CoalesceKeepsStale(Release(bs, p), 0, lo, hi, q);
    }
  }

  /** The order of two frees does not matter. */
  lemma FreesCommute(bs: seq<Block>, lo: nat, hi: nat, p: nat, q: nat)
    requires HeapOk(bs, lo, hi) && Freeable(bs, lo, hi, p) && Freeable(bs, lo, hi, q)
    ensures FreeBlocks(FreeBlocks(bs, lo, hi, p), lo, hi, q) == FreeBlocks(FreeBlocks(bs, lo, hi, q), lo, hi, p)
  {
    var ps, qs := FreeBlocks(bs, lo, hi, p), FreeBlocks(bs, lo, hi, q);
    FreeRemovesOneBlock(bs, lo, hi, p);
    FreeRemovesOneBlock(bs, lo, hi, q);
    FreeKeepsFreeable(bs, lo, hi, p, q);
    FreeKeepsFreeable(bs, lo, hi, q, p);
    FreeRemovesOneBlock(ps, lo, hi, q);
    FreeRemovesOneBlock(qs, lo, hi, p);
    LiveSetDeterminesBlocks(FreeBlocks(ps, lo, hi, q), FreeBlocks(qs, lo, hi, p), lo, hi);
  }

  /** A second free of the same pointer does nothing. */
  lemma DoubleFree(bs: seq<Block>, lo: nat, hi: nat, p: nat)
    requires HeapOk(bs, lo, hi) && Freeable(bs, lo, hi, p)
    ensures FreeBlocks(FreeBlocks(bs, lo, hi, p), lo, hi, p) == FreeBlocks(bs, lo, hi, p)
  {
    FreeRemovesOneBlock(bs, lo, hi, p);
    FreeKeepsFreeable(bs, lo, hi, p, p);
    if lo <= p < hi && p != 0 {
      StaleFreeDoesNothing(FreeBlocks(bs, lo, hi, p), lo, hi, p);
    }
  }

  ghost function FreeAll(bs: seq<Block>, lo: nat, hi: nat, ps: seq<nat>): seq<Block>
    decreases |ps|
  {
    if ps == [] then bs else FreeAll(FreeBlocks(bs, lo, hi, ps[0]), lo, hi, ps[1..])
  }

  /**
   Freeing the live pointers, in any order and any number of times, leaves the one block that `Memory_init`
   made, exactly if no live pointer equals the heap end, which `Memory_free` would ignore. Module HeapRuns shows
   which heaps can get there.
   */
  lemma {:induction false} FreeAllRestoresInit(bs: seq<Block>, lo: nat, hi: nat, ps: seq<nat>)
    requires HeapOk(bs, lo, hi)
    requires forall p | p in LivePtrs(bs) && p < hi :: p in ps
    requires forall p | p in ps :: Freeable(bs, lo, hi, p)
    ensures lo + HEADER <= hi
    ensures FreeAll(bs, lo, hi, ps) == InitBlocks(lo, hi) <==> forall p | p in LivePtrs(bs) :: p < hi
    decreases |ps|
  {
    if ps == [] {
      TilesBounds(bs, lo, hi);
      assert Tiles(InitBlocks(lo, hi), lo, hi);
      if forall p | p in LivePtrs(bs) :: p < hi {
        forall b | b in bs ensures !b.used {
          assert b.used ==> b.Payload() in LivePtrs(bs);
        }
        LiveSetDeterminesBlocks(bs, InitBlocks(lo, hi), lo, hi);
      }
    } else {
      var cs := FreeBlocks(bs, lo, hi, ps[0]);
      FreeRemovesOneBlock(bs, lo, hi, ps[0]);
      forall p | p in ps[1..] ensures Freeable(cs, lo, hi, p) {
        assert p in ps;
        FreeKeepsFreeable(bs, lo, hi, ps[0], p);
      }
      assert forall p | p in LivePtrs(cs) :: p in LivePtrs(bs);
      FreeAllRestoresInit(cs, lo, hi, ps[1..]);
      assert forall p | p in LivePtrs(bs) && p >= hi :: p in LivePtrs(cs);
    }
  }

  // ---------------------------------------------------------------- the end of the heap

  /** The last block is not empty, so no payload begins at the heap end. */
  ghost predicate LastNonempty(bs: seq<Block>) {
    bs != [] && bs[|bs| - 1].size > 0
  }

  lemma LastNonemptyPtrs(bs: seq<Block>, lo: nat, hi: nat)
    requires Tiles(bs, lo, hi) && LastNonempty(bs)
    ensures forall p | p in LivePtrs(bs) :: lo < p < hi
  {
    TilesBounds(bs, lo, hi);
    var n := |bs| - 1;
    forall i | 0 <= i < |bs| ensures bs[i].Payload() < hi {
      assert bs[n] in bs;
      if i < n { Ordered(bs, i, n, lo, hi); }
    }
  }

  lemma TakeFirstKeepsLast(bs: seq<Block>, r: nat)
    requires LastNonempty(bs)
    ensures LastNonempty(TakeFirst(bs, r))
  {
    var k := FirstFit(bs, r, 0);
    if k < |bs| {
      var cs, piece := TakeFirst(bs, r), Carve(bs[k], r);
      if k == |bs| - 1 {
        assert cs[|cs| - 1] == piece[|piece| - 1];
      } else {
        assert cs[|cs| - 1] == bs[|bs| - 1];
      }
    }
  }

  lemma {:induction false} CoalesceKeepsLast(bs: seq<Block>, i: nat)
    requires LastNonempty(bs)
    ensures LastNonempty(Coalesce(bs, i))
    decreases |bs|, |bs| - i
  {
    if i + 1 >= |bs| {
    } else if !bs[i].used && !bs[i + 1].used {
      var cs := MergeAt(bs, i);
      assert cs[|cs| - 1] == if i + 2 == |bs| then Merge(bs[i], bs[i + 1]) else bs[|bs| - 1];
      CoalesceKeepsLast(cs, i);
    } else {
      CoalesceKeepsLast(bs, i + 1);
    }
  }

  lemma FreeKeepsLast(bs: seq<Block>, lo: nat, hi: nat, p: nat)
    requires LastNonempty(bs)
    ensures LastNonempty(FreeBlocks(bs, lo, hi, p))
  {
    CoalesceKeepsLast(Release(bs, p), 0);
  }

  // ---------------------------------------------------------------- Memory_get_free

  ghost function FreeBytes(bs: seq<Block>): nat {
    if bs == [] then 0 else (if bs[0].used then 0 else bs[0].size) + FreeBytes(bs[1..])
  }

  ghost function CountLive(bs: seq<Block>): nat {
    if bs == [] then 0 else (if bs[0].used then 1 else 0) + CountLive(bs[1..])
  }

  ghost function CountFree(bs: seq<Block>): nat {
    if bs == [] then 0 else (if bs[0].used then 0 else 1) + CountFree(bs[1..])
  }

  /** Between and around k live blocks there are at most k + 1 free ones. */
  lemma {:induction false} FreeBlocksBound(bs: seq<Block>)
    requires Canonical(bs)
    ensures CountFree(bs) <= CountLive(bs) + (if bs != [] && bs[0].used then 0 else 1)
    ensures CountFree(bs) <= CountLive(bs) + 1
  {
    if bs != [] {
      CanonicalTail(bs);
      FreeBlocksBound(bs[1..]);
      if |bs| > 1 { assert Parted(bs, 0) && bs[1] == bs[1..][0]; }
    }
  }

  lemma {:induction false} CountLiveIsCardinality(bs: seq<Block>, lo: nat, hi: nat)
    requires Tiles(bs, lo, hi)
    ensures CountLive(bs) == |Live(bs)|
  {
    if bs != [] {
      CountLiveIsCardinality(bs[1..], bs[0].End(), hi);
      TilesBounds(bs[1..], bs[0].End(), hi);
      LiveHead(bs);
      assert bs[0] !in Live(bs[1..]);
    }
  }

  ghost function LiveBytes(bs: seq<Block>): nat {
    if bs == [] then 0 else (if bs[0].used then bs[0].size else 0) + LiveBytes(bs[1..])
  }

  /** Free bytes, allocated bytes and one header per block always add up to the size of the heap. */
  lemma {:induction false} BytesConserved(bs: seq<Block>, lo: nat, hi: nat)
    requires Tiles(bs, lo, hi)
    ensures lo + FreeBytes(bs) + LiveBytes(bs) + HEADER * |bs| == hi
  {
    if bs != [] {
      BytesConserved(bs[1..], bs[0].End(), hi);
    }
  }

  /** When no free block holds `r` bytes, each has fewer. */
  lemma {:induction false} FreeBytesBound(bs: seq<Block>, r: nat)
    requires r > 0 && forall b | b in bs :: !Fits(b, r)
    ensures FreeBytes(bs) <= CountFree(bs) * (r - 1)
  {
    if bs != [] {
      FreeBytesBound(bs[1..], r);
      assert bs[0] in bs;
      assert forall b | b in bs[1..] :: b in bs;
      if !bs[0].used {
        assert CountFree(bs) * (r - 1) == CountFree(bs[1..]) * (r - 1) + (r - 1);
      }
    }
  }

  /** A large enough `Memory_get_free` guarantees the next allocation, however fragmented the heap is. */
  lemma EnoughFreeMeansSuccess(bs: seq<Block>, lo: nat, hi: nat, n: Word)
    requires HeapOk(bs, lo, hi) && 0 < n <= MAX_REQUEST
    requires FreeBytes(bs) >= (|Live(bs)| + 1) * Rounded(n)
    ensures AllocPtr(bs, n) != 0
  {
    var r := Rounded(n);
    TakeFirstFails(bs, r);
    if AllocPtr(bs, n) == 0 {
      FreeBytesBound(bs, r);
      FreeBlocksBound(bs);
      CountLiveIsCardinality(bs, lo, hi);
      Short(CountFree(bs), |Live(bs)| + 1, r);
    }
  }

  lemma Short(a: nat, k: nat, r: nat)
    requires a <= k && 0 < k && 0 < r
    ensures a * (r - 1) < k * r
  {
    Multiply(a, k, r - 1);
    assert k * r == k * (r - 1) + k;
  }

  lemma Multiply(a: nat, b: nat, c: nat)
    requires a <= b
    ensures a * c <= b * c
  {
  }
}
