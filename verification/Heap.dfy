/**
 The allocator of kernel/memory/memory.c on raw memory. Physical memory is an array of bytes whose
 index is the address; each block header is stored inside it as the C struct lays it out:
 `size` at offset 0, the byte `used` at offset 4, `next` at offset 8.
 */
module HeapMemory {
  import opened Bytes
  import opened Blocks

  /** The `next` field of `bs[i]` in a chain whose last block points to `last`. */
  ghost function Next(bs: seq<Block>, i: nat, last: nat): nat
    requires i < |bs|
  {
    if i + 1 < |bs| then bs[i + 1].addr else last
  }

  ghost predicate HeaderAt(m: seq<byte>, b: Block, next: nat) {
    b.addr + HEADER <= |m|
    && Load32(m, b.addr) == b.size
    && m[b.addr + 4] == (if b.used then 1 else 0)
    && Load32(m, b.addr + 8) == next
  }

  /** Memory `m` holds the headers of `bs`, chained through their `next` fields and ending in `last`. */
  ghost predicate Chained(m: seq<byte>, bs: seq<Block>, last: nat) {
    forall i: nat {:trigger HeaderAt(m, bs[i], Next(bs, i, last))} | i < |bs| :: HeaderAt(m, bs[i], Next(bs, i, last))
  }

  /** The whole block list as `heap_start` leads to it: the last `next` is NULL. */
  ghost predicate Stored(m: seq<byte>, bs: seq<Block>) {
    Chained(m, bs, 0)
  }

  /** From `m` to `m'` nothing outside the heap and nothing inside the payload of a block of `live` changed. */
  ghost predicate Framed(m: seq<byte>, m': seq<byte>, live: set<Block>, lo: nat, hi: nat) {
    && Same(m, m', 0, lo) && Same(m, m', hi, |m|)
    && forall b | b in live :: Same(m, m', b.Payload(), b.End())
  }

  lemma HeaderFrame(m: seq<byte>, m': seq<byte>, b: Block, next: nat)
    requires HeaderAt(m, b, next) && Same(m, m', b.addr, b.Payload())
    ensures HeaderAt(m', b, next)
  {
  }

  /** What the splice puts at index `t`, and where its `next` points. */
  lemma SpliceIndex(bs: seq<Block>, i: nat, k: nat, piece: seq<Block>, t: nat)
    requires k > 0 && i + k <= |bs| && piece != [] && piece[0].addr == bs[i].addr
    requires t < |Splice(bs, i, k, piece)|
    ensures var cs := Splice(bs, i, k, piece);
      if t < i then cs[t] == bs[t] && Next(cs, t, 0) == Next(bs, t, 0)
      else if t < i + |piece| then cs[t] == piece[t - i] && Next(cs, t, 0) == Next(piece, t - i, Next(bs, i + k - 1, 0))
      else cs[t] == bs[t - |piece| + k] && Next(cs, t, 0) == Next(bs, t - |piece| + k, 0)
  {
  }

  /** Rewriting memory only inside the replaced run, and correctly there, stores the new block list. */
  lemma SpliceStored(m: seq<byte>, m': seq<byte>, bs: seq<Block>, i: nat, k: nat, piece: seq<Block>, lo: nat, hi: nat)
    requires k > 0 && i + k <= |bs| && piece != []
    requires Tiles(bs, lo, hi) && piece[0].addr == bs[i].addr
    requires Stored(m, bs)
    requires Same(m, m', 0, bs[i].addr) && Same(m, m', bs[i + k - 1].End(), |m|)
    requires Chained(m', piece, Next(bs, i + k - 1, 0))
    ensures Stored(m', Splice(bs, i, k, piece))
  {
    var cs := Splice(bs, i, k, piece);
    forall t: nat {:trigger HeaderAt(m', cs[t], Next(cs, t, 0))} | t < |cs|
      ensures HeaderAt(m', cs[t], Next(cs, t, 0))
    {
      SpliceIndex(bs, i, k, piece, t);
      if t < i {
        Ordered(bs, t, i, lo, hi);
        assert HeaderAt(m, bs[t], Next(bs, t, 0));
        HeaderFrame(m, m', bs[t], Next(bs, t, 0));
      } else if t >= i + |piece| {
        var u := t - |piece| + k;
        Ordered(bs, i + k - 1, u, lo, hi);
        assert HeaderAt(m, bs[u], Next(bs, u, 0));
        HeaderFrame(m, m', bs[u], Next(bs, u, 0));
      } else {
        assert HeaderAt(m', piece[t - i], Next(piece, t - i, Next(bs, i + k - 1, 0)));
      }
    }
  }

  /** Writing inside the extent of a free block disturbs no live payload. */
  lemma FreeBlockFramed(m: seq<byte>, m': seq<byte>, bs: seq<Block>, i: nat, lo: nat, hi: nat)
    requires i < |bs| && Tiles(bs, lo, hi) && !bs[i].used
    requires Same(m, m', 0, bs[i].addr) && Same(m, m', bs[i].End(), |m|)
    ensures Framed(m, m', Live(bs), lo, hi)
  {
    TilesBounds(bs, lo, hi);
    forall b | b in Live(bs) ensures b.End() <= bs[i].addr || bs[i].End() <= b.addr {
      BlocksDisjoint(bs, lo, hi, b, bs[i]);
    }
  }

  /** Overwriting the header of any block disturbs no live payload. */
  lemma HeaderFramed(m: seq<byte>, m': seq<byte>, bs: seq<Block>, i: nat, lo: nat, hi: nat)
    requires i < |bs| && Tiles(bs, lo, hi)
    requires Same(m, m', 0, bs[i].addr) && Same(m, m', bs[i].Payload(), |m|)
    ensures Framed(m, m', Live(bs), lo, hi)
  {
    TilesBounds(bs, lo, hi);
    forall b | b in Live(bs) ensures b == bs[i] || b.End() <= bs[i].addr || bs[i].End() <= b.addr {
      BlocksDisjoint(bs, lo, hi, b, bs[i]);
    }
  }

  lemma FramedTrans(m: seq<byte>, m': seq<byte>, m'': seq<byte>, live: set<Block>, live': set<Block>, lo: nat, hi: nat)
    requires Framed(m, m', live, lo, hi) && Framed(m', m'', live', lo, hi)
    ensures Framed(m, m'', live * live', lo, hi)
  {
  }

  lemma MergeStored(m: seq<byte>, m': seq<byte>, bs: seq<Block>, i: nat, lo: nat, hi: nat)
    requires i + 1 < |bs| && Tiles(bs, lo, hi) && Stored(m, bs)
    requires HeaderAt(m', Merge(bs[i], bs[i + 1]), Next(bs, i + 1, 0))
    requires Same(m, m', 0, bs[i].addr) && Same(m, m', bs[i].Payload(), |m|)
    ensures Stored(m', MergeAt(bs, i)) && Framed(m, m', Live(bs), lo, hi)
  {
    Ordered(bs, i, i + 1, lo, hi);
    ChainedOne(m', Merge(bs[i], bs[i + 1]), Next(bs, i + 1, 0));
    SpliceStored(m, m', bs, i, 2, [Merge(bs[i], bs[i + 1])], lo, hi);
    HeaderFramed(m, m', bs, i, lo, hi);
  }

  lemma ChainedOne(m: seq<byte>, b: Block, last: nat)
    requires HeaderAt(m, b, last)
    ensures Chained(m, [b], last)
  {
  }

  lemma MarkStored(m: seq<byte>, m': seq<byte>, bs: seq<Block>, i: nat, used: bool, lo: nat, hi: nat)
    requires i < |bs| && Tiles(bs, lo, hi) && Aligned(bs) && Stored(m, bs)
    requires HeaderAt(m', bs[i].(used := used), Next(bs, i, 0))
    requires Same(m, m', 0, bs[i].addr) && Same(m, m', bs[i].Payload(), |m|)
    ensures Stored(m', bs[i := bs[i].(used := used)]) && Framed(m, m', Live(bs), lo, hi)
  {
    MarkWellFormed(bs, i, used, lo, hi);
    ChainedOne(m', bs[i].(used := used), Next(bs, i, 0));
    SpliceStored(m, m', bs, i, 1, [bs[i].(used := used)], lo, hi);
    HeaderFramed(m, m', bs, i, lo, hi);
  }

  /** Where the byte lies that `Memory_free(p)` clears. */
  lemma ClearedByte(bs: seq<Block>, lo: nat, hi: nat, p: nat)
    requires Tiles(bs, lo, hi) && (p in LivePtrs(bs) || Stale(bs, p))
    ensures lo + HEADER <= p && p - 8 < hi
    ensures BlockAt(bs, p, 0) == |bs| ==> Stale(bs, p)
  {
    TilesBounds(bs, lo, hi);
  }

  lemma HeaderCleared(m: seq<byte>, m': seq<byte>, b: Block, next: nat)
    requires HeaderAt(m, b, next) && |m'| == |m| && m'[b.addr + 4] == 0
    requires forall a | 0 <= a < |m| && a != b.addr + 4 :: m'[a] == m[a]
    ensures HeaderAt(m', b.(used := false), next)
  {
  }

  /** Clearing a byte of padding or in the payload of a free block leaves headers and live payloads alone. */
  lemma StaleStored(m: seq<byte>, m': seq<byte>, bs: seq<Block>, p: nat, lo: nat, hi: nat)
    requires Tiles(bs, lo, hi) && Stored(m, bs) && Stale(bs, p) && BlockAt(bs, p, 0) == |bs|
    requires |m'| == |m| && forall a | 0 <= a < |m| && a != p - 8 :: m'[a] == m[a]
    ensures Stored(m', bs) && Framed(m, m', Live(bs), lo, hi)
  {
    var b :| b in bs && StaleIn(b, p);
    var i :| 0 <= i < |bs| && bs[i] == b;
    assert p != b.Payload();
    if p < b.Payload() + 4 {
      HeaderFramed(m, m', bs, i, lo, hi);
    } else {
      FreeBlockFramed(m, m', bs, i, lo, hi);
    }
    forall j: nat {:trigger HeaderAt(m', bs[j], Next(bs, j, 0))} | j < |bs|
      ensures HeaderAt(m', bs[j], Next(bs, j, 0))
    {
      BlocksDisjoint(bs, lo, hi, b, bs[j]);
      assert HeaderAt(m, bs[j], Next(bs, j, 0));
    }
  }

  /** The two blocks that splitting `b` after `r` payload bytes makes, before the first is marked used. */
  ghost function Halves(b: Block, r: nat): seq<Block>
    requires r + HEADER <= b.size
  {
    [Block(b.addr, r, false), Block(b.addr + HEADER + r, b.size - r - HEADER, false)]
  }

  lemma HalvesTiles(bs: seq<Block>, i: nat, r: nat, lo: nat, hi: nat)
    requires i < |bs| && Tiles(bs, lo, hi) && !bs[i].used && r + HEADER + 4 < bs[i].size
    ensures Tiles(Splice(bs, i, 1, Halves(bs[i], r)), lo, hi)
    ensures Live(Splice(bs, i, 1, Halves(bs[i], r))) == Live(bs)
  {
    var piece := Halves(bs[i], r);
    assert piece[1..] == [piece[1]] && piece[1..][1..] == [];
    SpliceTiles(bs, i, 1, piece, lo, hi);
    SpliceLive(bs, i, 1, piece);
  }

  lemma HalvesAligned(bs: seq<Block>, i: nat, r: nat)
    requires i < |bs| && Aligned(bs) && r % 4 == 0 && r + HEADER + 4 < bs[i].size
    ensures Aligned(Splice(bs, i, 1, Halves(bs[i], r)))
  {
    var piece := Halves(bs[i], r);
    assert OnGrid(bs[i]);
    GridSums(bs[i].addr, r);
    GridSums(bs[i].size, r);
    assert OnGrid(piece[0]) && OnGrid(piece[1]);
    SpliceAligned(bs, i, 1, piece);
  }

  /** Splitting and then marking the first half is what `Carve` describes. */
  lemma MarkedHalves(bs: seq<Block>, i: nat, r: nat)
    requires i < |bs| && !bs[i].used && r + HEADER + 4 < bs[i].size
    ensures Splice(bs, i, 1, Halves(bs[i], r))[i := Block(bs[i].addr, r, true)] == Splice(bs, i, 1, Carve(bs[i], r))
  {
  }

  lemma HalvesStored(m: seq<byte>, m': seq<byte>, bs: seq<Block>, i: nat, r: nat, lo: nat, hi: nat)
    requires i < |bs| && Tiles(bs, lo, hi) && Stored(m, bs) && !bs[i].used && r + HEADER + 4 < bs[i].size
    requires HeaderAt(m', Halves(bs[i], r)[0], Halves(bs[i], r)[1].addr)
    requires HeaderAt(m', Halves(bs[i], r)[1], Next(bs, i, 0))
    requires Same(m, m', 0, bs[i].addr) && Same(m, m', bs[i].End(), |m|)
    ensures Stored(m', Splice(bs, i, 1, Halves(bs[i], r))) && Framed(m, m', Live(bs), lo, hi)
  {
    assert Chained(m', Halves(bs[i], r), Next(bs, i, 0));
    SpliceStored(m, m', bs, i, 1, Halves(bs[i], r), lo, hi);
    FreeBlockFramed(m, m', bs, i, lo, hi);
  }

  class Heap {
    const mem: array<byte>
    var heapStart: nat
    var heapEnd: nat
    ghost var blocks: seq<Block>

    /** The chain in memory is a tiling of the heap; unlike `Valid` this allows adjacent free blocks. */
    ghost predicate Linked()
      reads this, mem
    {
      && 0 < heapStart < heapEnd && heapEnd < WORD_LIMIT && heapEnd <= mem.Length
      && heapStart % 4 == 0 && Aligned(blocks)
      && Tiles(blocks, heapStart, heapEnd)
      && Stored(mem[..], blocks)
    }

    ghost predicate Valid()
      reads this, mem
    {
      Linked() && Canonical(blocks)
    }

    // -------------------------------------------------------------- words and header fields

    method Load(a: nat) returns (w: Word)
      requires a + 4 <= mem.Length
      ensures w == Load32(mem[..], a)
    {
      w := mem[a] as int + 0x100 * mem[a + 1] as int + 0x1_0000 * mem[a + 2] as int + 0x100_0000 * mem[a + 3] as int;
    }

    method Store(a: nat, w: Word)
      requires a + 4 <= mem.Length
      modifies mem
      ensures Store32(old(mem[..]), mem[..], a, w)
    {
      var w1 := w / 0x100;
      var w2 := w1 / 0x100;
      mem[a], mem[a + 1], mem[a + 2], mem[a + 3] := w % 0x100, w1 % 0x100, w2 % 0x100, w2 / 0x100;
    }

    method SetSize(a: nat, size: Word, ghost b: Block, ghost next: nat)
      requires HeaderAt(mem[..], b, next) && a == b.addr
      modifies mem
      ensures HeaderAt(mem[..], b.(size := size), next)
      ensures Same(old(mem[..]), mem[..], 0, a) && Same(old(mem[..]), mem[..], a + HEADER, mem.Length)
    {
      Store(a, size);
    }

    method SetUsed(a: nat, used: bool, ghost b: Block, ghost next: nat)
      requires HeaderAt(mem[..], b, next) && a == b.addr
      modifies mem
      ensures HeaderAt(mem[..], b.(used := used), next)
      ensures Same(old(mem[..]), mem[..], 0, a) && Same(old(mem[..]), mem[..], a + HEADER, mem.Length)
    {
      ghost var m := mem[..];
      mem[a + 4] := if used then 1 else 0;
      assert forall k | 0 <= k < |m| && k != a + 4 :: mem[..][k] == m[k];
    }

    method SetNext(a: nat, next: Word, ghost b: Block, ghost was: nat)
      requires HeaderAt(mem[..], b, was) && a == b.addr
      modifies mem
      ensures HeaderAt(mem[..], b, next)
      ensures Same(old(mem[..]), mem[..], 0, a) && Same(old(mem[..]), mem[..], a + HEADER, mem.Length)
    {
      Store(a + 8, next);
    }

    /** The three fields of a header that did not exist before. */
    method WriteHeader(a: nat, size: Word, used: bool, next: Word)
      requires a + HEADER <= mem.Length
      modifies mem
      ensures HeaderAt(mem[..], Block(a, size, used), next)
      ensures Same(old(mem[..]), mem[..], 0, a) && Same(old(mem[..]), mem[..], a + HEADER, mem.Length)
    {
      ghost var m := mem[..];
      Store(a, size);
      ghost var m1 := mem[..];
      mem[a + 4] := if used then 1 else 0;
      ghost var m2 := mem[..];
      assert forall k | 0 <= k < |m| && k != a + 4 :: m2[k] == m1[k];
      Store(a + 8, next);
    }

    /** The header of block `i` as the chain stores it. */
    lemma HeaderOf(i: nat)
      requires Linked() && i < |blocks|
      ensures HeaderAt(mem[..], blocks[i], Next(blocks, i, 0))
      ensures heapStart <= blocks[i].addr && blocks[i].End() <= heapEnd
      ensures Next(blocks, i, 0) == 0 <==> i + 1 == |blocks|
      ensures i + 1 < |blocks| ==> blocks[i].End() == Next(blocks, i, 0)
    {
      TilesBounds(blocks, heapStart, heapEnd);
      assert HeaderAt(mem[..], blocks[i], Next(blocks, i, 0));
      if i + 1 < |blocks| { Ordered(blocks, i, i + 1, heapStart, heapEnd); }
    }

    /**
     The chain in memory starts at `heapStart`; each `next` is the address just behind the block and so
     strictly larger, and the block whose `next` is NULL ends at `heapEnd`.
     */
    lemma ChainShape(i: nat)
      requires Linked() && i < |blocks|
      ensures blocks[i].addr + 12 <= mem.Length && (i == 0 ==> blocks[i].addr == heapStart)
      ensures mem[blocks[i].addr + 4] == if blocks[i].used then 1 else 0
      ensures var a, size, next := blocks[i].addr, Load32(mem[..], blocks[i].addr), Load32(mem[..], blocks[i].addr + 8);
        if i + 1 < |blocks| then a < next == a + 12 + size == blocks[i + 1].addr
        else next == 0 && a + 12 + size == heapEnd
    {
      HeaderOf(i);
      var end := TilesSplit(blocks, i + 1, heapStart, heapEnd);
    }

    method SizeOf(a: nat, ghost i: nat) returns (size: Word)
      requires Linked() && i < |blocks| && a == blocks[i].addr
      ensures size == blocks[i].size && size + HEADER + 4 < WORD_LIMIT
    {
      HeaderOf(i);
      size := Load(a);
    }

    method IsUsed(a: nat, ghost i: nat) returns (used: bool)
      requires Linked() && i < |blocks| && a == blocks[i].addr
      ensures used == blocks[i].used
    {
      HeaderOf(i);
      used := mem[a + 4] != 0;
    }

    method NextOf(a: nat, ghost i: nat) returns (next: Word)
      requires Linked() && i < |blocks| && a == blocks[i].addr
      ensures next == Next(blocks, i, 0) && (next == 0 <==> i + 1 == |blocks|)
      ensures 0 < a
    {
      HeaderOf(i);
      next := Load(a + 8);
    }

    // -------------------------------------------------------------- Memory_init

    constructor (memory: array<byte>, start: nat, size: nat)
      requires 0 < start && start % 4 == 0 && size % 4 == 0 && HEADER <= size
      requires start + size < WORD_LIMIT && start + size <= memory.Length
      modifies memory
      ensures Valid() && mem == memory && heapStart == start && heapEnd == start + size
      ensures blocks == InitBlocks(start, start + size)
      ensures Framed(old(memory[..]), mem[..], {}, start, start + size)
    {
      mem := memory;
      heapStart := start;
      heapEnd := start + size;
      blocks := InitBlocks(start, start + size);
      new;
      WriteHeader(start, size - HEADER, false, 0);
      InitBlocksOk(start, start + size);
      ChainedOne(mem[..], blocks[0], 0);
    }

    // -------------------------------------------------------------- coalesce

    /** The merging branch of `coalesce`: block `current` swallows its successor `next`. */
    method Absorb(current: nat, next: nat, ghost i: nat, ghost m0: seq<byte>, ghost bs0: seq<Block>)
      requires Linked() && i + 1 < |blocks| && !blocks[i].used && !blocks[i + 1].used
      requires current == blocks[i].addr && next == blocks[i + 1].addr
      requires Live(blocks) == Live(bs0) && Framed(m0, mem[..], Live(bs0), heapStart, heapEnd)
      modifies this`blocks, mem
      ensures Linked() && blocks == MergeAt(old(blocks), i)
      ensures |blocks| == |old(blocks)| - 1 && current == blocks[i].addr
      ensures Live(blocks) == Live(bs0) && Framed(m0, mem[..], Live(bs0), heapStart, heapEnd)
    {
      ghost var m, bs := mem[..], blocks;
      HeaderOf(i);
      HeaderOf(i + 1);
      MergeAtCorrect(bs, i, heapStart, heapEnd);
      MergeAtAligned(bs, i);
      var size: nat := SizeOf(current, i);
      var nextSize: nat := SizeOf(next, i + 1);
      var afterNext := NextOf(next, i + 1);
      SetSize(current, size + (nextSize + HEADER), bs[i], next);
      SetNext(current, afterNext, Merge(bs[i], bs[i + 1]), next);
      MergeStored(m, mem[..], bs, i, heapStart, heapEnd);
      FramedTrans(m0, m, mem[..], Live(bs0), Live(bs), heapStart, heapEnd);
      blocks := MergeAt(bs, i);
    }

    /** `coalesce`: one walk along the chain that merges each free block with its free successors. */
    method CoalesceList()
      requires Linked()
      modifies this`blocks, mem
      ensures Valid() && blocks == Coalesce(old(blocks), 0)
      ensures Framed(old(mem[..]), mem[..], Live(old(blocks)), heapStart, heapEnd)
    {
      ghost var i := 0;
      CoalesceCorrect(blocks, 0, heapStart, heapEnd);
      var current := heapStart;
      var next := NextOf(current, 0);
      while current != 0 && next != 0
        invariant Linked() && i < |blocks| && current == blocks[i].addr && next == Next(blocks, i, 0)
        invariant 0 < current && (next == 0 <==> i + 1 == |blocks|)
        invariant Live(blocks) == Live(old(blocks))
        invariant Coalesce(old(blocks), 0) == Coalesce(blocks, i)
        invariant Framed(old(mem[..]), mem[..], Live(old(blocks)), heapStart, heapEnd)
        decreases |blocks| - i
      {
        var used := IsUsed(current, i);
        var nextUsed := IsUsed(next, i + 1);
        if !used && !nextUsed {
          Absorb(current, next, i, old(mem[..]), old(blocks));
        } else {
          i := i + 1;
          current := next;
        }
        next := NextOf(current, i);
      }
    }

    // -------------------------------------------------------------- Memory_alloc

    /** Sets the `used` byte of block `i`. */
    method Mark(a: nat, used: bool, ghost i: nat)
      requires Linked() && i < |blocks| && a == blocks[i].addr
      modifies this`blocks, mem
      ensures Linked() && blocks == old(blocks)[i := old(blocks)[i].(used := used)]
      ensures Framed(old(mem[..]), mem[..], Live(old(blocks)), heapStart, heapEnd)
    {
      ghost var m := mem[..];
      HeaderOf(i);
      SetUsed(a, used, blocks[i], Next(blocks, i, 0));
      MarkStored(m, mem[..], blocks, i, used, heapStart, heapEnd);
      MarkWellFormed(blocks, i, used, heapStart, heapEnd);
      blocks := blocks[i := blocks[i].(used := used)];
    }

    /** The header writes of the splitting branch of `Memory_alloc`. */
    method WriteHalves(current: nat, size: nat, ghost i: nat)
      requires Linked() && i < |blocks| && current == blocks[i].addr && !blocks[i].used
      requires size % 4 == 0 && blocks[i].size > size + HEADER + 4
      modifies mem
      ensures Stored(mem[..], Splice(blocks, i, 1, Halves(blocks[i], size)))
      ensures Framed(old(mem[..]), mem[..], Live(blocks), heapStart, heapEnd)
    {
      ghost var m := mem[..];
      ghost var b, last := blocks[i], Next(blocks, i, 0);
      HeaderOf(i);
      var newBlock := current + HEADER + size;
      var oldSize: nat := SizeOf(current, i);
      var next := NextOf(current, i);
      WriteHeader(newBlock, oldSize - size - HEADER, false, next);
      ghost var m1 := mem[..];
      HeaderFrame(m, m1, b, last);
      SetNext(current, newBlock, b, last);
      SetSize(current, size, b, newBlock);
      HeaderFrame(m1, mem[..], Halves(b, size)[1], last);
      HalvesStored(m, mem[..], blocks, i, size, heapStart, heapEnd);
    }

    /** The splitting branch of `Memory_alloc`: block `current` keeps `size` payload bytes. */
    method Split(current: nat, size: nat, ghost i: nat)
      requires Linked() && i < |blocks| && current == blocks[i].addr && !blocks[i].used
      requires size % 4 == 0 && blocks[i].size > size + HEADER + 4
      modifies this`blocks, mem
      ensures Linked() && blocks == Splice(old(blocks), i, 1, Halves(old(blocks)[i], size))
      ensures Framed(old(mem[..]), mem[..], Live(old(blocks)), heapStart, heapEnd)
    {
      HalvesTiles(blocks, i, size, heapStart, heapEnd);
      HalvesAligned(blocks, i, size);
      WriteHalves(current, size, i);
      blocks := Splice(blocks, i, 1, Halves(blocks[i], size));
    }

    /** What `Memory_alloc` does to the block it has found. */
    method TakeBlock(current: nat, size: nat, ghost i: nat)
      requires Linked() && i < |blocks| && current == blocks[i].addr && Fits(blocks[i], size) && size % 4 == 0
      modifies this`blocks, mem
      ensures Linked() && blocks == Splice(old(blocks), i, 1, Carve(old(blocks)[i], size))
      ensures Framed(old(mem[..]), mem[..], Live(old(blocks)), heapStart, heapEnd)
    {
      ghost var m, bs := mem[..], blocks;
      var blockSize: nat := SizeOf(current, i);
      assert size + HEADER + 4 < WORD_LIMIT;
      if blockSize > size + HEADER + 4 {
        HalvesTiles(bs, i, size, heapStart, heapEnd);
        MarkedHalves(bs, i, size);
        Split(current, size, i);
      }
      ghost var m1, bs1 := mem[..], blocks;
      Mark(current, true, i);
      FramedTrans(m, m1, mem[..], Live(bs), Live(bs1), heapStart, heapEnd);
    }

    method Alloc(n: Word) returns (p: nat)
      requires Valid()
      modifies this`blocks, mem
      ensures Valid()
      ensures p == AllocPtr(old(blocks), n) && blocks == AllocBlocks(old(blocks), n)
      ensures Framed(old(mem[..]), mem[..], Live(old(blocks)), heapStart, heapEnd)
    {
      if n == 0 { return 0; }
      var size := (n + 3) % WORD_LIMIT / 4 * 4;
      TakeFirstWellFormed(blocks, heapStart, heapEnd, size);
      ghost var i := 0;
      var current := heapStart;
      while current != 0
        invariant i <= |blocks| && current == (if i < |blocks| then blocks[i].addr else 0)
        invariant current == 0 <==> i == |blocks|
        invariant FirstFit(blocks, size, 0) == FirstFit(blocks, size, i)
        invariant Valid() && unchanged(this`blocks, mem)
        decreases |blocks| - i
      {
        var used := IsUsed(current, i);
        var blockSize: nat := SizeOf(current, i);
        if !used && blockSize >= size {
          TakeBlock(current, size, i);
          return current + HEADER;
        }
        current := NextOf(current, i);
        i := i + 1;
      }
      return 0;
    }

    // -------------------------------------------------------------- Memory_free

    /** `block->used = 0`, for a pointer that may be freed. */
    method ClearUsed(p: nat)
      requires Linked() && (p in LivePtrs(blocks) || Stale(blocks, p))
      modifies this`blocks, mem
      ensures Linked() && blocks == Release(old(blocks), p)
      ensures Framed(old(mem[..]), mem[..], Live(old(blocks)), heapStart, heapEnd)
    {
      ghost var i, m := BlockAt(blocks, p, 0), mem[..];
      ClearedByte(blocks, heapStart, heapEnd, p);
      mem[p - HEADER + 4] := 0;
      assert forall a | 0 <= a < |m| && a != p - 8 :: mem[..][a] == m[a];
      if i < |blocks| {
        HeaderCleared(m, mem[..], blocks[i], Next(blocks, i, 0));
        MarkStored(m, mem[..], blocks, i, false, heapStart, heapEnd);
        MarkWellFormed(blocks, i, false, heapStart, heapEnd);
      } else {
        StaleStored(m, mem[..], blocks, p, heapStart, heapEnd);
      }
      blocks := Release(blocks, p);
    }

    method Free(p: nat)
      requires Valid() && Freeable(blocks, heapStart, heapEnd, p)
      modifies this`blocks, mem
      ensures Valid() && blocks == FreeBlocks(old(blocks), heapStart, heapEnd, p)
      ensures Framed(old(mem[..]), mem[..], Live(blocks), heapStart, heapEnd)
    {
      if p == 0 { return; }
      if p < heapStart || p >= heapEnd { return; }
      ghost var m, bs := mem[..], blocks;
      ReleaseLive(bs, heapStart, heapEnd, p);
      ClearUsed(p);
      ghost var m1, bs1 := mem[..], blocks;
      CoalesceCorrect(bs1, 0, heapStart, heapEnd);
      CoalesceList();
      FramedTrans(m, m1, mem[..], Live(bs), Live(bs1), heapStart, heapEnd);
      assert Live(bs) * Live(bs1) == Live(bs1);
    }

    // -------------------------------------------------------------- Memory_get_free

    method GetFree() returns (total: nat)
      requires Valid()
      ensures total == FreeBytes(blocks) < WORD_LIMIT
    {
      total := 0;
      ghost var i := 0;
      BytesConserved(blocks, heapStart, heapEnd);
      assert blocks[0..] == blocks;
      var current := heapStart;
      while current != 0
        invariant i <= |blocks| && current == (if i < |blocks| then blocks[i].addr else 0)
        invariant current == 0 <==> i == |blocks|
        invariant total + FreeBytes(blocks[i..]) == FreeBytes(blocks)
        decreases |blocks| - i
      {
        assert blocks[i..][1..] == blocks[i + 1..];
        var used := IsUsed(current, i);
        if !used {
          var size := SizeOf(current, i);
          total := total + size;
        }
        current := NextOf(current, i);
        i := i + 1;
      }
    }
  }
}
