/**
 filesystem/vfs.c on raw memory: nodes and buffers live in blocks of the heap, laid out as the C struct
 lays them out: 32 bytes of name, then `size`, `data` and `next`.
 */
module VfsMemory {
  import opened Bytes
  import opened Blocks
  import opened HeapMemory
  import opened FileList

  /** A NUL-terminated name in the 32 bytes at `p`. */
  ghost predicate NameAt(m: seq<byte>, p: nat, name: CString) {
    && |name| < MAX_NAME && p + MAX_NAME <= |m|
    && (forall k | 0 <= k < |name| :: m[p + k] == name[k])
    && m[p + |name|] == 0
  }

  ghost predicate FieldsAt(m: seq<byte>, p: nat, name: CString, size: nat, data: nat, next: nat) {
    && p + NODE_SIZE <= |m| && NameAt(m, p, name)
    && Load32(m, p + 32) == size && Load32(m, p + 36) == data && Load32(m, p + 40) == next
  }

  ghost predicate BufferAt(m: seq<byte>, data: nat, content: seq<byte>) {
    data + |content| <= |m| && forall k | 0 <= k < |content| :: m[data + k] == content[k]
  }

  ghost function First(nodes: seq<Node>): nat {
    if nodes == [] then 0 else nodes[0].ptr
  }

  ghost predicate NodeAt(m: seq<byte>, nodes: seq<Node>, i: nat)
    requires i < |nodes|
  {
    var n := nodes[i];
    FieldsAt(m, n.ptr, n.name, |n.content|, n.data, First(nodes[i + 1..])) && BufferAt(m, n.data, n.content)
  }

  /** Memory holds every node but possibly number `skip`. */
  ghost predicate ListedBut(m: seq<byte>, nodes: seq<Node>, skip: nat) {
    forall i: nat | i < |nodes| && i != skip :: NodeAt(m, nodes, i)
  }

  ghost predicate HeldIn(live: set<Block>, p: nat, k: nat) {
    exists b | b in live :: b.Payload() == p && b.size >= k
  }

  /** Every node but possibly number `skip` and its buffer lie in blocks of `live`. */
  ghost predicate SafeBut(live: set<Block>, nodes: seq<Node>, skip: nat) {
    forall i: nat | i < |nodes| && i != skip ::
      HeldIn(live, nodes[i].ptr, NODE_SIZE)
      && (nodes[i].content == [] || HeldIn(live, nodes[i].data, |nodes[i].content|))
  }

  lemma NodeFrame(m: seq<byte>, m': seq<byte>, nodes: seq<Node>, i: nat)
    requires i < |nodes| && NodeAt(m, nodes, i) && |m| == |m'|
    requires Same(m, m', nodes[i].ptr, nodes[i].ptr + NODE_SIZE)
    requires Same(m, m', nodes[i].data, nodes[i].data + |nodes[i].content|)
    ensures NodeAt(m', nodes, i)
  {
  }

  /** Memory changes that respect `live` keep the nodes stored in `live`. */
  lemma ListedFrame(m: seq<byte>, m': seq<byte>, nodes: seq<Node>, skip: nat, live: set<Block>, lo: nat, hi: nat)
    requires ListedBut(m, nodes, skip) && SafeBut(live, nodes, skip) && Framed(m, m', live, lo, hi)
    ensures ListedBut(m', nodes, skip)
  {
    forall i: nat | i < |nodes| && i != skip ensures NodeAt(m', nodes, i) {
      assert NodeAt(m, nodes, i);
      NodeFrame(m, m', nodes, i);
    }
  }

  /** `m` and `m'` agree outside the `k` bytes at `p` and the `l` bytes at `q`. */
  ghost predicate SameBut(m: seq<byte>, m': seq<byte>, p: nat, k: nat, q: nat, l: nat) {
    |m| == |m'| && forall a | 0 <= a < |m| && !(p <= a < p + k) && !(q <= a < q + l) :: m'[a] == m[a]
  }

  /**
   The first `k` bytes of a live payload at `p` lie clear of every header, and of every block with another pointer.
   */
  lemma PayloadClear(bs: seq<Block>, lo: nat, hi: nat, p: nat, k: nat, c: Block)
    requires Tiles(bs, lo, hi) && Holds(bs, p, k) && c in bs
    ensures lo <= p && p + k <= hi && lo <= c.addr && c.End() <= hi
    ensures c.Payload() <= p || p + k <= c.addr
    ensures c.Payload() != p ==> c.End() <= p || p + k <= c.addr
  {
    var b :| b in Live(bs) && b.Payload() == p && b.size >= k;
    TilesBounds(bs, lo, hi);
    BlocksDisjoint(bs, lo, hi, b, c);
  }

  /** Writing inside two live payloads leaves the heap's headers and all other live payloads alone. */
  lemma PayloadWrite(m: seq<byte>, m': seq<byte>, bs: seq<Block>, lo: nat, hi: nat, p: nat, k: nat, q: nat, l: nat)
    requires Tiles(bs, lo, hi) && Stored(m, bs) && Holds(bs, p, k) && Holds(bs, q, l)
    requires SameBut(m, m', p, k, q, l)
    ensures Stored(m', bs) && Framed(m, m', LiveExcept(bs, p) * LiveExcept(bs, q), lo, hi)
  {
    var b :| b in Live(bs) && b.Payload() == p && b.size >= k;
    TilesBounds(bs, lo, hi);
    PayloadClear(bs, lo, hi, q, l, b);
    forall i: nat {:trigger HeaderAt(m', bs[i], HeapMemory.Next(bs, i, 0))} | i < |bs|
      ensures HeaderAt(m', bs[i], HeapMemory.Next(bs, i, 0))
    {
      PayloadClear(bs, lo, hi, p, k, bs[i]);
      PayloadClear(bs, lo, hi, q, l, bs[i]);
      assert HeaderAt(m, bs[i], HeapMemory.Next(bs, i, 0));
      HeaderFrame(m, m', bs[i], HeapMemory.Next(bs, i, 0));
    }
    forall c | c in LiveExcept(bs, p) * LiveExcept(bs, q) ensures Same(m, m', c.Payload(), c.End()) {
      PayloadClear(bs, lo, hi, p, k, c);
      PayloadClear(bs, lo, hi, q, l, c);
    }
  }

  /** All nodes but `skip` lie in the live blocks other than those at `p` and `q`, if none of them uses these. */
  lemma SafeExcept(bs: seq<Block>, nodes: seq<Node>, skip: nat, p: nat, q: nat)
    requires forall i: nat | i < |nodes| && i != skip ::
      NodeOk(bs, nodes[i]) && nodes[i].ptr != p && nodes[i].ptr != q
      && (nodes[i].data == 0 || (nodes[i].data != p && nodes[i].data != q))
    ensures SafeBut(LiveExcept(bs, p) * LiveExcept(bs, q), nodes, skip)
  {
    var rest := LiveExcept(bs, p) * LiveExcept(bs, q);
    forall i: nat | i < |nodes| && i != skip
      ensures HeldIn(rest, nodes[i].ptr, NODE_SIZE)
      ensures nodes[i].content == [] || HeldIn(rest, nodes[i].data, |nodes[i].content|)
    {
      var n := nodes[i];
      var b :| b in Live(bs) && b.Payload() == n.ptr && b.size >= NODE_SIZE;
      assert b in rest;
      if n.data != 0 {
        var c :| c in Live(bs) && c.Payload() == n.data && c.size >= |n.content|;
        assert c in rest;
      }
    }
  }

  /** The nodes around number `i` do not change; together with the new one they form the new list. */
  lemma ListedUpdate(m: seq<byte>, nodes: seq<Node>, i: nat, n: Node)
    requires i < |nodes| && n.ptr == nodes[i].ptr && ListedBut(m, nodes, i)
    requires FieldsAt(m, n.ptr, n.name, |n.content|, n.data, First(nodes[i + 1..])) && BufferAt(m, n.data, n.content)
    ensures ListedBut(m, nodes[i := n], |nodes|)
  {
    var ns := nodes[i := n];
    forall j: nat | j < |ns| ensures NodeAt(m, ns, j) {
      assert First(ns[j + 1..]) == First(nodes[j + 1..]);
      if j != i { assert NodeAt(m, nodes, j); }
    }
  }

  lemma ListedCons(m: seq<byte>, nodes: seq<Node>, n: Node)
    requires ListedBut(m, nodes, |nodes|)
    requires FieldsAt(m, n.ptr, n.name, |n.content|, n.data, First(nodes)) && BufferAt(m, n.data, n.content)
    ensures ListedBut(m, [n] + nodes, |nodes| + 1)
  {
    var ns := [n] + nodes;
    forall j: nat | j < |ns| ensures NodeAt(m, ns, j) {
      if j > 0 {
        assert ns[j + 1..] == nodes[j..];
        assert NodeAt(m, nodes, j - 1);
      } else {
        assert ns[1..] == nodes;
      }
    }
  }

  lemma StoreSize(m: seq<byte>, m': seq<byte>, p: nat, name: CString, size: nat, data: nat, next: nat, w: Word)
    requires FieldsAt(m, p, name, size, data, next) && Store32(m, m', p + 32, w)
    ensures FieldsAt(m', p, name, w, data, next)
    ensures Same(m, m', 0, p) && Same(m, m', p + NODE_SIZE, |m|)
  {
  }

  lemma StoreData(m: seq<byte>, m': seq<byte>, p: nat, name: CString, size: nat, data: nat, next: nat, w: Word)
    requires FieldsAt(m, p, name, size, data, next) && Store32(m, m', p + 36, w)
    ensures FieldsAt(m', p, name, size, w, next)
    ensures Same(m, m', 0, p) && Same(m, m', p + NODE_SIZE, |m|)
  {
  }

  /** The blocks of the allocations that do not belong to the file system. */
  ghost function ForeignLive(bs: seq<Block>, foreign: set<nat>): set<Block> {
    set b | b in Live(bs) && b.Payload() in foreign
  }

  lemma ForeignSurvives(s: Fs, r: Region, foreign: set<nat>, i: nat)
    requires Owns(s, r, foreign) && i < |s.nodes|
    ensures ForeignLive(DropBuffer(s, r, i).bs, foreign) == ForeignLive(s.bs, foreign)
  {
    LiveAfterDrop(s, r, foreign, i);
    OwnedMember(s.nodes, i);
    assert forall b | b in Live(s.bs) :: b.Payload() != 0;
  }

  /** The nodes and their buffers lie in live blocks. */
  lemma NodesSafe(s: Fs, r: Region, foreign: set<nat>)
    requires Owns(s, r, foreign)
    ensures SafeBut(Live(s.bs), s.nodes, |s.nodes|)
    ensures First(s.nodes) < WORD_LIMIT
  {
    if s.nodes != [] {
      assert NodeOk(s.bs, s.nodes[0]);
      HoldsBounds(s.bs, r, s.nodes[0].ptr, NODE_SIZE);
    }
    forall i: nat | i < |s.nodes|
      ensures HeldIn(Live(s.bs), s.nodes[i].ptr, NODE_SIZE)
      ensures s.nodes[i].content == [] || HeldIn(Live(s.bs), s.nodes[i].data, |s.nodes[i].content|)
    {
      assert NodeOk(s.bs, s.nodes[i]);
    }
  }

  /** Allocating a node (from `m` to `m1`) and filling it (from `m1` to `m2`) stores the longer list. */
  lemma CreateStored(s: Fs, r: Region, foreign: set<nat>, name: CString, m: seq<byte>, m1: seq<byte>, m2: seq<byte>)
    requires Owns(s, r, foreign) && ListedBut(m, s.nodes, |s.nodes|)
    requires AllocPtr(s.bs, NODE_SIZE) != 0
    requires Framed(m, m1, Live(s.bs), r.lo, r.hi) && Stored(m1, AllocBlocks(s.bs, NODE_SIZE))
    requires var p := AllocPtr(s.bs, NODE_SIZE);
      && FieldsAt(m2, p, Truncated(name), 0, 0, First(s.nodes))
      && Same(m1, m2, 0, p) && Same(m1, m2, p + NODE_SIZE, |m1|)
    ensures var s' := FileList.Create(s, name);
      Stored(m2, s'.bs) && ListedBut(m2, s'.nodes, |s'.nodes|)
    ensures Framed(m, m2, Live(s.bs), r.lo, r.hi)
  {
    var p, bs := AllocPtr(s.bs, NODE_SIZE), AllocBlocks(s.bs, NODE_SIZE);
    var b := AllocAddsOneBlock(s.bs, r.lo, r.hi, NODE_SIZE);
    LivePtrsOfLive(s.bs);
    assert Holds(bs, p, NODE_SIZE);
    PayloadWrite(m1, m2, bs, r.lo, r.hi, p, NODE_SIZE, p, NODE_SIZE);
    assert Live(s.bs) * (LiveExcept(bs, p) * LiveExcept(bs, p)) == Live(s.bs);
    FramedTrans(m, m1, m2, Live(s.bs), LiveExcept(bs, p) * LiveExcept(bs, p), r.lo, r.hi);
    NodesSafe(s, r, foreign);
    ListedFrame(m, m2, s.nodes, |s.nodes|, Live(s.bs), r.lo, r.hi);
    ListedCons(m2, s.nodes, Node(p, Truncated(name), 0, []));
  }

  lemma ListedSkip(m: seq<byte>, nodes: seq<Node>, i: nat, n: Node)
    requires i < |nodes| && n.ptr == nodes[i].ptr && ListedBut(m, nodes, |nodes|)
    ensures ListedBut(m, nodes[i := n], i)
  {
    var ns := nodes[i := n];
    forall j: nat | j < |ns| && j != i ensures NodeAt(m, ns, j) {
      assert NodeAt(m, nodes, j);
      assert First(ns[j + 1..]) == First(nodes[j + 1..]);
    }
  }

  /** Freeing the old buffer of node `i` (from `m` to `m1`) may spoil that buffer and nothing else. */
  lemma DropStored(s: Fs, r: Region, foreign: set<nat>, i: nat, m: seq<byte>, m1: seq<byte>)
    requires Owns(s, r, foreign) && i < |s.nodes| && ListedBut(m, s.nodes, |s.nodes|)
    requires Framed(m, m1, Live(DropBuffer(s, r, i).bs), r.lo, r.hi)
    ensures ListedBut(m1, DropBuffer(s, r, i).nodes, i)
    ensures var n := s.nodes[i]; FieldsAt(m1, n.ptr, n.name, |n.content|, n.data, First(s.nodes[i + 1..]))
  {
    var t, n := DropBuffer(s, r, i), s.nodes[i];
    DropBufferKeepsOwnership(s, r, foreign, i);
    ListedSkip(m, s.nodes, i, t.nodes[i]);
    assert t.nodes == s.nodes[i := t.nodes[i]];
    NodesSafe(t, r, foreign);
    assert HeldIn(Live(t.bs), n.ptr, NODE_SIZE);
    ListedFrame(m, m1, t.nodes, i, Live(t.bs), r.lo, r.hi);
    assert NodeAt(m, s.nodes, i);
    FieldsFrame(m, m1, n.ptr, n.name, |n.content|, n.data, First(s.nodes[i + 1..]));
  }

  lemma FieldsFrame(m: seq<byte>, m': seq<byte>, p: nat, name: CString, size: nat, data: nat, next: nat)
    requires FieldsAt(m, p, name, size, data, next) && Same(m, m', p, p + NODE_SIZE)
    ensures FieldsAt(m', p, name, size, data, next)
  {
  }

  /** The new buffer of node `i` lies in memory, clear of the node itself, whose fields the allocation kept. */
  lemma NewBufferPlace(t: Fs, r: Region, foreign: set<nat>, i: nat, size: Word, m1: seq<byte>, m2: seq<byte>)
    requires Owns(t, r, foreign) && i < |t.nodes| && t.nodes[i].data == 0 && size <= MAX_REQUEST
    requires Framed(m1, m2, Live(t.bs), r.lo, r.hi)
    ensures var n, p := t.nodes[i], AllocPtr(t.bs, size);
      && p < WORD_LIMIT
      && (p != 0 ==> p + size <= r.hi && (p + size <= n.ptr || n.ptr + NODE_SIZE <= p))
      && Same(m1, m2, n.ptr, n.ptr + NODE_SIZE)
  {
    var n := t.nodes[i];
    assert NodeOk(t.bs, n);
    var c :| c in Live(t.bs) && c.Payload() == n.ptr && c.size >= NODE_SIZE;
    assert Same(m1, m2, c.Payload(), c.End());
    if AllocPtr(t.bs, size) != 0 {
      RoundedIsCeiling(size);
      var b := AllocAddsOneBlock(t.bs, r.lo, r.hi, size);
    }
  }

  /** The blocks of the other nodes and of others' allocations are neither node `i` nor its new buffer. */
  lemma OthersUntouched(t: Fs, r: Region, foreign: set<nat>, i: nat, data: seq<byte>)
    requires Owns(t, r, foreign) && i < |t.nodes| && t.nodes[i].data == 0 && |data| <= MAX_REQUEST
    ensures var n := TakeBuffer(t, i, data).nodes[i];
      var q := if n.data == 0 then n.ptr else n.data;
      && SafeBut(LiveExcept(t.bs, n.ptr) * LiveExcept(t.bs, q), t.nodes, i)
      && Live(t.bs) <= Live(AllocBlocks(t.bs, |data|))
      && forall b | b in ForeignLive(t.bs, foreign) :: b.Payload() != n.ptr && b.Payload() != q
  {
    var n := TakeBuffer(t, i, data).nodes[i];
    var q := if n.data == 0 then n.ptr else n.data;
    OwnedMember(t.nodes, i);
    LivePtrsOfLive(t.bs);
    if n.data == 0 {
      TakeFirstFails(t.bs, Rounded(|data|));
    } else {
      var b := AllocAddsOneBlock(t.bs, r.lo, r.hi, |data|);
    }
    forall j: nat | j < |t.nodes| && j != i
      ensures NodeOk(t.bs, t.nodes[j]) && t.nodes[j].ptr != n.ptr && t.nodes[j].ptr != q
      ensures t.nodes[j].data == 0 || (t.nodes[j].data != n.ptr && t.nodes[j].data != q)
    {
      OwnedMember(t.nodes, j);
      UnsharedAt(t.nodes, i, j);
      assert NodeOk(t.bs, t.nodes[j]);
    }
    SafeExcept(t.bs, t.nodes, i, n.ptr, q);
  }

  /** Where writing node `i` and its new buffer may leave traces: not in headers, nor in others' payloads. */
  lemma TakeWritten(t: Fs, r: Region, foreign: set<nat>, i: nat, data: seq<byte>, m2: seq<byte>, m3: seq<byte>)
    requires Owns(t, r, foreign) && i < |t.nodes| && t.nodes[i].data == 0 && |data| <= MAX_REQUEST
    requires Stored(m2, AllocBlocks(t.bs, |data|))
    requires var n := TakeBuffer(t, i, data).nodes[i]; SameBut(m2, m3, n.ptr, NODE_SIZE, n.data, |n.content|)
    ensures var t' := TakeBuffer(t, i, data);
      var n := t'.nodes[i];
      var q := if n.data == 0 then n.ptr else n.data;
      Stored(m3, t'.bs) && Framed(m2, m3, LiveExcept(t'.bs, n.ptr) * LiveExcept(t'.bs, q), r.lo, r.hi)
  {
    var t' := TakeBuffer(t, i, data);
    var n := t'.nodes[i];
    TakeBufferKeepsOwnership(t, r, foreign, i, data);
    assert NodeOk(t'.bs, n);
    PayloadWrite(m2, m3, t'.bs, r.lo, r.hi, n.ptr, NODE_SIZE, if n.data == 0 then n.ptr else n.data, |n.content|);
  }

  /**
   Allocating a buffer for node `i` (from `m1` to `m2`) and then rewriting only that node and the new
   buffer (from `m2` to `m3`) stores the updated list.
   */
  lemma TakeStored(
    t: Fs, r: Region, foreign: set<nat>, i: nat, data: seq<byte>, m1: seq<byte>, m2: seq<byte>, m3: seq<byte>)
    requires Owns(t, r, foreign) && i < |t.nodes| && t.nodes[i].data == 0 && |data| <= MAX_REQUEST
    requires ListedBut(m1, t.nodes, i)
    requires Framed(m1, m2, Live(t.bs), r.lo, r.hi) && Stored(m2, AllocBlocks(t.bs, |data|))
    requires var n, p := t.nodes[i], AllocPtr(t.bs, |data|);
      var stored := if p == 0 then [] else data;
      && FieldsAt(m3, n.ptr, n.name, |stored|, p, First(t.nodes[i + 1..])) && BufferAt(m3, p, stored)
      && SameBut(m2, m3, n.ptr, NODE_SIZE, p, |stored|)
    ensures var t' := TakeBuffer(t, i, data);
      Stored(m3, t'.bs) && ListedBut(m3, t'.nodes, |t'.nodes|)
    ensures Framed(m1, m3, ForeignLive(t.bs, foreign), r.lo, r.hi)
  {
    var t' := TakeBuffer(t, i, data);
    var n := t'.nodes[i];
    var q := if n.data == 0 then n.ptr else n.data;
    assert NodeOk(t.bs, t.nodes[i]);
    TakeWritten(t, r, foreign, i, data, m2, m3);
    var rest := LiveExcept(t'.bs, n.ptr) * LiveExcept(t'.bs, q);
    FramedTrans(m1, m2, m3, Live(t.bs), rest, r.lo, r.hi);
    OthersUntouched(t, r, foreign, i, data);
    ListedFrame(m1, m3, t.nodes, i, LiveExcept(t.bs, n.ptr) * LiveExcept(t.bs, q), r.lo, r.hi);
    ListedUpdate(m3, t.nodes, i, n);
  }

  class Vfs {
    const heap: Heap
    var root: nat
    ghost var nodes: seq<Node>
    /** The live pointers that were allocated by others before `vfs_init`. */
    ghost var foreign: set<nat>

    ghost function Area(): Region
      reads heap
    {
      Region(heap.heapStart, heap.heapEnd)
    }

    ghost function State(): Fs
      reads this, heap
    {
      Fs(heap.blocks, nodes)
    }

    ghost predicate Valid()
      reads this, heap, heap.mem
    {
      && heap.Valid()
      && Owns(State(), Area(), foreign)
      && root == First(nodes)
      && ListedBut(heap.mem[..], nodes, |nodes|)
    }

    /** `vfs_init`, on a heap that others may already have used. */
    constructor (h: Heap)
      requires h.Valid()
      ensures Valid() && heap == h && nodes == [] && foreign == LivePtrs(h.blocks)
    {
      heap := h;
      root := 0;
      nodes := [];
      foreign := LivePtrs(h.blocks);
      new;
      TilesBounds(heap.blocks, heap.heapStart, heap.heapEnd);
      InitOwns(heap.blocks, Area());
    }

    /**
     How node `i` lies in memory: its name and a NUL from offset 0, its size at 32, the address of its data at 36
     and that of the next node at 40; `root` leads to the first.
     */
    lemma NodeLayout(i: nat)
      requires Valid() && i < |nodes|
      ensures var n := nodes[i];
        && |n.name| <= 31 && n.ptr + 44 <= heap.mem.Length
        && heap.mem[n.ptr..n.ptr + |n.name|] == n.name && heap.mem[n.ptr + |n.name|] == 0
        && Load32(heap.mem[..], n.ptr + 32) == |n.content| && Load32(heap.mem[..], n.ptr + 36) == n.data
        && Load32(heap.mem[..], n.ptr + 40) == if i + 1 < |nodes| then nodes[i + 1].ptr else 0
      ensures var n := nodes[i];
        n.data + |n.content| <= heap.mem.Length && heap.mem[n.data..n.data + |n.content|] == n.content
      ensures root == nodes[0].ptr
    {
      assert NodeAt(heap.mem[..], nodes, i);
    }

    /** `name[i]` of a C string. */
    function CharAt(name: CString, i: nat): byte
      requires i <= |name|
    {
      if i < |name| then name[i] else 0
    }

    /** The comparison loop of `vfs_find` on the name stored at `p`. */
    method SameName(name: CString, p: nat, ghost stored: CString) returns (same: bool)
      requires NameAt(heap.mem[..], p, stored)
      ensures same <==> name == stored
    {
      var i := 0;
      while CharAt(name, i) != 0 && heap.mem[p + i] != 0 && CharAt(name, i) == heap.mem[p + i]
        invariant i <= |name| && i <= |stored|
        invariant forall k | 0 <= k < i :: name[k] == stored[k]
        decreases |name| - i
      {
        assert heap.mem[..][p + i] == heap.mem[p + i];
        i := i + 1;
      }
      assert heap.mem[..][p + i] == heap.mem[p + i];
      same := CharAt(name, i) == 0 && heap.mem[p + i] == 0;
      assert (i < |name| ==> name[i] in name) && (i < |stored| ==> stored[i] in stored);
      if same { assert name == stored; }
    }

    /** `vfs_find`. */
    method FindNode(name: CString) returns (p: nat, ghost k: nat)
      requires Valid()
      ensures k == Find(nodes, name, 0)
      ensures var i := Find(nodes, name, 0);
        p == (if i < |nodes| then nodes[i].ptr else 0) && (p == 0 <==> i == |nodes|)
    {
      k := 0;
      p := root;
      assert nodes[0..] == nodes;
      PtrsNonzero(State(), Area(), foreign);
      while p != 0
        invariant k <= |nodes| && p == First(nodes[k..])
        invariant Find(nodes, name, 0) == Find(nodes, name, k)
        decreases |nodes| - k
      {
        assert NodeAt(heap.mem[..], nodes, k);
        var same := SameName(name, p, nodes[k].name);
        if same { return; }
        p := heap.Load(p + 40);
        k := k + 1;
      }
    }

    /** The name-copying loop of `vfs_create`. */
    method CopyName(p: nat, name: CString)
      requires p + MAX_NAME <= heap.mem.Length
      modifies heap.mem
      ensures NameAt(heap.mem[..], p, Truncated(name))
      ensures Same(old(heap.mem[..]), heap.mem[..], 0, p)
      ensures Same(old(heap.mem[..]), heap.mem[..], p + MAX_NAME, heap.mem.Length)
    {
      var i := 0;
      while CharAt(name, i) != 0 && i < MAX_NAME - 1
        invariant i <= |name| && i < MAX_NAME
        invariant forall k | 0 <= k < i :: heap.mem[p + k] == name[k]
        invariant forall a | 0 <= a < heap.mem.Length && !(p <= a < p + MAX_NAME) :: heap.mem[a] == old(heap.mem[a])
        decreases |name| - i
      {
        heap.mem[p + i] := name[i];
        i := i + 1;
      }
      heap.mem[p + i] := 0;
    }

    /** The data-copying loop of `vfs_write`. */
    method CopyIn(p: nat, data: seq<byte>)
      requires p + |data| <= heap.mem.Length
      modifies heap.mem
      ensures BufferAt(heap.mem[..], p, data)
      ensures Same(old(heap.mem[..]), heap.mem[..], 0, p)
      ensures Same(old(heap.mem[..]), heap.mem[..], p + |data|, heap.mem.Length)
    {
      for i := 0 to |data|
        invariant forall k | 0 <= k < i :: heap.mem[p + k] == data[k]
        invariant forall a | 0 <= a < heap.mem.Length && !(p <= a < p + |data|) :: heap.mem[a] == old(heap.mem[a])
      {
        heap.mem[p + i] := data[i];
      }
    }

    /** The assignments of `vfs_create` to the fields of its new node. */
    method WriteNode(p: nat, name: CString, next: Word)
      requires p + NODE_SIZE <= heap.mem.Length
      modifies heap.mem
      ensures FieldsAt(heap.mem[..], p, Truncated(name), 0, 0, next)
      ensures Same(old(heap.mem[..]), heap.mem[..], 0, p)
      ensures Same(old(heap.mem[..]), heap.mem[..], p + NODE_SIZE, heap.mem.Length)
    {
      CopyName(p, name);
      heap.Store(p + 32, 0);
      heap.Store(p + 36, 0);
      heap.Store(p + 40, next);
    }

    method Create(name: CString) returns (ok: nat)
      requires Valid()
      modifies this`root, this`nodes, heap`blocks, heap.mem
      ensures Valid()
      ensures State() == FileList.Create(old(State()), name)
      ensures ok == (if AllocPtr(old(heap.blocks), 44) == 0 then 0 else 1)
      ensures Framed(old(heap.mem[..]), heap.mem[..], ForeignLive(old(heap.blocks), foreign),
        heap.heapStart, heap.heapEnd)
    {
      ghost var s, m := State(), heap.mem[..];
      CreateKeepsOwnership(s, Area(), foreign, name);
      NodesSafe(s, Area(), foreign);
      var p := heap.Alloc(NODE_SIZE);
      ghost var m1 := heap.mem[..];
      if p == 0 {
        TakeFirstFails(s.bs, Rounded(NODE_SIZE));
        ListedFrame(m, m1, nodes, |nodes|, Live(s.bs), heap.heapStart, heap.heapEnd);
        return 0;
      }
      ghost var b := AllocAddsOneBlock(s.bs, heap.heapStart, heap.heapEnd, NODE_SIZE);
      WriteNode(p, name, root);
      CreateStored(s, Area(), foreign, name, m, m1, heap.mem[..]);
      nodes := [Node(p, Truncated(name), 0, [])] + nodes;
      root := p;
      ok := 1;
    }

    /** The end of `vfs_write`: `p` is what the allocator returned for `data`. */
    method SetBuffer(
      ptr: nat, p: Word, data: seq<byte>, ghost name: CString, ghost size: nat, ghost was: nat, ghost next: nat)
      returns (count: int)
      requires |data| < WORD_LIMIT && FieldsAt(heap.mem[..], ptr, name, size, was, next)
      requires p != 0 ==> p + |data| <= heap.mem.Length && (p + |data| <= ptr || ptr + NODE_SIZE <= p)
      modifies heap.mem
      ensures count == if p == 0 then 0 else AsInt(|data|)
      ensures var stored := if p == 0 then [] else data;
        && FieldsAt(heap.mem[..], ptr, name, |stored|, p, next) && BufferAt(heap.mem[..], p, stored)
        && SameBut(old(heap.mem[..]), heap.mem[..], ptr, NODE_SIZE, p, |stored|)
    {
      ghost var m := heap.mem[..];
      heap.Store(ptr + 36, p);
      ghost var m1 := heap.mem[..];
      StoreData(m, m1, ptr, name, size, was, next, p);
      if p == 0 {
        heap.Store(ptr + 32, 0);
        StoreSize(m1, heap.mem[..], ptr, name, size, p, next, 0);
        return 0;
      }
      CopyIn(p, data);
      ghost var m2 := heap.mem[..];
      FieldsFrame(m1, m2, ptr, name, size, p, next);
      heap.Store(ptr + 32, |data|);
      StoreSize(m2, heap.mem[..], ptr, name, size, p, next, |data|);
      count := AsInt(|data|);
    }

    /** Between freeing the old buffer of node `i` and storing the new one: its `size` and `data` are stale. */
    ghost predicate Stale(i: nat, size: nat, was: nat)
      reads this, heap, heap.mem
    {
      && heap.Valid() && Owns(State(), Area(), foreign) && root == First(nodes)
      && i < |nodes| && nodes[i].data == 0 && ListedBut(heap.mem[..], nodes, i)
      && FieldsAt(heap.mem[..], nodes[i].ptr, nodes[i].name, size, was, First(nodes[i + 1..]))
    }

    method DataOf(node: nat, ghost i: nat) returns (data: Word)
      requires i < |nodes| && node == nodes[i].ptr && NodeAt(heap.mem[..], nodes, i)
      ensures data == nodes[i].data
    {
      data := heap.Load(node + 36);
    }

    method FreeIfSet(p: nat)
      requires heap.Valid() && (p == 0 || p in LivePtrs(heap.blocks))
      modifies heap`blocks, heap.mem
      ensures heap.Valid() && heap.blocks == FreeBlocks(old(heap.blocks), heap.heapStart, heap.heapEnd, p)
      ensures Framed(old(heap.mem[..]), heap.mem[..], Live(heap.blocks), heap.heapStart, heap.heapEnd)
    {
      if p != 0 {
        heap.Free(p);
      }
    }

    /** The first half of `vfs_write`. */
    method ReleaseOld(node: nat, ghost i: nat)
      requires Valid() && i < |nodes| && node == nodes[i].ptr
      modifies this`nodes, heap`blocks, heap.mem
      ensures State() == DropBuffer(old(State()), Area(), i)
      ensures Stale(i, |old(nodes)[i].content|, old(nodes)[i].data)
      ensures Framed(old(heap.mem[..]), heap.mem[..], ForeignLive(old(heap.blocks), foreign),
        heap.heapStart, heap.heapEnd)
    {
      ghost var s, r, m := State(), Area(), heap.mem[..];
      DropBufferKeepsOwnership(s, r, foreign, i);
      OwnedMember(nodes, i);
      ForeignSurvives(s, r, foreign, i);
      var oldData := DataOf(node, i);
      FreeIfSet(oldData);
      DropStored(s, r, foreign, i, m, heap.mem[..]);
      nodes := DropBuffer(s, r, i).nodes;
    }

    /** The allocation in `vfs_write`: the new buffer lies clear of the node, whose fields stay. */
    method AllocBuffer(node: nat, n: Word, ghost i: nat, ghost size: nat, ghost was: nat) returns (p: Word)
      requires Stale(i, size, was) && node == nodes[i].ptr && n <= MAX_REQUEST
      modifies heap`blocks, heap.mem
      ensures heap.Valid() && heap.blocks == AllocBlocks(old(heap.blocks), n) && p == AllocPtr(old(heap.blocks), n)
      ensures Framed(old(heap.mem[..]), heap.mem[..], Live(old(heap.blocks)), heap.heapStart, heap.heapEnd)
      ensures FieldsAt(heap.mem[..], node, nodes[i].name, size, was, First(nodes[i + 1..]))
      ensures p != 0 ==> p + n <= heap.mem.Length && (p + n <= node || node + NODE_SIZE <= p)
    {
      ghost var t, m := State(), heap.mem[..];
      var q := heap.Alloc(n);
      NewBufferPlace(t, Area(), foreign, i, n, m, heap.mem[..]);
      p := q;
      FieldsFrame(m, heap.mem[..], node, nodes[i].name, size, was, First(nodes[i + 1..]));
    }

    /** The second half of `vfs_write`, in memory. */
    method PutBuffer(node: nat, data: seq<byte>, ghost i: nat, ghost size: nat, ghost was: nat) returns (count: int)
      requires Stale(i, size, was) && node == nodes[i].ptr && |data| <= MAX_REQUEST
      modifies heap`blocks, heap.mem
      ensures heap.Valid() && heap.blocks == AllocBlocks(old(heap.blocks), |data|)
      ensures count == if AllocPtr(old(heap.blocks), |data|) == 0 then 0 else AsInt(|data|)
      ensures var after := TakeBuffer(old(State()), i, data).nodes; ListedBut(heap.mem[..], after, |after|)
      ensures Framed(old(heap.mem[..]), heap.mem[..], ForeignLive(old(heap.blocks), foreign),
        heap.heapStart, heap.heapEnd)
    {
      ghost var t, m := State(), heap.mem[..];
      var p := AllocBuffer(node, |data|, i, size, was);
      ghost var m1 := heap.mem[..];
      count := SetBuffer(node, p, data, nodes[i].name, size, was, First(nodes[i + 1..]));
      TakeStored(t, Area(), foreign, i, data, m, m1, heap.mem[..]);
    }

    /** The second half of `vfs_write`. */
    method StoreNew(node: nat, data: seq<byte>, ghost i: nat, ghost size: nat, ghost was: nat) returns (count: int)
      requires Stale(i, size, was) && node == nodes[i].ptr && |data| <= MAX_REQUEST
      modifies this`nodes, heap`blocks, heap.mem
      ensures Valid() && State() == TakeBuffer(old(State()), i, data)
      ensures count == if AllocPtr(old(heap.blocks), |data|) == 0 then 0 else AsInt(|data|)
      ensures Framed(old(heap.mem[..]), heap.mem[..], ForeignLive(old(heap.blocks), foreign),
        heap.heapStart, heap.heapEnd)
    {
      ghost var t := State();
      TakeBufferKeepsOwnership(t, Area(), foreign, i, data);
      count := PutBuffer(node, data, i, size, was);
      nodes := TakeBuffer(t, i, data).nodes;
      assert State() == TakeBuffer(t, i, data);
    }

    /** `vfs_write` once the node is found. */
    method Rewrite(node: nat, data: seq<byte>, ghost i: nat) returns (count: int)
      requires Valid() && i < |nodes| && node == nodes[i].ptr && |data| <= MAX_REQUEST
      modifies this`nodes, heap`blocks, heap.mem
      ensures Valid() && State() == TakeBuffer(DropBuffer(old(State()), Area(), i), i, data)
      ensures CountIs(count, if AllocPtr(DropBuffer(old(State()), Area(), i).bs, |data|) == 0 then 0 else |data|)
      ensures Framed(old(heap.mem[..]), heap.mem[..], ForeignLive(old(heap.blocks), foreign),
        heap.heapStart, heap.heapEnd)
    {
      ghost var s, m := State(), heap.mem[..];
      ReleaseOld(node, i);
      ghost var m1 := heap.mem[..];
      count := StoreNew(node, data, i, |s.nodes[i].content|, s.nodes[i].data);
      AsIntExact(0);
      AsIntExact(|data|);
      ForeignSurvives(s, Area(), foreign, i);
      FramedTrans(m, m1, heap.mem[..], ForeignLive(s.bs, foreign), ForeignLive(s.bs, foreign),
        heap.heapStart, heap.heapEnd);
    }

    method Write(name: CString, data: seq<byte>) returns (count: int)
      requires Valid() && |data| <= MAX_REQUEST
      modifies this`nodes, heap`blocks, heap.mem
      ensures Valid()
      ensures State() == FileList.Write(old(State()), Area(), name, data)
      ensures CountIs(count, if WriteSucceeds(old(State()), Area(), name, data) then |data| else 0)
      ensures !WriteSucceeds(old(State()), Area(), name, data) ==> count == 0
      ensures WriteSucceeds(old(State()), Area(), name, data) && |data| < 0x8000_0000 ==> count == |data|
      ensures Framed(old(heap.mem[..]), heap.mem[..], ForeignLive(old(heap.blocks), foreign),
        heap.heapStart, heap.heapEnd)
    {
      var node, i := FindNode(name);
      if node == 0 { return 0; }
      ghost var wanted := if WriteSucceeds(State(), Area(), name, data) then |data| else 0;
      count := Rewrite(node, data, i);
      CountIsExact(count, wanted);
    }

    /** The data-copying loop of `vfs_read`. */
    method CopyOut(p: nat, buffer: array<byte>, size: nat, ghost content: seq<byte>)
      requires BufferAt(heap.mem[..], p, content) && size <= |content| && size <= buffer.Length && buffer != heap.mem
      modifies buffer
      ensures buffer[..] == content[..size] + old(buffer[..])[size..]
    {
      for i := 0 to size
        invariant forall k | 0 <= k < i :: buffer[k] == content[k]
        invariant forall k | i <= k < buffer.Length :: buffer[k] == old(buffer[k])
        invariant heap.mem[..] == old(heap.mem[..])
      {
        assert heap.mem[..][p + i] == content[i];
        buffer[i] := heap.mem[p + i];
      }
    }

    /** The fields `size` and `data` that `vfs_read` consults. */
    method SizeAndData(node: nat, ghost i: nat) returns (size: Word, data: Word)
      requires i < |nodes| && node == nodes[i].ptr && NodeAt(heap.mem[..], nodes, i)
      ensures size == |nodes[i].content| && data == nodes[i].data
    {
      size := heap.Load(node + 32);
      data := heap.Load(node + 36);
    }

    /** The part of `vfs_read` after the checks: the buffer gets what is there, up to `m` bytes. */
    method ReadNode(node: nat, buffer: array<byte>, m: Word, ghost i: nat) returns (size: Word)
      requires Valid() && buffer != heap.mem && i < |nodes| && node == nodes[i].ptr
      requires m <= buffer.Length || |nodes[i].content| <= buffer.Length
      modifies buffer
      ensures heap.mem[..] == old(heap.mem[..])
      ensures size == if m < |nodes[i].content| then m else |nodes[i].content|
      ensures buffer[..] == nodes[i].content[..size] + old(buffer[..])[size..]
    {
      assert NodeOk(heap.blocks, nodes[i]) && NodeAt(heap.mem[..], nodes, i);
      ghost var n := nodes[i];
      var fileSize, data := SizeAndData(node, i);
      if data == 0 { return 0; }
      size := m;
      if size > fileSize { size := fileSize; }
      CopyOut(data, buffer, size, n.content);
    }

    method Read(name: CString, buffer: array?<byte>, m: Word) returns (count: int)
      requires Valid() && buffer != heap.mem
      requires buffer != null ==> |ReadBytes(nodes, name, m)| <= buffer.Length
      modifies if buffer == null then {} else {buffer}
      ensures Valid() && State() == old(State()) && heap.mem[..] == old(heap.mem[..])
      ensures buffer == null ==> count == 0
      ensures buffer != null ==>
        var bytes := ReadBytes(nodes, name, m);
        && CountIs(count, |bytes|) && (|bytes| < 0x8000_0000 ==> count == |bytes|)
        && buffer[..] == bytes + old(buffer[..])[|bytes|..]
    {
      var node, i := FindNode(name);
      if node == 0 || buffer == null { return 0; }
      var size := ReadNode(node, buffer, m, i);
      AsIntExact(size);
      count := AsInt(size);
      CountIsExact(count, size);
    }
  }
}
