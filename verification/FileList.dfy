/**
 The file list of filesystem/vfs.c as a value: the block list of the heap it allocates from together
 with its nodes, newest first. Module VfsMemory shows that the code on raw memory computes these
 functions; the lemmas here say what every run of creates and writes keeps.
 */
module FileList {
  import opened Bytes
  import opened Options
  import opened Blocks

  const MAX_NAME := 32
  /** `sizeof(vfs_node_t)` on the 32-bit target. */
  const NODE_SIZE := 44

  /** A C string without its terminating NUL. */
  type CString = s: seq<byte> | 0 !in s witness []

  /** A list node: its address, its name, its `data` pointer (0 for NULL) and the bytes stored there. */
  datatype Node = Node(ptr: nat, name: CString, data: nat, content: seq<byte>)

  datatype Fs = Fs(bs: seq<Block>, nodes: seq<Node>)

  /** The addresses the heap manages. */
  datatype Region = Region(lo: nat, hi: nat) {
    ghost predicate Ok() { 0 < lo && lo % 4 == 0 && lo + HEADER <= hi < WORD_LIMIT }
  }

  // ---------------------------------------------------------------- operations

  /** What `vfs_create` stores of a name: at most 31 bytes. */
  function Truncated(name: CString): CString {
    if |name| < MAX_NAME then name else name[..MAX_NAME - 1]
  }

  /** The index from `i` on of the first node called `name`, `|nodes|` if there is none. */
  ghost function Find(nodes: seq<Node>, name: CString, i: nat): (k: nat)
    requires i <= |nodes|
    ensures i <= k <= |nodes|
    ensures k < |nodes| ==> nodes[k].name == name
    ensures forall j | i <= j < k :: nodes[j].name != name
    decreases |nodes| - i
  {
    if i == |nodes| || nodes[i].name == name then i else Find(nodes, name, i + 1)
  }

  ghost function Create(s: Fs, name: CString): Fs {
    var p := AllocPtr(s.bs, NODE_SIZE);
    Fs(AllocBlocks(s.bs, NODE_SIZE), if p == 0 then s.nodes else [Node(p, Truncated(name), 0, [])] + s.nodes)
  }

  /** The first half of `vfs_write`: the old buffer, if any, goes back to the heap. */
  ghost function DropBuffer(s: Fs, r: Region, i: nat): Fs
    requires i < |s.nodes|
  {
    var n := s.nodes[i];
    if n.data == 0 then s
    else Fs(FreeBlocks(s.bs, r.lo, r.hi, n.data), s.nodes[i := n.(data := 0, content := [])])
  }

  /** The second half of `vfs_write`: a new buffer, if there is room for one. */
  ghost function TakeBuffer(s: Fs, i: nat, data: seq<byte>): Fs
    requires i < |s.nodes| && |data| < WORD_LIMIT
  {
    var p := AllocPtr(s.bs, |data|);
    Fs(AllocBlocks(s.bs, |data|), if p == 0 then s.nodes else s.nodes[i := s.nodes[i].(data := p, content := data)])
  }

  ghost function Write(s: Fs, r: Region, name: CString, data: seq<byte>): Fs
    requires |data| < WORD_LIMIT
  {
    var i := Find(s.nodes, name, 0);
    if i == |s.nodes| then s else TakeBuffer(DropBuffer(s, r, i), i, data)
  }

  /** Whether `vfs_write` reports success, that is, a nonzero count. */
  ghost predicate WriteSucceeds(s: Fs, r: Region, name: CString, data: seq<byte>)
    requires |data| < WORD_LIMIT
  {
    var i := Find(s.nodes, name, 0);
    i < |s.nodes| && AllocPtr(DropBuffer(s, r, i).bs, |data|) != 0
  }

  // ---------------------------------------------------------------- ownership

  /** A live block with payload pointer `p` has room for `k` bytes. */
  ghost predicate Holds(bs: seq<Block>, p: nat, k: nat) {
    exists b | b in Live(bs) :: b.Payload() == p && b.size >= k
  }

  ghost function Owned(nodes: seq<Node>): set<nat> {
    (set n | n in nodes :: n.ptr) + (set n | n in nodes && n.data != 0 :: n.data)
  }

  /** Two nodes share neither their memory nor their buffers. */
  ghost predicate Apart(a: Node, b: Node) {
    a.ptr != b.ptr && a.ptr != b.data && a.data != b.ptr && (a.data == b.data ==> a.data == 0)
  }

  ghost predicate Unshared(nodes: seq<Node>) {
    forall i, j {:trigger Apart(nodes[i], nodes[j])} | 0 <= i < j < |nodes| :: Apart(nodes[i], nodes[j])
  }

  ghost predicate NodeOk(bs: seq<Block>, n: Node) {
    && |n.name| < MAX_NAME && n.ptr != n.data
    && Holds(bs, n.ptr, NODE_SIZE)
    && (n.data == 0 <==> n.content == [])
    && (n.data != 0 ==> Holds(bs, n.data, |n.content|))
  }

  /**
   The live allocations are exactly the nodes, their buffers and the pointers `foreign` that others
   allocated; nothing is leaked, shared or dangling.
   */
  ghost predicate Owns(s: Fs, r: Region, foreign: set<nat>) {
    && r.Ok() && HeapOk(s.bs, r.lo, r.hi)
    && LivePtrs(s.bs) == Owned(s.nodes) + foreign && Owned(s.nodes) !! foreign
    && Unshared(s.nodes)
    && forall i {:trigger NodeOk(s.bs, s.nodes[i])} | 0 <= i < |s.nodes| :: NodeOk(s.bs, s.nodes[i])
  }

  /** Pointers into the heap are never NULL and lie below its end unless the block is empty. */
  lemma HoldsBounds(bs: seq<Block>, r: Region, p: nat, k: nat)
    requires r.Ok() && HeapOk(bs, r.lo, r.hi) && Holds(bs, p, k)
    ensures p in LivePtrs(bs) && r.lo < p && p + k <= r.hi && p % 4 == 0
  {
    TilesBounds(bs, r.lo, r.hi);
    LivePtrsOfLive(bs);
  }

  /** A node stays fine while no live block goes away, except possibly one it does not use. */
  lemma NodeStaysOk(bs: seq<Block>, bs': seq<Block>, n: Node, gone: nat)
    requires NodeOk(bs, n) && n.ptr != gone && (n.data == 0 || n.data != gone)
    requires forall b | b in Live(bs) && b.Payload() != gone :: b in Live(bs')
    ensures NodeOk(bs', n)
  {
  }

  /** After `vfs_init` there are no nodes; whatever is allocated by then belongs to others. */
  lemma InitOwns(bs: seq<Block>, r: Region)
    requires r.Ok() && HeapOk(bs, r.lo, r.hi)
    ensures Owns(Fs(bs, []), r, LivePtrs(bs))
  {
  }

  lemma CreateNodesOk(s: Fs, r: Region, foreign: set<nat>)
    requires Owns(s, r, foreign) && AllocPtr(s.bs, NODE_SIZE) != 0
    ensures forall i | 0 <= i < |s.nodes| :: NodeOk(AllocBlocks(s.bs, NODE_SIZE), s.nodes[i])
    ensures Holds(AllocBlocks(s.bs, NODE_SIZE), AllocPtr(s.bs, NODE_SIZE), NODE_SIZE)
  {
    var b := AllocAddsOneBlock(s.bs, r.lo, r.hi, NODE_SIZE);
    PtrsNonzero(s, r, foreign);
    forall i | 0 <= i < |s.nodes| ensures NodeOk(AllocBlocks(s.bs, NODE_SIZE), s.nodes[i]) {
      assert NodeOk(s.bs, s.nodes[i]);
      NodeStaysOk(s.bs, AllocBlocks(s.bs, NODE_SIZE), s.nodes[i], 0);
    }
  }

  lemma CreateKeepsOwnership(s: Fs, r: Region, foreign: set<nat>, name: CString)
    requires Owns(s, r, foreign)
    ensures Owns(Create(s, name), r, foreign)
  {
    if AllocPtr(s.bs, NODE_SIZE) == 0 {
      TakeFirstFails(s.bs, Rounded(NODE_SIZE));
    } else {
      var s' := Create(s, name);
      var b := AllocAddsOneBlock(s.bs, r.lo, r.hi, NODE_SIZE);
      CreateNodesOk(s, r, foreign);
      PtrsNonzero(s, r, foreign);
      NewNodeUnshared(s.nodes, s'.nodes[0]);
      OwnedCons(s'.nodes[0], s.nodes);
      forall i | 0 <= i < |s'.nodes| ensures NodeOk(s'.bs, s'.nodes[i]) {
        if i > 0 { assert s'.nodes[i] == s.nodes[i - 1]; }
      }
    }
  }

  lemma OwnedCons(n: Node, nodes: seq<Node>)
    ensures Owned([n] + nodes) == Owned(nodes) + {n.ptr} + (if n.data == 0 then {} else {n.data})
  {
    assert n in [n] + nodes;
    assert forall k | k in nodes :: k in [n] + nodes;
  }

  lemma OwnedMember(nodes: seq<Node>, i: nat)
    requires i < |nodes|
    ensures nodes[i].ptr in Owned(nodes)
    ensures nodes[i].data != 0 ==> nodes[i].data in Owned(nodes)
  {
    assert nodes[i] in nodes;
  }

  lemma NewNodeUnshared(nodes: seq<Node>, n: Node)
    requires Unshared(nodes) && n.ptr !in Owned(nodes) && n.ptr != 0 && n.data == 0
    requires forall i | 0 <= i < |nodes| :: nodes[i].ptr != 0
    ensures Unshared([n] + nodes)
  {
    var ns := [n] + nodes;
    forall i | 0 <= i < |nodes| ensures nodes[i].ptr != n.ptr && nodes[i].data != n.ptr {
      OwnedMember(nodes, i);
    }
    forall j, k {:trigger Apart(ns[j], ns[k])} | 0 <= j < k < |ns| ensures Apart(ns[j], ns[k]) {
      if j > 0 { UnsharedAt(nodes, j - 1, k - 1); }
    }
  }

  lemma UnsharedAt(nodes: seq<Node>, i: nat, j: nat)
    requires Unshared(nodes) && i < |nodes| && j < |nodes| && i != j
    ensures Apart(nodes[i], nodes[j])
  {
    assert if i < j then Apart(nodes[i], nodes[j]) else Apart(nodes[j], nodes[i]);
  }

  /** Exchanging the buffer of one node exchanges one owned pointer. */
  lemma OwnedExchange(nodes: seq<Node>, i: nat, n: Node)
    requires i < |nodes| && Unshared(nodes) && n.ptr == nodes[i].ptr
    requires nodes[i].ptr != nodes[i].data
    ensures Owned(nodes[i := n]) ==
      Owned(nodes) - (if nodes[i].data == 0 then {} else {nodes[i].data}) + (if n.data == 0 then {} else {n.data})
  {
    var ns, p := nodes[i := n], nodes[i].data;
    forall q ensures q in Owned(ns) <==> (q in Owned(nodes) && (q != p || p == 0)) || (q == n.data != 0) {
      if q in Owned(nodes) && (q != p || p == 0) {
        var j :| 0 <= j < |nodes| && (q == nodes[j].ptr || q == nodes[j].data != 0);
        assert ns[j] in ns;
      } else if q == n.data != 0 {
        assert ns[i] in ns;
      }
      if q in Owned(ns) {
        var j :| 0 <= j < |ns| && (q == ns[j].ptr || q == ns[j].data != 0);
        OwnedMember(nodes, j);
        if j != i { UnsharedAt(nodes, i, j); }
      }
    }
  }

  lemma ExchangeUnshared(nodes: seq<Node>, i: nat, n: Node)
    requires i < |nodes| && Unshared(nodes) && n.ptr == nodes[i].ptr
    requires n.data == 0 || n.data !in Owned(nodes)
    requires forall j | 0 <= j < |nodes| :: nodes[j].ptr != 0
    ensures Unshared(nodes[i := n])
  {
    forall j | 0 <= j < |nodes|
      ensures nodes[j].ptr in Owned(nodes) && (nodes[j].data != 0 ==> nodes[j].data in Owned(nodes))
    {
      OwnedMember(nodes, j);
    }
    var ns := nodes[i := n];
    forall j, k {:trigger Apart(ns[j], ns[k])} | 0 <= j < k < |ns| ensures Apart(ns[j], ns[k]) {
      UnsharedAt(nodes, j, k);
    }
  }

  lemma PtrsNonzero(s: Fs, r: Region, foreign: set<nat>)
    requires Owns(s, r, foreign)
    ensures forall j | 0 <= j < |s.nodes| :: s.nodes[j].ptr != 0
  {
    forall j | 0 <= j < |s.nodes| ensures s.nodes[j].ptr != 0 {
      assert NodeOk(s.bs, s.nodes[j]);
      HoldsBounds(s.bs, r, s.nodes[j].ptr, NODE_SIZE);
    }
  }

  lemma DropBufferNodesOk(s: Fs, r: Region, foreign: set<nat>, i: nat)
    requires Owns(s, r, foreign) && i < |s.nodes| && s.nodes[i].data != 0
    ensures forall j | 0 <= j < |s.nodes| :: NodeOk(DropBuffer(s, r, i).bs, DropBuffer(s, r, i).nodes[j])
  {
    var n, s' := s.nodes[i], DropBuffer(s, r, i);
    FreeRemovesOneBlock(s.bs, r.lo, r.hi, n.data);
    forall j | 0 <= j < |s.nodes| ensures NodeOk(s'.bs, s'.nodes[j]) {
      assert NodeOk(s.bs, s.nodes[j]) && NodeOk(s.bs, n);
      if j != i { UnsharedAt(s.nodes, i, j); }
      NodeStaysOk(s.bs, s'.bs, if j == i then n.(data := 0, content := []) else s.nodes[j], n.data);
    }
  }

  lemma DropBufferPointers(s: Fs, r: Region, foreign: set<nat>, i: nat)
    requires Owns(s, r, foreign) && i < |s.nodes| && s.nodes[i].data != 0
    ensures var ns := DropBuffer(s, r, i).nodes;
      Unshared(ns) && Owned(ns) == Owned(s.nodes) - {s.nodes[i].data}
    ensures s.nodes[i].data in Owned(s.nodes)
  {
    assert NodeOk(s.bs, s.nodes[i]);
    PtrsNonzero(s, r, foreign);
    OwnedExchange(s.nodes, i, DropBuffer(s, r, i).nodes[i]);
    OwnedMember(s.nodes, i);
    ExchangeUnshared(s.nodes, i, DropBuffer(s, r, i).nodes[i]);
  }

  lemma DropBufferKeepsOwnership(s: Fs, r: Region, foreign: set<nat>, i: nat)
    requires Owns(s, r, foreign) && i < |s.nodes|
    ensures Owns(DropBuffer(s, r, i), r, foreign) && DropBuffer(s, r, i).nodes[i].data == 0
  {
    var n := s.nodes[i];
    if n.data != 0 {
      assert NodeOk(s.bs, n);
      HoldsBounds(s.bs, r, n.data, |n.content|);
      FreeRemovesOneBlock(s.bs, r.lo, r.hi, n.data);
      DropBufferPointers(s, r, foreign, i);
      DropBufferNodesOk(s, r, foreign, i);
    }
  }

  lemma TakeBufferKeepsOwnership(s: Fs, r: Region, foreign: set<nat>, i: nat, data: seq<byte>)
    requires Owns(s, r, foreign) && i < |s.nodes| && s.nodes[i].data == 0 && |data| <= MAX_REQUEST
    ensures Owns(TakeBuffer(s, i, data), r, foreign)
  {
    var s' := TakeBuffer(s, i, data);
    if AllocPtr(s.bs, |data|) == 0 {
      TakeFirstFails(s.bs, Rounded(|data|));
    } else {
      var b := AllocAddsOneBlock(s.bs, r.lo, r.hi, |data|);
      var n := s'.nodes[i];
      RoundedIsCeiling(|data|);
      PtrsNonzero(s, r, foreign);
      OwnedExchange(s.nodes, i, n);
      ExchangeUnshared(s.nodes, i, n);
      assert Holds(s'.bs, n.data, |data|);
      forall j | 0 <= j < |s.nodes| ensures NodeOk(s'.bs, s'.nodes[j]) {
        assert NodeOk(s.bs, s.nodes[j]);
        NodeStaysOk(s.bs, s'.bs, s.nodes[j], 0);
      }
    }
  }

  lemma WriteKeepsOwnership(s: Fs, r: Region, foreign: set<nat>, name: CString, data: seq<byte>)
    requires Owns(s, r, foreign) && |data| <= MAX_REQUEST
    ensures Owns(Write(s, r, name, data), r, foreign)
  {
    var i := Find(s.nodes, name, 0);
    if i < |s.nodes| {
      DropBufferKeepsOwnership(s, r, foreign, i);
      TakeBufferKeepsOwnership(DropBuffer(s, r, i), r, foreign, i, data);
    }
  }

  // ---------------------------------------------------------------- whole runs

  datatype FsOp = CreateOp(name: CString) | WriteOp(name: CString, data: seq<byte>)

  ghost predicate OpOk(op: FsOp) {
    op.WriteOp? ==> |op.data| <= MAX_REQUEST
  }

  ghost function Step(s: Fs, r: Region, op: FsOp): Fs
    requires OpOk(op)
  {
    match op
    case CreateOp(name) => Create(s, name)
    case WriteOp(name, data) => Write(s, r, name, data)
  }

  ghost function Run(s: Fs, r: Region, ops: seq<FsOp>): Fs
    requires forall op | op in ops :: OpOk(op)
  {
    if ops == [] then s else Step(Run(s, r, ops[..|ops| - 1]), r, ops[|ops| - 1])
  }

  /**
   After any run of creates and writes, successful or not, the live allocations are exactly the listed
   nodes, their buffers and what others had allocated before.
   */
  lemma {:induction false} RunKeepsOwnership(s: Fs, r: Region, foreign: set<nat>, ops: seq<FsOp>)
    requires Owns(s, r, foreign) && forall op | op in ops :: OpOk(op)
    ensures Owns(Run(s, r, ops), r, foreign)
  {
    if ops != [] {
      assert OpOk(ops[|ops| - 1]);
      var t := Run(s, r, ops[..|ops| - 1]);
      RunKeepsOwnership(s, r, foreign, ops[..|ops| - 1]);
      match ops[|ops| - 1] {
        case CreateOp(name) => CreateKeepsOwnership(t, r, foreign, name);
        case WriteOp(name, data) => WriteKeepsOwnership(t, r, foreign, name, data);
      }
    }
  }

  // ---------------------------------------------------------------- when a write succeeds

  /** The live blocks other than the one with payload pointer `p`. */
  ghost function LiveExcept(bs: seq<Block>, p: nat): set<Block> {
    set b | b in Live(bs) && b.Payload() != p
  }

  lemma LiveAfterDrop(s: Fs, r: Region, foreign: set<nat>, i: nat)
    requires Owns(s, r, foreign) && i < |s.nodes|
    ensures HeapOk(DropBuffer(s, r, i).bs, r.lo, r.hi)
    ensures Live(DropBuffer(s, r, i).bs) == LiveExcept(s.bs, s.nodes[i].data)
  {
    var n := s.nodes[i];
    assert NodeOk(s.bs, n);
    if n.data != 0 {
      HoldsBounds(s.bs, r, n.data, |n.content|);
      FreeRemovesOneBlock(s.bs, r.lo, r.hi, n.data);
    }
  }

  /**
   A write succeeds exactly when the file exists, there is something to write, and the heap without the
   file's old buffer has room for the new one.
   */
  lemma WriteExact(s: Fs, r: Region, foreign: set<nat>, name: CString, data: seq<byte>)
    requires Owns(s, r, foreign) && |data| <= MAX_REQUEST
    ensures var i := Find(s.nodes, name, 0);
      WriteSucceeds(s, r, name, data) <==>
        i < |s.nodes| && data != [] &&
        exists a :: Room(LiveExcept(s.bs, s.nodes[i].data), r.lo, r.hi, a, Rounded(|data|))
  {
    var i := Find(s.nodes, name, 0);
    if i < |s.nodes| && data != [] {
      LiveAfterDrop(s, r, foreign, i);
      AllocExact(DropBuffer(s, r, i).bs, r.lo, r.hi, |data|);
    }
  }

  /** Overwriting a file with at most as many bytes as it has never fails, however full the heap is. */
  lemma RewriteNeverFails(s: Fs, r: Region, foreign: set<nat>, name: CString, data: seq<byte>)
    requires Owns(s, r, foreign)
    requires var i := Find(s.nodes, name, 0);
      i < |s.nodes| && 0 < |data| <= |s.nodes[i].content|
    ensures |data| <= MAX_REQUEST && WriteSucceeds(s, r, name, data)
  {
    var i := Find(s.nodes, name, 0);
    var n := s.nodes[i];
    assert NodeOk(s.bs, n);
    var b :| b in Live(s.bs) && b.Payload() == n.data && b.size >= |n.content|;
    TilesBounds(s.bs, r.lo, r.hi);
    assert OnGrid(b);
    RoundedIsLeast(|data|, b.size);
    var others := LiveExcept(s.bs, n.data);
    forall c | c in others ensures c.End() <= b.addr || b.End() <= c.addr {
      BlocksDisjoint(s.bs, r.lo, r.hi, b, c);
    }
    assert Room(others, r.lo, r.hi, b.addr, Rounded(|data|));
    WriteExact(s, r, foreign, name, data);
  }

  // ---------------------------------------------------------------- contents: an association list with shadowing

  /** What a read of `name` can see: the content of the newest node of that name. */
  ghost function Lookup(nodes: seq<Node>, name: CString): Option<seq<byte>> {
    var i := Find(nodes, name, 0);
    if i == |nodes| then None else Some(nodes[i].content)
  }

  /** The bytes `vfs_read` delivers into a buffer of `m` bytes. */
  ghost function ReadBytes(nodes: seq<Node>, name: CString, m: nat): seq<byte> {
    match Lookup(nodes, name)
    case None => []
    case Some(content) => if m < |content| then content[..m] else content
  }

  lemma FindIsFirst(nodes: seq<Node>, name: CString, k: nat)
    requires k <= |nodes| && (k < |nodes| ==> nodes[k].name == name)
    requires forall j | 0 <= j < k :: nodes[j].name != name
    ensures Find(nodes, name, 0) == k
  {
  }

  /** A write decides what its own name reads as, and nothing else; a failed write leaves the file empty. */
  lemma WriteLookup(s: Fs, r: Region, foreign: set<nat>, name: CString, data: seq<byte>, other: CString)
    requires Owns(s, r, foreign) && |data| <= MAX_REQUEST
    ensures Lookup(s.nodes, name) == None ==> Write(s, r, name, data) == s && !WriteSucceeds(s, r, name, data)
    ensures Lookup(s.nodes, name) != None ==>
      Lookup(Write(s, r, name, data).nodes, name) == Some(if WriteSucceeds(s, r, name, data) then data else [])
    ensures other != name ==> Lookup(Write(s, r, name, data).nodes, other) == Lookup(s.nodes, other)
  {
    var i, s' := Find(s.nodes, name, 0), Write(s, r, name, data);
    if i < |s.nodes| {
      assert NodeOk(s.bs, s.nodes[i]);
      assert |s'.nodes| == |s.nodes|;
      assert forall j | 0 <= j < |s.nodes| ::
        s'.nodes[j].name == s.nodes[j].name && (j != i ==> s'.nodes[j] == s.nodes[j]);
      FindIsFirst(s'.nodes, name, i);
      FindIsFirst(s'.nodes, other, Find(s.nodes, other, 0));
    }
  }

  /**
   A write leaves a file empty exactly if there is nothing to write, or if the heap without the file's old
   buffer has no room: the old content is gone before the new buffer is asked for.
   */
  lemma WriteEmptiesIff(s: Fs, r: Region, foreign: set<nat>, name: CString, data: seq<byte>)
    requires Owns(s, r, foreign) && |data| <= MAX_REQUEST && Lookup(s.nodes, name) != None
    ensures Lookup(Write(s, r, name, data).nodes, name) == Some([]) <==>
      data == [] || !exists a ::
        Room(LiveExcept(s.bs, s.nodes[Find(s.nodes, name, 0)].data), r.lo, r.hi, a, Rounded(|data|))
  {
    WriteLookup(s, r, foreign, name, data, name);
    WriteExact(s, r, foreign, name, data);
  }

  /** Writing zero bytes to a file of any content empties it and reports failure. */
  lemma ZeroByteWriteEmpties(s: Fs, r: Region, foreign: set<nat>, name: CString)
    requires Owns(s, r, foreign) && Lookup(s.nodes, name) != None
    ensures !WriteSucceeds(s, r, name, []) && Lookup(Write(s, r, name, []).nodes, name) == Some([])
  {
    WriteLookup(s, r, foreign, name, [], name);
  }

  /** A successful write followed by a read of `m` bytes delivers the first min(m, size) bytes written. */
  lemma WriteThenRead(s: Fs, r: Region, foreign: set<nat>, name: CString, data: seq<byte>, m: nat)
    requires Owns(s, r, foreign) && |data| <= MAX_REQUEST && WriteSucceeds(s, r, name, data)
    ensures ReadBytes(Write(s, r, name, data).nodes, name, m) == if m < |data| then data[..m] else data
  {
    WriteLookup(s, r, foreign, name, data, name);
  }

  /** The name by which a file created as `name` is found: its first 31 bytes. */
  ghost function Known(name: CString): CString {
    if |name| <= 31 then name else name[..31]
  }

  /**
   A create succeeds exactly if there is room for a node of 44 bytes; the file is then found, empty, under its
   whole name if that has at most 31 bytes, and otherwise under the first 31 of them and not under its name.
   */
  lemma CreatedIsFound(s: Fs, r: Region, foreign: set<nat>, name: CString)
    requires Owns(s, r, foreign)
    ensures (exists a :: Room(Live(s.bs), r.lo, r.hi, a, 44)) <==> |Create(s, name).nodes| == |s.nodes| + 1
    ensures |Create(s, name).nodes| == |s.nodes| + 1 && |name| <= 31 ==>
      Lookup(Create(s, name).nodes, name) == Some([])
    ensures |Create(s, name).nodes| == |s.nodes| + 1 && |name| >= 32 ==>
      Lookup(Create(s, name).nodes, name[..31]) == Some([]) && Lookup(Create(s, name).nodes, name) == None
  {
    AllocExact(s.bs, r.lo, r.hi, 44);
    CreateLookup(s, name, name);
    if |name| >= 32 { LongNamesNeverFound(s, r, foreign, name); }
  }

  /**
   What can be written and read right after a successful create: data that is not empty and finds room is read
   back; for a long name only through its first 31 bytes, while a write to the name itself does nothing.
   */
  lemma CreateThenWriteThenRead(s: Fs, r: Region, foreign: set<nat>, name: CString, data: seq<byte>, m: nat)
    requires Owns(s, r, foreign) && AllocPtr(s.bs, 44) != 0 && |data| <= 0xFFFF_FFFC
    ensures var t, key := Create(s, name), if |name| <= 31 then name else name[..31];
      && (WriteSucceeds(t, r, key, data) <==>
        data != [] && exists a :: Room(Live(t.bs), r.lo, r.hi, a, Rounded(|data|)))
      && ReadBytes(Write(t, r, key, data).nodes, key, m)
        == (if !WriteSucceeds(t, r, key, data) then [] else if m < |data| then data[..m] else data)
    ensures |name| >= 32 ==>
      Write(Create(s, name), r, name, data) == Create(s, name) && !WriteSucceeds(Create(s, name), r, name, data)
  {
    var t, key := Create(s, name), Known(name);
    CreateKeepsOwnership(s, r, foreign, name);
    CreateLookup(s, name, key);
    FindIsFirst(t.nodes, key, 0);
    WriteExact(t, r, foreign, key, data);
    LiveExceptNull(t, r, foreign);
    WriteLookup(t, r, foreign, key, data, key);
    if |name| >= 32 {
      LongNamesNeverFound(s, r, foreign, name);
      WriteLookup(t, r, foreign, name, data, name);
    }
  }

  lemma LiveExceptNull(s: Fs, r: Region, foreign: set<nat>)
    requires Owns(s, r, foreign)
    ensures LiveExcept(s.bs, 0) == Live(s.bs)
  {
    TilesBounds(s.bs, r.lo, r.hi);
  }

  /** A successful create makes an empty file that shadows older ones of that name and disturbs no other. */
  lemma CreateLookup(s: Fs, name: CString, other: CString)
    ensures AllocPtr(s.bs, 44) != 0 ==> Lookup(Create(s, name).nodes, Known(name)) == Some([])
    ensures other != Known(name) || AllocPtr(s.bs, 44) == 0 ==>
      Lookup(Create(s, name).nodes, other) == Lookup(s.nodes, other)
  {
    var s' := Create(s, name);
    assert Truncated(name) == Known(name);
    var k := Find(s.nodes, other, 0);
    if AllocPtr(s.bs, 44) != 0 {
      FindIsFirst(s'.nodes, Known(name), 0);
      if other != Known(name) {
        FindIsFirst(s'.nodes, other, k + 1);
      }
    }
  }

  /** A name of 32 bytes or more is never found, not even right after it was created. */
  lemma LongNamesNeverFound(s: Fs, r: Region, foreign: set<nat>, name: CString)
    requires Owns(s, r, foreign) && |name| >= 32
    ensures Lookup(s.nodes, name) == None && Lookup(Create(s, name).nodes, name) == None
  {
    CreateKeepsOwnership(s, r, foreign, name);
    var nodes := Create(s, name).nodes;
    assert forall j | 0 <= j < |s.nodes| :: NodeOk(s.bs, s.nodes[j]);
    assert forall j | 0 <= j < |nodes| :: NodeOk(Create(s, name).bs, nodes[j]);
  }

  /** Whether an operation reports success in state `s`. */
  ghost predicate Succeeds(s: Fs, r: Region, op: FsOp)
    requires OpOk(op)
  {
    match op
    case CreateOp(name) => AllocPtr(s.bs, 44) != 0
    case WriteOp(name, data) => WriteSucceeds(s, r, name, data)
  }

  /**
   What a name should read as after a run from an empty list, told from the calls and their outcomes alone:
   the last successful create of the name or the last write to it, once it exists, decides.
   */
  ghost function Expected(s: Fs, r: Region, ops: seq<FsOp>, name: CString): Option<seq<byte>>
    requires forall op | op in ops :: OpOk(op)
  {
    if ops == [] then None
    else
      var ops', op := ops[..|ops| - 1], ops[|ops| - 1];
      var ok := Succeeds(Run(s, r, ops'), r, op);
      var before := Expected(s, r, ops', name);
      if op.CreateOp? && ok && Known(op.name) == name then Some([])
      else if op.WriteOp? && op.name == name && before != None then Some(if ok then op.data else [])
      else before
  }

  /** Over any run the list behaves like an association list in which the newest entry of a name counts. */
  lemma {:induction false} ReadsAsExpected(s: Fs, r: Region, foreign: set<nat>, ops: seq<FsOp>, name: CString)
    requires Owns(s, r, foreign) && s.nodes == [] && forall op | op in ops :: OpOk(op)
    ensures Lookup(Run(s, r, ops).nodes, name) == Expected(s, r, ops, name)
  {
    if ops != [] {
      var ops', op := ops[..|ops| - 1], ops[|ops| - 1];
      assert OpOk(op);
      RunKeepsOwnership(s, r, foreign, ops');
      ReadsAsExpected(s, r, foreign, ops', name);
      match op {
        case CreateOp(n) => CreateLookup(Run(s, r, ops'), n, name);
        case WriteOp(n, data) => WriteLookup(Run(s, r, ops'), r, foreign, n, data, name);
      }
    }
  }
}
