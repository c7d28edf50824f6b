/**
 The state behind kernel/memory/paging.c without its bitmap and tables: which physical frames are free,
 which were handed out directly, and a flat map from (directory, 20-bit page number) to frames. Module
 Paging shows that the code on bitmap bytes and two-level tables computes these functions.
 */
module Frames {

  const PAGE_SIZE := 4096

  /** The first frame the kernel hands out: 0x100000 / PAGE_SIZE. */
  const FIRST_FRAME := 256

  /** Largest number of frames in a 32-bit address space. */
  const MAX_FRAMES := 0x10_0000

  datatype Flat<!D(==)> = Flat(total: nat, free: set<nat>, held: set<nat>, mapped: map<(D, nat), nat>)

  /** Every frame from 256 on is free, held or mapped, never two of these, and mapped at most once. */
  ghost predicate FlatOk<D>(s: Flat<D>) {
    && (forall f | f in s.free || f in s.held || f in s.mapped.Values :: FIRST_FRAME <= f < s.total)
    && (forall f | FIRST_FRAME <= f < s.total :: f in s.free || f in s.held || f in s.mapped.Values)
    && s.free !! s.held && s.free !! s.mapped.Values && s.held !! s.mapped.Values
    && forall k, l | k in s.mapped && l in s.mapped && s.mapped[k] == s.mapped[l] :: k == l
  }

  ghost predicate IsLowest(f: nat, free: set<nat>) {
    f in free && forall g | g in free :: f <= g
  }

  lemma {:induction false} LowestExists(free: set<nat>)
    requires free != {}
    ensures exists f :: IsLowest(f, free)
  {
    var g :| g in free;
    if free == {g} {
      assert IsLowest(g, free);
    } else {
      LowestExists(free - {g});
      var h :| IsLowest(h, free - {g});
      assert forall x | x in free :: x == g || x in free - {g};
      assert IsLowest(if g < h then g else h, free);
    }
  }

  /** The frame the search for the first clear bit finds. */
  ghost function Lowest(free: set<nat>): (f: nat)
    requires free != {}
    ensures IsLowest(f, free)
  {
    LowestExists(free);
    var f :| IsLowest(f, free);
    f
  }

  // ---------------------------------------------------------------- operations

  ghost function Allocate<D>(s: Flat<D>): Flat<D>
    requires s.free != {}
  {
    var f := Lowest(s.free);
    s.(free := s.free - {f}, held := s.held + {f})
  }

  ghost function Release<D>(s: Flat<D>, f: nat): Flat<D> {
    s.(free := s.free + {f}, held := s.held - {f})
  }

  /** Whether mapping the page needs a frame that is not there, which makes the kernel panic. */
  ghost predicate MapPanics<D>(s: Flat<D>, d: D, page: nat) {
    (d, page) !in s.mapped && s.free == {}
  }

  ghost function Map<D>(s: Flat<D>, d: D, page: nat): Flat<D>
    requires !MapPanics(s, d, page)
  {
    if (d, page) in s.mapped then s
    else
      var f := Lowest(s.free);
      s.(free := s.free - {f}, mapped := s.mapped[(d, page) := f])
  }

  ghost function Unmap<D>(s: Flat<D>, d: D, page: nat): Flat<D> {
    if (d, page) !in s.mapped then s
    else s.(free := s.free + {s.mapped[(d, page)]}, mapped := s.mapped - {(d, page)})
  }

  // ---------------------------------------------------------------- what one call keeps

  lemma AllocateOk<D>(s: Flat<D>)
    requires FlatOk(s) && s.free != {}
    ensures FlatOk(Allocate(s))
  {
  }

  /** Giving back a frame is safe exactly if it is held, or free already. */
  lemma ReleaseOk<D>(s: Flat<D>, f: nat)
    requires FlatOk(s)
    ensures FlatOk(Release(s, f)) <==> f in s.held || f in s.free
  {
    assert f in Release(s, f).free;
  }

  /** Giving back a mapped frame below all free ones puts the next page mapped on the same frame. */
  lemma ReleaseOfMappedIsShared<D>(s: Flat<D>, k: (D, nat), d: D, page: nat)
    requires k in s.mapped && (d, page) !in s.mapped
    requires forall g | g in s.free :: s.mapped[k] < g
    ensures var t := Release(s, s.mapped[k]);
      && !MapPanics(t, d, page) && k in Map(t, d, page).mapped
      && Map(t, d, page).mapped[(d, page)] == Map(t, d, page).mapped[k] && (d, page) != k
  {
    assert IsLowest(s.mapped[k], Release(s, s.mapped[k]).free);
  }

  /** Unmapping one of two pages on the same frame frees the frame under the other. */
  lemma UnmapOfSharedFrees<D>(s: Flat<D>, d: D, page: nat, k: (D, nat))
    requires (d, page) in s.mapped && k in s.mapped && k != (d, page) && s.mapped[k] == s.mapped[(d, page)]
    ensures k in Unmap(s, d, page).mapped && Unmap(s, d, page).mapped[k] in Unmap(s, d, page).free
    ensures !FlatOk(Unmap(s, d, page))
  {
    var t := Unmap(s, d, page);
    assert t.mapped[k] in t.mapped.Values;
  }

  lemma MapOk<D>(s: Flat<D>, d: D, page: nat)
    requires FlatOk(s) && !MapPanics(s, d, page)
    ensures FlatOk(Map(s, d, page))
  {
    if (d, page) !in s.mapped {
      var f, t := Lowest(s.free), Map(s, d, page);
      ValuesAfterAdd(s.mapped, (d, page), f);
    }
  }

  lemma ValuesAfterAdd<K, V>(m: map<K, V>, k: K, v: V)
    requires k !in m
    ensures m[k := v].Values == m.Values + {v}
  {
    var n := m[k := v];
    assert n[k] == v;
    forall w | w in m.Values ensures w in n.Values {
      var l :| l in m && m[l] == w;
      assert n[l] == w;
    }
  }

  lemma ValuesAfterRemove<K, V>(m: map<K, V>, k: K)
    requires k in m && forall i, j | i in m && j in m && m[i] == m[j] :: i == j
    ensures (m - {k}).Values == m.Values - {m[k]}
  {
    var n := m - {k};
    forall w | w in m.Values && w != m[k] ensures w in n.Values {
      var l :| l in m && m[l] == w;
      assert n[l] == w;
    }
  }

  lemma UnmapOk<D>(s: Flat<D>, d: D, page: nat)
    requires FlatOk(s)
    ensures FlatOk(Unmap(s, d, page))
  {
    if (d, page) in s.mapped {
      ValuesAfterRemove(s.mapped, (d, page));
    }
  }

  /** Mapping an absent page and unmapping it again restores everything, the bitmap included. */
  lemma MapThenUnmap<D>(s: Flat<D>, d: D, page: nat)
    requires (d, page) !in s.mapped && s.free != {}
    ensures Unmap(Map(s, d, page), d, page) == s
  {
    assert Map(s, d, page).mapped - {(d, page)} == s.mapped;
  }

  /** Map and unmap touch only the target page of the target directory; mapping a present page does nothing. */
  lemma OnlyTargetChanges<D>(s: Flat<D>, d: D, page: nat, e: D, other: nat)
    requires !MapPanics(s, d, page) && (e, other) != (d, page)
    ensures (e, other) in Map(s, d, page).mapped <==> (e, other) in s.mapped
    ensures (e, other) in Unmap(s, d, page).mapped <==> (e, other) in s.mapped
    ensures (e, other) in s.mapped ==>
      Map(s, d, page).mapped[(e, other)] == Unmap(s, d, page).mapped[(e, other)] == s.mapped[(e, other)]
    ensures (d, page) in Map(s, d, page).mapped && (d, page) !in Unmap(s, d, page).mapped
    ensures (d, page) in s.mapped ==> Map(s, d, page) == s
  {
  }

  // ---------------------------------------------------------------- conservation

  lemma {:induction false} InjectiveValues<K, V>(m: map<K, V>)
    requires forall i, j | i in m && j in m && m[i] == m[j] :: i == j
    ensures |m.Values| == |m|
  {
    if m == map[] {
      assert m.Values == {};
    } else {
      var k :| k in m;
      ValuesAfterRemove(m, k);
      InjectiveValues(m - {k});
      assert m[k] in m.Values;
      assert |(m - {k}).Keys| == |m.Keys| - 1 by { assert (m - {k}).Keys == m.Keys - {k}; }
      assert |m - {k}| == |(m - {k}).Keys| && |m| == |m.Keys|;
    }
  }

  lemma {:induction false} IntervalSize(lo: nat, hi: nat, s: set<nat>)
    requires lo <= hi && forall f :: f in s <==> lo <= f < hi
    ensures |s| == hi - lo
    decreases hi
  {
    if lo < hi {
      IntervalSize(lo, hi - 1, s - {hi - 1});
    } else {
      assert s == {};
    }
  }

  /** Free, held and mapped frames always add up to the frames above the first 256. */
  lemma Conservation<D>(s: Flat<D>)
    requires FlatOk(s)
    ensures |s.free| + |s.held| + |s.mapped| == if s.total < FIRST_FRAME then 0 else s.total - FIRST_FRAME
  {
    InjectiveValues(s.mapped);
    var all := s.free + s.held + s.mapped.Values;
    assert |all| == |s.free + s.held| + |s.mapped.Values| == |s.free| + |s.held| + |s.mapped.Values|;
    if s.total < FIRST_FRAME {
      assert all == {};
    } else {
      IntervalSize(FIRST_FRAME, s.total, all);
    }
  }

  // ---------------------------------------------------------------- translation

  /** The physical address of a linear one, 0 if its page is absent. */
  ghost function Translate<D>(s: Flat<D>, d: D, virt: nat): nat {
    if (d, virt / PAGE_SIZE) in s.mapped then s.mapped[(d, virt / PAGE_SIZE)] * PAGE_SIZE + virt % PAGE_SIZE else 0
  }

  /**
   The result 0 means exactly "not present"; every other result lies in the managed frames, with the page offset
   kept.
   */
  lemma TranslateRange<D>(s: Flat<D>, d: D, virt: nat)
    requires FlatOk(s)
    ensures Translate(s, d, virt) == 0 <==> (d, virt / PAGE_SIZE) !in s.mapped
    ensures Translate(s, d, virt) != 0 ==>
      FIRST_FRAME * PAGE_SIZE <= Translate(s, d, virt) < s.total * PAGE_SIZE
      && Translate(s, d, virt) % PAGE_SIZE == virt % PAGE_SIZE
  {
    if (d, virt / PAGE_SIZE) in s.mapped {
      assert s.mapped[(d, virt / PAGE_SIZE)] in s.mapped.Values;
    }
  }

  /** No physical address is reached from two places, in one directory or in two. */
  lemma TranslateInjective<D>(s: Flat<D>, d: D, virt: nat, e: D, virt': nat)
    requires FlatOk(s)
    requires Translate(s, d, virt) == Translate(s, e, virt') != 0
    ensures d == e && virt == virt'
  {
    var k, l := (d, virt / PAGE_SIZE), (e, virt' / PAGE_SIZE);
    assert s.mapped[k] == Translate(s, d, virt) / PAGE_SIZE == s.mapped[l];
    assert k == l;
    assert virt % PAGE_SIZE == Translate(s, d, virt) % PAGE_SIZE == virt' % PAGE_SIZE;
  }

  /** In every state a page newly mapped translates to the lowest free frame, at the same offset. */
  lemma TranslateMapped<D>(s: Flat<D>, d: D, virt: nat, f: nat)
    requires (d, virt / 0x1000) !in s.mapped && f in s.free && forall g | g in s.free :: f <= g
    ensures !MapPanics(s, d, virt / 0x1000)
    ensures Translate(Map(s, d, virt / 0x1000), d, virt) == f * 0x1000 + virt % 0x1000
  {
    assert Lowest(s.free) == f;
  }

  /** Mapping a page that is present and mapping or unmapping other pages change no translation. */
  lemma TranslateOthers<D>(s: Flat<D>, d: D, page: nat, e: D, virt: nat)
    ensures !MapPanics(s, d, page) && ((d, page) in s.mapped || (e, virt / 0x1000) != (d, page)) ==>
      Translate(Map(s, d, page), e, virt) == Translate(s, e, virt)
    ensures (e, virt / 0x1000) != (d, page) ==> Translate(Unmap(s, d, page), e, virt) == Translate(s, e, virt)
    ensures (e, virt / 0x1000) == (d, page) ==> Translate(Unmap(s, d, page), e, virt) == 0
  {
  }

  /** Handing out and taking back frames directly changes none either. */
  lemma TranslateIgnoresFrames<D>(s: Flat<D>, f: nat, e: D, virt: nat)
    ensures s.free != {} ==> Translate(Allocate(s), e, virt) == Translate(s, e, virt)
    ensures Translate(Release(s, f), e, virt) == Translate(s, e, virt)
  {
  }

  // ---------------------------------------------------------------- whole runs

  datatype Op<D> = AllocOp | FreeOp(f: nat) | MapOp(d: D, page: nat) | UnmapOp(d: D, page: nat)

  /** The call returns and its caller plays by the rules: no panic, and no frame in a page table is freed directly. */
  ghost predicate Enabled<D>(s: Flat<D>, op: Op<D>) {
    match op
    case AllocOp => s.free != {}
    case FreeOp(f) => f in s.held || f in s.free
    case MapOp(d, page) => !MapPanics(s, d, page)
    case UnmapOp(d, page) => true
  }

  ghost function Step<D>(s: Flat<D>, op: Op<D>): Flat<D>
    requires Enabled(s, op)
  {
    match op
    case AllocOp => Allocate(s)
    case FreeOp(f) => Release(s, f)
    case MapOp(d, page) => Map(s, d, page)
    case UnmapOp(d, page) => Unmap(s, d, page)
  }

  ghost predicate Runs<D>(s: Flat<D>, ops: seq<Op<D>>)
    decreases |ops|
  {
    ops == [] || (Enabled(s, ops[0]) && Runs(Step(s, ops[0]), ops[1..]))
  }

  ghost function Run<D>(s: Flat<D>, ops: seq<Op<D>>): Flat<D>
    requires Runs(s, ops)
    decreases |ops|
  {
    if ops == [] then s else Run(Step(s, ops[0]), ops[1..])
  }

  /** No run ever maps a frame twice, loses one, or hands one out while it is in use. */
  lemma {:induction false} RunOk<D>(s: Flat<D>, ops: seq<Op<D>>)
    requires FlatOk(s) && Runs(s, ops)
    ensures FlatOk(Run(s, ops)) && Run(s, ops).total == s.total
    ensures |Run(s, ops).free| + |Run(s, ops).held| + |Run(s, ops).mapped| == |s.free| + |s.held| + |s.mapped|
    decreases |ops|
  {
    if ops != [] {
      match ops[0] {
        case AllocOp => AllocateOk(s);
        case FreeOp(f) => ReleaseOk(s, f);
        case MapOp(d, page) => MapOk(s, d, page);
        case UnmapOp(d, page) => UnmapOk(s, d, page);
      }
      RunOk(Step(s, ops[0]), ops[1..]);
      Conservation(Step(s, ops[0]));
    }
    Conservation(s);
  }
}
