/**
 kernel/memory/paging.c on its own data: the frame bitmap, the counter, and two-level tables reached
 through `tables_virtual`. A linear address is split 10/10/12 as section 4.3 of the Intel SDM, Volume 3A,
 lays down; module Bits shows that the shifts and masks of the code compute page numbers and offsets.
 */
module Paging {
  import opened Options
  import opened Bytes
  import opened Bits
  import opened Frames

  const ENTRIES := 1024
  /** Number of pages in the 32-bit address space. */
  const PAGES := 0x10_0000

  type Frame20 = x: int | 0 <= x < 0x10_0000

  /** The fields of `page_table_entry_t` that the code uses; the others stay 0. */
  datatype Entry = Entry(present: bool, writable: bool, user: bool, frame: Frame20)

  const EMPTY := Entry(false, false, false, 0)

  /** An entry of a page directory: 0, or `table | flags | PAGE_PRESENT`. */
  datatype DirEntry = Zero | Points(table: bv32, flags: bv32)

  function DirWord(e: DirEntry): bv32 {
    match e
    case Zero => 0
    case Points(table, flags) => table | flags | PRESENT
  }

  /**
   For flags below 4096 the word holds the table's address in its upper 20 bits and flags and present bit in its
   lower 12, exactly if the table begins a page.
   */
  lemma DirWordFields(table: bv32, flags: bv32)
    requires flags < 0x1000
    ensures var w := DirWord(Points(table, flags));
      (w & 0xFFFF_F000 == table && w & 0xFFF == flags | 1) <==> table & 0xFFF == 0
    ensures DirWord(Zero) == 0
  {
    DirectoryEntry(table, flags);
  }

  /** The present bit, which the code tests, tells the two apart. */
  lemma PresentBit(e: DirEntry)
    ensures DirWord(e) & PRESENT != 0 <==> e.Points?
  {
  }

  const PRESENT: bv32 := 1
  const WRITE: bv32 := 2
  const USER: bv32 := 4
  const BOOT_FLAGS: bv32 := PRESENT | WRITE

  /** The entry `paging_map_page` makes for `flags`. */
  ghost function MadeEntry(frame: Frame20, flags: bv32): Entry {
    Entry(true, flags & WRITE != 0, flags & USER != 0, frame)
  }

  /** `page_table_t` at `address`. The ghost fields say which directory slot the table belongs to. */
  class PageTable {
    const address: bv32
    const entries: array<Entry>
    ghost const owner: PageDirectory
    ghost const slot: nat

    /** `Memory_alloc` and `memset`, given that the allocation succeeds. */
    constructor (at: bv32, ghost dir: PageDirectory, ghost index: nat)
      ensures address == at && fresh(entries) && entries.Length == ENTRIES
      ensures forall i | 0 <= i < ENTRIES :: entries[i] == EMPTY
      ensures owner == dir && slot == index
    {
      address := at;
      entries := new Entry[ENTRIES](_ => EMPTY);
      owner := dir;
      slot := index;
    }
  }

  /** `page_directory_t`: `entries` and `tables_virtual`. */
  class PageDirectory {
    const entries: array<DirEntry>
    const tables: array<PageTable?>

    constructor ()
      ensures fresh(entries) && fresh(tables) && entries.Length == ENTRIES && tables.Length == ENTRIES
      ensures forall i | 0 <= i < ENTRIES :: !entries[i].Points?
    {
      entries := new DirEntry[ENTRIES](_ => Zero);
      tables := new PageTable?[ENTRIES](_ => null);
    }
  }

  /** Whether the bit of frame `f` is clear. */
  predicate IsClear(bitmap: seq<bv8>, f: nat)
    requires f / 8 < |bitmap|
  {
    !IsSet(bitmap[f / 8], f % 8)
  }

  ghost function WithBit(b: bv8, bit: nat, to: bool): bv8
    requires bit < 8
  {
    if to then b | Mask(bit) else b & !Mask(bit)
  }

  lemma WithBitIs(b: bv8, i: nat, j: nat, to: bool)
    requires i < 8 && j < 8
    ensures IsSet(WithBit(b, i, to), j) <==> if i == j then to else IsSet(b, j)
  {
    SetAndClear(b, i, j);
  }

  lemma BitChangedAt(was: seq<bv8>, now: seq<bv8>, f: nat, to: bool, g: nat)
    requires f / 8 < |was| && g / 8 < |was| && now == was[f / 8 := WithBit(was[f / 8], f % 8, to)]
    ensures IsClear(now, g) <==> if g == f then !to else IsClear(was, g)
  {
    if g / 8 == f / 8 {
      assert g == f <==> g % 8 == f % 8;
      WithBitIs(was[f / 8], f % 8, g % 8, to);
    }
  }

  /** Setting or clearing one bit of the bitmap changes the state of one frame. */
  lemma BitChanged(was: seq<bv8>, now: seq<bv8>, f: nat, to: bool)
    requires f / 8 < |was| && now == was[f / 8 := WithBit(was[f / 8], f % 8, to)]
    ensures forall g: nat {:trigger IsClear(now, g)} | g / 8 < |was| ::
      IsClear(now, g) <==> if g == f then !to else IsClear(was, g)
  {
    forall g: nat {:trigger IsClear(now, g)} | g / 8 < |was|
      ensures IsClear(now, g) <==> if g == f then !to else IsClear(was, g)
    {
      BitChangedAt(was, now, f, to, g);
    }
  }

  ghost function Range(lo: nat, hi: nat): (r: set<nat>)
    ensures forall f :: f in r <==> lo <= f < hi
    decreases hi - lo
  {
    if lo >= hi then {} else {lo} + Range(lo + 1, hi)
  }

  lemma LowestOfRange(lo: nat, hi: nat)
    requires lo < hi
    ensures lo in Range(lo, hi) && Lowest(Range(lo, hi)) == lo && Range(lo, hi) - {lo} == Range(lo + 1, hi)
  {
  }

  lemma RangeGrows(lo: nat, hi: nat)
    requires lo <= hi
    ensures hi !in Range(lo, hi) && Range(lo, hi) + {hi} == Range(lo, hi + 1)
  {
  }

  lemma RangeEmpty(lo: nat, hi: nat, hi': nat)
    requires hi <= lo && hi' <= lo
    ensures Range(lo, hi) == Range(lo, hi')
  {
  }

  /** The first `n` pages of `dir`, on consecutive frames from 256 on. */
  ghost function BootMap<D>(dir: D, n: nat): map<(D, nat), nat> {
    map i: nat | i < n :: (dir, i) := FIRST_FRAME + i
  }

  /** Their entries. */
  ghost function BootPages(dir: PageDirectory, n: nat): PageMap
    requires n <= ENTRIES
  {
    map i: nat | i < n :: (dir, i) := MadeEntry(FIRST_FRAME + i, BOOT_FLAGS)
  }

  /** They are writable, and for the kernel only. */
  lemma BootEntries(dir: PageDirectory, n: nat)
    requires n <= ENTRIES
    ensures BootPages(dir, n) == map i: nat | i < n :: (dir, i) := Entry(true, true, false, FIRST_FRAME + i)
  {
  }

  lemma BootPagesStep(dir: PageDirectory, n: nat)
    requires n < ENTRIES
    ensures WithPage(BootPages(dir, n), dir, n, FIRST_FRAME + n, BOOT_FLAGS) == BootPages(dir, n + 1)
  {
    assert (dir, n) !in BootPages(dir, n);
  }

  /** The state after mapping the first `n` pages at boot. */
  ghost function BootState<D>(total: nat, dir: D, n: nat): Flat<D> {
    Flat(total, Range(FIRST_FRAME + n, total), {}, BootMap(dir, n))
  }

  lemma BootStep<D>(total: nat, dir: D, n: nat)
    ensures MapPanics(BootState(total, dir, n), dir, n) <==> FIRST_FRAME + n >= total
    ensures FIRST_FRAME + n < total ==> Map(BootState(total, dir, n), dir, n) == BootState(total, dir, n + 1)
    ensures BootMap(dir, n + 1)[(dir, n)] == FIRST_FRAME + n
  {
    var s := BootState(total, dir, n);
    assert (dir, n) !in s.mapped;
    if FIRST_FRAME + n < total {
      LowestOfRange(FIRST_FRAME + n, total);
      assert s.mapped[(dir, n) := FIRST_FRAME + n] == BootMap(dir, n + 1);
    }
  }

  /** The present table entries, by directory and page. */
  type PageMap = map<(PageDirectory, nat), Entry>

  /** What a page map says about a page. */
  ghost function EntryOf(m: PageMap, d: PageDirectory, page: nat): Option<Entry> {
    if (d, page) in m then Some(m[(d, page)]) else None
  }

  ghost predicate FramesBelow(m: PageMap, total: nat) {
    forall k {:trigger m[k]} | k in m :: m[k].frame < total
  }

  ghost function FramesOf(m: PageMap): map<(PageDirectory, nat), nat> {
    map k | k in m :: m[k].frame
  }

  /** The page map after an entry is rewritten. */
  ghost function Rewritten(m: PageMap, d: PageDirectory, page: nat, e: Entry): PageMap {
    if e.present then m[(d, page) := e] else m - {(d, page)}
  }

  lemma MapAdds(s: Flat<PageDirectory>, m: PageMap, d: PageDirectory, page: nat, e: Entry)
    requires s.mapped == FramesOf(m) && (d, page) !in m && s.free != {} && e.present && e.frame == Lowest(s.free)
    ensures Map(s, d, page) == s.(free := s.free - {e.frame}, mapped := FramesOf(Rewritten(m, d, page, e)))
  {
    assert FramesOf(m[(d, page) := e]) == FramesOf(m)[(d, page) := e.frame];
  }

  lemma UnmapRemoves(s: Flat<PageDirectory>, m: PageMap, d: PageDirectory, page: nat, e: Entry)
    requires s.mapped == FramesOf(m) && (d, page) in m && !e.present && e.frame == m[(d, page)].frame
    ensures Unmap(s, d, page) == s.(free := s.free + {e.frame}, mapped := FramesOf(Rewritten(m, d, page, e)))
  {
    assert FramesOf(m - {(d, page)}) == FramesOf(m) - {(d, page)};
  }

  /** By how much unmapping a page makes the counter drift: not at all while no mapped frame is free. */
  ghost function UnmapDrift<D>(s: Flat<D>, d: D, page: nat): (n: nat)
    ensures FlatOk(s) ==> n == 0
  {
    if (d, page) in s.mapped && s.mapped[(d, page)] in s.free then
      assert FlatOk(s) ==> s.mapped[(d, page)] in s.mapped.Values;
      1
    else 0
  }

  lemma UnmapAbsent(s: Flat<PageDirectory>, m: PageMap, d: PageDirectory, page: nat)
    requires s.mapped == FramesOf(m) && (d, page) !in m
    ensures Unmap(s, d, page) == s && m - {(d, page)} == m && UnmapDrift(s, d, page) == 0
  {
  }

  /** What `paging_map_page` does to the page map, `frame` being the frame the page has afterwards. */
  ghost function WithPage(m: PageMap, d: PageDirectory, page: nat, frame: Frame20, flags: bv32): PageMap {
    if (d, page) in m then m else m[(d, page) := MadeEntry(frame, flags)]
  }

  /** The counter `used` and `n` add up to 0 in 32-bit arithmetic. */
  ghost predicate Counts(used: Word, n: nat) {
    (used + n) % WORD_LIMIT == 0
  }

  lemma CountsUp(used: Word, n: nat)
    requires Counts(used, n) && n > 0
    ensures Counts((used + 1) % WORD_LIMIT, n - 1)
  {
  }

  lemma CountsDown(used: Word, n: nat)
    requires Counts(used, n)
    ensures Counts((used - 1) % WORD_LIMIT, n + 1)
  {
  }

  /** What the counter says about the free frames. */
  lemma CountsRest(used: Word, n: nat, drift: nat, total: nat)
    requires Counts(used, n + drift)
    ensures (total - used) % WORD_LIMIT == (total + n + drift) % WORD_LIMIT
  {
    var q := (used + n + drift) / WORD_LIMIT;
    assert total + n + drift == (total - used) + q * WORD_LIMIT;
    ModWrap(total - used, q);
  }

  lemma {:induction false} SmallSet(s: set<nat>, n: nat)
    requires forall f | f in s :: f < n
    ensures |s| <= n
  {
    if n > 0 {
      SmallSet(s - {n - 1}, n - 1);
    } else {
      assert s == {};
    }
  }

  lemma ModWrap(a: int, q: nat)
    ensures (a + q * WORD_LIMIT) % WORD_LIMIT == a % WORD_LIMIT
  {
    if q > 0 {
      ModWrap(a, q - 1);
      assert a + q * WORD_LIMIT == (a + (q - 1) * WORD_LIMIT) + WORD_LIMIT;
    }
  }

  /** The frame bitmap and the counter of used frames. */
  class FrameBitmap {
    const bitmap: array<bv8>
    const totalFrames: nat
    var usedFrames: Word
    /** The frames whose bit is clear. */
    ghost var free: set<nat>
    /** How many calls of `paging_free_frame` freed nothing but counted all the same. */
    ghost var drift: nat

    ghost predicate Valid()
      reads this, bitmap
    {
      && totalFrames <= MAX_FRAMES && totalFrames <= 8 * bitmap.Length
      && (forall f: nat {:trigger IsClear(bitmap[..], f)} | f < totalFrames :: IsClear(bitmap[..], f) <==> f in free)
      && (forall f | f in free :: f < totalFrames)
      && Counts(usedFrames, |free| + drift)
    }

    /** Frame `f` is free exactly if bit `f % 8` of byte `f / 8` is clear. */
    lemma BitOfFrame(f: nat)
      requires Valid() && f < totalFrames
      ensures f / 8 < bitmap.Length && (bitmap[f / 8] & (1 << (f % 8)) == 0 <==> f in free)
    {
      assert IsClear(bitmap[..], f) <==> f in free;
    }

    /** `memset(frame_bitmap, 0xFF, ...)` and a zero counter: no frame is free. */
    constructor (totalMemory: Word)
      ensures Valid() && fresh(bitmap) && totalFrames == totalMemory / 0x1000 && free == {} && drift == 0
    {
      totalFrames := totalMemory / PAGE_SIZE;
      bitmap := new bv8[(totalMemory / PAGE_SIZE + 7) / 8](_ => 0xFF);
      usedFrames := 0;
      free, drift := {}, 0;
      new;
      forall f: nat {:trigger IsClear(bitmap[..], f)} | f < totalFrames ensures !IsClear(bitmap[..], f) {
        AllSet(f % 8);
      }
    }

    /** `paging_allocate_frame`; `None` stands for the panic, which does not return. */
    method Allocate() returns (r: Option<nat>)
      requires Valid()
      modifies this, bitmap
      ensures Valid() && drift == old(drift)
      ensures r == None <==> old(free) == {}
      ensures r == None ==> free == old(free)
      ensures r != None ==> r.value == Lowest(old(free)) && r.value < totalFrames && free == old(free) - {r.value}
    {
      for i := 0 to totalFrames
        invariant Valid() && drift == old(drift) && free == old(free)
        invariant forall f: nat | f < i :: f !in free
      {
        var byte, bit := i / 8, i % 8;
        if !IsSet(bitmap[byte], bit) {
          assert IsClear(bitmap[..], i);
          ghost var was := bitmap[..];
          bitmap[byte] := bitmap[byte] | Mask(bit);
          BitChanged(was, bitmap[..], i, true);
          CountsUp(usedFrames, |free| + drift);
          usedFrames := (usedFrames + 1) % WORD_LIMIT;
          assert |free - {i}| == |free| - 1;
          free := free - {i};
          return Some(i);
        }
        assert !IsClear(bitmap[..], i);
      }
      return None;
    }

    /** `paging_free_frame`, for every frame whose bit lies in the bitmap, used or not. */
    method Free(f: nat)
      requires Valid() && f / 8 < bitmap.Length
      modifies this, bitmap
      ensures Valid() && free == if f < totalFrames then old(free) + {f} else old(free)
      ensures drift == if f < totalFrames && f !in old(free) then old(drift) else old(drift) + 1
    {
      var byte, bit := f / 8, f % 8;
      ghost var was := bitmap[..];
      bitmap[byte] := bitmap[byte] & !Mask(bit);
      BitChanged(was, bitmap[..], f, false);
      CountsDown(usedFrames, |free| + drift);
      usedFrames := (usedFrames - 1) % WORD_LIMIT;
      if f < totalFrames {
        assert free + {f} == if f in free then free else free + {f};
        assert |free + {f}| == if f in free then |free| else |free| + 1;
      }
      drift := if f < totalFrames && f !in free then drift else drift + 1;
      free := if f < totalFrames then free + {f} else free;
    }

    /** The loop of `paging_init` that frees all frames from 256 on. */
    method FreeUpper()
      requires Valid() && free == {} && drift == 0
      modifies this, bitmap
      ensures Valid() && drift == 0 && forall f: nat :: f in free <==> 256 <= f < totalFrames
      ensures free == Range(FIRST_FRAME, totalFrames)
    {
      var i := FIRST_FRAME;
      while i < totalFrames
        invariant FIRST_FRAME <= i && (i <= totalFrames || i == FIRST_FRAME)
        invariant Valid() && free == Range(FIRST_FRAME, i) && drift == 0
      {
        RangeGrows(FIRST_FRAME, i);
        Free(i);
        i := i + 1;
      }
      if i > totalFrames { RangeEmpty(FIRST_FRAME, i, totalFrames); }
    }

    /**
     `paging_get_free_frames`: as written it exceeds the number of clear bits by exactly `total_frames`, and
     by 1 more for every call of `paging_free_frame` that freed nothing.
     */
    method CountFree() returns (n: nat)
      requires Valid()
      ensures n == (totalFrames + |free| + drift) % 0x1_0000_0000
      ensures drift == 0 ==> n == totalFrames + |free|
    {
      CountsRest(usedFrames, |free|, drift, totalFrames);
      SmallSet(free, totalFrames);
      n := (totalFrames - usedFrames) % WORD_LIMIT;
    }
  }

  class Manager {
    const frames: FrameBitmap
    ghost var dirs: set<PageDirectory>
    ghost var pts: set<PageTable>
    /** The state as module Frames sees it, and the present entries. */
    ghost var flat: Flat<PageDirectory>
    ghost var pages: PageMap
    ghost var repr: set<object>

    // -------------------------------------------------------------- two-level tables

    ghost predicate SlotOk(d: PageDirectory, i: nat)
      requires i < ENTRIES && d.entries.Length == ENTRIES && d.tables.Length == ENTRIES
      reads this`pts, d.entries, d.tables
    {
      d.entries[i].Points? ==>
        d.tables[i] != null && d.tables[i] in pts && d.tables[i].owner == d && d.tables[i].slot == i
    }

    /** Directories and tables are separate objects, and each slot marked present has its own table. */
    ghost predicate Structure()
      reads this`dirs, this`pts, this`repr, repr
    {
      && (forall d | d in dirs ::
        d.entries in repr && d.tables in repr && d.entries.Length == ENTRIES && d.tables.Length == ENTRIES)
      && (forall t | t in pts :: t.entries in repr && t.entries.Length == ENTRIES)
      && (forall d, e | d in dirs && e in dirs && d != e :: d.entries != e.entries && d.tables != e.tables)
      && (forall t, u | t in pts && u in pts && t != u :: t.entries != u.entries)
      && (forall d: PageDirectory, i: nat {:trigger SlotOk(d, i)} | d in dirs && i < ENTRIES :: SlotOk(d, i))
    }

    /** The present entry that the two-level walk finds for a page. */
    ghost function At(d: PageDirectory, page: nat): Option<Entry>
      requires Structure() && d in dirs && page < PAGES
      reads this`dirs, this`pts, this`repr, repr
    {
      assert SlotOk(d, page / ENTRIES);
      if !d.entries[page / ENTRIES].Points? then None
      else
        var e := d.tables[page / ENTRIES].entries[page % ENTRIES];
        if e.present then Some(e) else None
    }

    /** The present entries of the two-level tables are exactly those of `m`. */
    ghost predicate Tables(m: PageMap)
      reads this`dirs, this`pts, this`repr, repr
    {
      && Structure()
      && (forall d: PageDirectory, page: nat {:trigger At(d, page)} | d in dirs && page < PAGES ::
          At(d, page) == EntryOf(m, d, page))
      && forall k | k in m :: k.0 in dirs && k.1 < PAGES
    }

    /** Bitmap and tables hold what `flat` and `pages` say, and do not overlap. */
    ghost predicate Coherent()
      reads this, frames, frames.bitmap, repr
      ensures Coherent() ==> Structure()
    {
      && frames.Valid() && frames.totalFrames == flat.total && frames.free == flat.free
      && Tables(pages) && flat.mapped == FramesOf(pages) && FramesBelow(pages, frames.totalFrames)
      && {this, frames, frames.bitmap} !! repr
    }

    ghost predicate Valid()
      reads this, frames, frames.bitmap, repr
    {
      Coherent() && FlatOk(flat)
    }

    /** What the walk of the code meets at the slot and entry of one page. */
    lemma WalkFinds(m: PageMap, d: PageDirectory, pd: nat, pt: nat)
      requires Tables(m) && d in dirs && pd < ENTRIES && pt < ENTRIES
      ensures d.entries.Length == ENTRIES && d.tables.Length == ENTRIES && d.entries in repr && d.tables in repr
      ensures d.entries[pd].Points? ==>
        d.tables[pd] != null && d.tables[pd].entries.Length == ENTRIES && d.tables[pd].entries in repr
      ensures (d, pd * ENTRIES + pt) in m <==> d.entries[pd].Points? && d.tables[pd].entries[pt].present
      ensures (d, pd * ENTRIES + pt) in m ==> d.tables[pd].entries[pt] == m[(d, pd * ENTRIES + pt)]
    {
      var page := pd * ENTRIES + pt;
      assert page / ENTRIES == pd && page % ENTRIES == pt;
      assert SlotOk(d, pd);
      assert At(d, page) == EntryOf(m, d, page);
    }

    /** A fresh table without entries joins the others in an empty slot; nothing else changes. */
    twostate lemma TableJoins(new dir: PageDirectory, pd: nat, new table: PageTable)
      requires old(Tables(pages)) && dir in old(dirs) && pd < ENTRIES && !old(dir.entries[pd].Points?)
      requires fresh(table) && fresh(table.entries) && table.owner == dir && table.slot == pd
      requires table.entries.Length == ENTRIES
      requires forall i | 0 <= i < ENTRIES :: table.entries[i] == EMPTY
      requires dirs == old(dirs) && pages == old(pages)
      requires pts == old(pts) + {table} && repr == old(repr) + {table.entries}
      requires dir.tables[pd] == table
      requires dir.entries[..] == old(dir.entries[..])[pd := dir.entries[pd]]
      requires dir.tables[..] == old(dir.tables[..])[pd := table]
      requires forall o | o in old(repr) && o != dir.entries && o != dir.tables :: unchanged(o)
      ensures Tables(pages)
    {
      forall d: PageDirectory, i: nat {:trigger SlotOk(d, i)} | d in dirs && i < ENTRIES ensures SlotOk(d, i) {
        assert old(SlotOk(d, i));
      }
      forall d: PageDirectory, page: nat {:trigger At(d, page)} | d in dirs && page < PAGES
        ensures At(d, page) == EntryOf(pages, d, page)
      {
        assert old(SlotOk(d, page / ENTRIES));
        assert old(At(d, page)) == EntryOf(pages, d, page);
      }
    }

    /** The table-creating branch of `paging_map_page`; it maps nothing yet. */
    method AddTable(dir: PageDirectory, pd: nat, flags: bv32)
      requires Tables(pages) && this !in repr && dir in dirs && pd < ENTRIES && !dir.entries[pd].Points?
      modifies dir.entries, dir.tables, this`pts, this`repr
      ensures Tables(pages) && fresh(repr - old(repr)) && old(repr) <= repr && |pts| == |old(pts)| + 1
      ensures dir.tables[pd] != null
      ensures dir.entries[..] == old(dir.entries[..])[pd := Points(dir.tables[pd].address, flags)]
    {
      var address: bv32 := *; // where Memory_alloc puts the table
      var table := new PageTable(address, dir, pd);
      pts := pts + {table};
      repr := repr + {table.entries};
      dir.entries[pd] := Points(address, flags);
      dir.tables[pd] := table;
      TableJoins(dir, pd, table);
    }

    method EnsureTable(dir: PageDirectory, pd: nat, flags: bv32)
      requires Tables(pages) && this !in repr && dir in dirs && pd < ENTRIES
      modifies dir.entries, dir.tables, this`pts, this`repr
      ensures Tables(pages) && dir.entries[pd].Points? && SlotOk(dir, pd)
      ensures fresh(repr - old(repr)) && old(repr) <= repr
      ensures old(dir.entries[pd].Points?) ==>
        pts == old(pts) && dir.entries[..] == old(dir.entries[..]) && dir.tables[..] == old(dir.tables[..])
      ensures !old(dir.entries[pd].Points?) ==>
        |pts| == |old(pts)| + 1 && dir.entries[..] == old(dir.entries[..])[pd := Points(dir.tables[pd].address, flags)]
    {
      if !dir.entries[pd].Points? {
        AddTable(dir, pd, flags);
      }
      assert SlotOk(dir, pd);
    }

    /** Rewriting one table entry changes what is found for its page, in its directory only. */
    method SetEntry(dir: PageDirectory, pd: nat, pt: nat, e: Entry, ghost m: PageMap)
      requires Tables(m) && dir in dirs && pd < ENTRIES && pt < ENTRIES && dir.entries[pd].Points? && SlotOk(dir, pd)
      modifies dir.tables[pd].entries
      ensures Tables(Rewritten(m, dir, pd * ENTRIES + pt, e))
      ensures SlotOk(dir, pd)
    {
      ghost var page := pd * ENTRIES + pt;
      ghost var m' := Rewritten(m, dir, page, e);
      dir.tables[pd].entries[pt] := e;
      forall d: PageDirectory, i: nat {:trigger SlotOk(d, i)} | d in dirs && i < ENTRIES ensures SlotOk(d, i) {
        assert old(SlotOk(d, i));
      }
      forall d: PageDirectory, q: nat {:trigger At(d, q)} | d in dirs && q < PAGES
        ensures At(d, q) == EntryOf(m', d, q)
      {
        assert old(SlotOk(d, q / ENTRIES));
        assert old(At(d, q)) == EntryOf(m, d, q);
        assert q == (q / ENTRIES) * ENTRIES + q % ENTRIES;
      }
    }

    // -------------------------------------------------------------- frames handed out directly

    /** The tables depend neither on the bitmap nor on the counter. */
    twostate lemma TablesKept(m: PageMap)
      requires old(Tables(m)) && dirs == old(dirs) && pts == old(pts) && repr == old(repr)
      requires forall o | o in repr :: unchanged(o)
      ensures Tables(m)
    {
    }

    /** `paging_allocate_frame` called for its own sake: the frame is held until it is given back. */
    method AllocateFrame() returns (r: Option<nat>)
      requires Coherent()
      modifies this`flat, frames, frames.bitmap
      ensures Coherent() && frames.drift == old(frames.drift) && (r == None <==> old(flat.free) == {})
      ensures flat == if r == None then old(flat) else Allocate(old(flat))
      ensures r != None ==>
        r.value in old(flat.free) && r.value in flat.held && forall g | g in old(flat.free) :: r.value <= g
      ensures FlatOk(old(flat)) ==> Valid()
    {
      ghost var was := flat;
      if FlatOk(was) && was.free != {} { AllocateOk(was); }
      label before:
      r := frames.Allocate();
      TablesKept@before(pages);
      if r != None { flat := Allocate(was); }
    }

    /** `paging_free_frame`. */
    method FreeFrame(f: nat)
      requires Coherent() && f / 8 < frames.bitmap.Length
      modifies this`flat, frames, frames.bitmap
      ensures Coherent() && flat == if f < frames.totalFrames then Release(old(flat), f) else old(flat)
      ensures FlatOk(old(flat)) ==>
        (FlatOk(flat) <==> f >= frames.totalFrames || f in old(flat.held) || f in old(flat.free))
    {
      ghost var was := flat;
      if FlatOk(was) { ReleaseOk(was, f); }
      label before:
      frames.Free(f);
      TablesKept@before(pages);
      flat := if f < frames.totalFrames then Release(was, f) else was;
    }

    // -------------------------------------------------------------- map and unmap

    /** Rewrites one entry when the bitmap is ready for the flat state `s`. */
    method Commit(dir: PageDirectory, pd: nat, pt: nat, e: Entry, ghost s: Flat<PageDirectory>)
      requires Tables(pages) && this !in repr && dir in dirs && pd < ENTRIES && pt < ENTRIES
      requires dir.entries[pd].Points? && SlotOk(dir, pd)
      requires frames.Valid() && frames.totalFrames == s.total && frames.free == s.free
      requires s.mapped == FramesOf(Rewritten(pages, dir, pd * ENTRIES + pt, e))
      requires FramesBelow(pages, frames.totalFrames) && (e.present ==> e.frame < frames.totalFrames)
      requires frames.bitmap !in repr && frames !in repr && this !in repr
      modifies this`flat, this`pages, dir.tables[pd].entries
      ensures Coherent() && flat == s && pages == Rewritten(old(pages), dir, pd * ENTRIES + pt, e)
    {
      ghost var m := pages;
      flat, pages := s, Rewritten(m, dir, pd * ENTRIES + pt, e);
      SetEntry(dir, pd, pt, e, m);
    }

    /** The frame-taking branch of `paging_map_page`, for a page whose table exists. */
    method FillEntry(dir: PageDirectory, pd: nat, pt: nat, flags: bv32) returns (ok: bool)
      requires Coherent() && dir in dirs && pd < ENTRIES && pt < ENTRIES && dir.entries[pd].Points? && SlotOk(dir, pd)
      requires (dir, pd * ENTRIES + pt) !in pages
      modifies this`flat, this`pages, frames, frames.bitmap, dir.tables[pd].entries
      ensures frames.drift == old(frames.drift) && (ok <==> old(flat.free) != {})
      ensures ok ==> Coherent() && flat == Map(old(flat), dir, pd * ENTRIES + pt)
      ensures ok ==> pages == old(pages)[(dir, pd * ENTRIES + pt) := MadeEntry(Lowest(old(flat.free)), flags)]
    {
      label before:
      var r := frames.Allocate();
      if r == None { return false; }
      TablesKept@before(pages);
      var frame: Frame20 := r.value % 0x10_0000;
      assert frame == r.value;
      var e := Entry(true, flags & WRITE != 0, flags & USER != 0, frame);
      MapAdds(flat, pages, dir, pd * ENTRIES + pt, e);
      Commit(dir, pd, pt, e, Map(flat, dir, pd * ENTRIES + pt));
      ok := true;
    }

    /** The second half of `paging_map_page`, for a page whose table exists. */
    method FillIfAbsent(dir: PageDirectory, pd: nat, pt: nat, flags: bv32, ghost page: nat) returns (ok: bool)
      requires Coherent() && dir in dirs && pd < ENTRIES && pt < ENTRIES && page == pd * ENTRIES + pt
      requires dir.entries[pd].Points? && SlotOk(dir, pd)
      modifies this`flat, this`pages, frames, frames.bitmap, dir.tables[pd].entries
      ensures frames.drift == old(frames.drift) && (ok <==> !MapPanics(old(flat), dir, page))
      ensures ok ==> Coherent() && flat == Map(old(flat), dir, page)
      ensures ok ==> pages == WithPage(old(pages), dir, page, flat.mapped[(dir, page)], flags)
    {
      WalkFinds(pages, dir, pd, pt);
      if !dir.tables[pd].entries[pt].present {
        ok := FillEntry(dir, pd, pt, flags);
      } else {
        ok := true;
      }
    }

    /** `paging_map_page` once the indices are known; the result is false if it panics for want of a frame. */
    method MapAt(dir: PageDirectory, pd: nat, pt: nat, flags: bv32, ghost page: nat) returns (ok: bool)
      requires Coherent() && dir in dirs && pd < ENTRIES && pt < ENTRIES && page == pd * ENTRIES + pt
      modifies this`flat, this`pages, this`pts, this`repr, frames, frames.bitmap, repr
      ensures fresh(repr - old(repr)) && old(repr) <= repr && frames.drift == old(frames.drift)
      ensures ok <==> !MapPanics(old(flat), dir, page)
      ensures ok ==> Coherent() && flat == Map(old(flat), dir, page)
      ensures ok ==> pages == WithPage(old(pages), dir, page, flat.mapped[(dir, page)], flags)
      ensures DirectoryStep(dir, pd, flags)
    {
      EnsureTable(dir, pd, flags);
      ok := FillIfAbsent(dir, pd, pt, flags, page);
    }

    /**
     What a call of `paging_map_page` does to page directories: it writes the one entry, and only if there
     was no table.
     */
    twostate predicate DirectoryStep(dir: PageDirectory, pd: nat, flags: bv32)
      requires dir.entries.Length == ENTRIES && dir.tables.Length == ENTRIES && pd < ENTRIES
      reads this`dirs, this`pts, dir.entries, dir.tables, set d | d in dirs :: d.entries
    {
      && dirs == old(dirs)
      && (forall d | d in dirs && d != dir :: d.entries[..] == old(d.entries[..]))
      && if old(dir.entries[pd].Points?)
        then pts == old(pts) && dir.entries[..] == old(dir.entries[..])
        else
          && |pts| == |old(pts)| + 1 && dir.tables[pd] != null
          && dir.entries[..] == old(dir.entries[..])[pd := Points(dir.tables[pd].address, flags)]
    }

    /** `paging_map_page`. */
    method MapPage(dir: PageDirectory, virt: Word, flags: bv32) returns (ok: bool)
      requires Coherent() && dir in dirs
      modifies this`flat, this`pages, this`pts, this`repr, frames, frames.bitmap, repr
      ensures fresh(repr - old(repr)) && old(repr) <= repr && frames.drift == old(frames.drift)
      ensures ok <==> !MapPanics(old(flat), dir, virt / PAGE_SIZE)
      ensures ok ==> Coherent() && flat == Map(old(flat), dir, virt / PAGE_SIZE)
      ensures ok && (dir, virt / 0x1000) in old(pages) ==> pages == old(pages)
      ensures ok && (dir, virt / 0x1000) !in old(pages) ==>
        pages == old(pages)[(dir, virt / 0x1000) :=
          Entry(true, flags & 2 != 0, flags & 4 != 0, flat.mapped[(dir, virt / 0x1000)])]
      ensures ok && FlatOk(old(flat)) ==> Valid()
      ensures DirectoryStep(dir, virt / 0x40_0000, flags)
    {
      var pd, pt := virt / 0x40_0000, virt / PAGE_SIZE % ENTRIES;
      ghost var was := flat;
      ok := MapAt(dir, pd, pt, flags, virt / PAGE_SIZE);
      if ok && FlatOk(was) { MapOk(was, dir, virt / PAGE_SIZE); }
    }

    /** Where an entry lies: behind the slot the upper 10 bits select, at the index the next 10 bits select. */
    lemma EntryPlace(dir: PageDirectory, virt: Word)
      requires Coherent() && dir in dirs
      ensures dir.entries.Length == dir.tables.Length == 0x400
      ensures var slot, index := virt / 0x40_0000, virt / 0x1000 % 0x400;
        if !dir.entries[slot].Points? then (dir, virt / 0x1000) !in pages
        else
          && dir.tables[slot] != null && dir.tables[slot].entries.Length == 0x400
          && ((dir, virt / 0x1000) in pages <==> dir.tables[slot].entries[index].present)
          && ((dir, virt / 0x1000) in pages ==> dir.tables[slot].entries[index] == pages[(dir, virt / 0x1000)])
    {
      WalkFinds(pages, dir, virt / 0x40_0000, virt / 0x1000 % 0x400);
    }

    /** The walk that unmapping, translating and asking for presence share. */
    method Walk(dir: PageDirectory, pd: nat, pt: nat) returns (e: Option<Entry>)
      requires Coherent() && dir in dirs && pd < ENTRIES && pt < ENTRIES
      ensures e == EntryOf(pages, dir, pd * ENTRIES + pt)
      ensures e != None ==> dir.entries[pd].Points? && SlotOk(dir, pd)
    {
      WalkFinds(pages, dir, pd, pt);
      if !dir.entries[pd].Points? { return None; }
      assert SlotOk(dir, pd);
      var entry := dir.tables[pd].entries[pt];
      e := if entry.present then Some(entry) else None;
    }

    /** The clearing branch of `paging_unmap_page`. */
    method ClearEntry(dir: PageDirectory, pd: nat, pt: nat, e: Entry)
      requires Coherent() && dir in dirs && pd < ENTRIES && pt < ENTRIES && dir.entries[pd].Points? && SlotOk(dir, pd)
      requires (dir, pd * ENTRIES + pt) in pages && pages[(dir, pd * ENTRIES + pt)] == e
      modifies this`flat, this`pages, frames, frames.bitmap, dir.tables[pd].entries
      ensures Coherent() && flat == Unmap(old(flat), dir, pd * ENTRIES + pt)
      ensures pages == old(pages) - {(dir, pd * ENTRIES + pt)}
      ensures frames.drift == old(frames.drift) + (if e.frame in old(flat.free) then 1 else 0)
    {
      label before:
      frames.Free(e.frame);
      TablesKept@before(pages);
      var cleared := e.(present := false);
      UnmapRemoves(flat, pages, dir, pd * ENTRIES + pt, cleared);
      Commit(dir, pd, pt, cleared, Unmap(flat, dir, pd * ENTRIES + pt));
    }

    /** `paging_unmap_page` once the indices are known. */
    method UnmapAt(dir: PageDirectory, pd: nat, pt: nat, ghost page: nat)
      requires Coherent() && dir in dirs && pd < ENTRIES && pt < ENTRIES && page == pd * ENTRIES + pt
      modifies this`flat, this`pages, frames, frames.bitmap, set t | t in pts :: t.entries
      ensures Coherent() && flat == Unmap(old(flat), dir, page) && pages == old(pages) - {(dir, page)}
      ensures frames.drift == old(frames.drift) + UnmapDrift(old(flat), dir, page)
    {
      var e := Walk(dir, pd, pt);
      if e == None {
        UnmapAbsent(flat, pages, dir, page);
      } else {
        assert dir.tables[pd] in pts && pages[(dir, page)] == e.value;
        ClearEntry(dir, pd, pt, e.value);
      }
    }

    /**
     `paging_unmap_page`, which writes to page tables but to no directory. If the frame was freed behind the
     table's back the counter drifts once more, and the frame is free even if another page is still on it.
     */
    method UnmapPage(dir: PageDirectory, virt: Word)
      requires Coherent() && dir in dirs
      modifies this`flat, this`pages, frames, frames.bitmap, set t | t in pts :: t.entries
      ensures Coherent() && flat == Unmap(old(flat), dir, virt / PAGE_SIZE)
      ensures pages == old(pages) - {(dir, virt / PAGE_SIZE)}
      ensures frames.drift == old(frames.drift) + UnmapDrift(old(flat), dir, virt / PAGE_SIZE)
      ensures FlatOk(old(flat)) ==> FlatOk(flat)
    {
      var pd, pt := virt / 0x40_0000, virt / PAGE_SIZE % ENTRIES;
      if FlatOk(flat) { UnmapOk(flat, dir, virt / PAGE_SIZE); }
      UnmapAt(dir, pd, pt, virt / PAGE_SIZE);
    }

    // -------------------------------------------------------------- translation

    /** `paging_virtual_to_physical`. */
    method VirtualToPhysical(dir: PageDirectory, virt: Word) returns (phys: Word)
      requires Coherent() && dir in dirs
      ensures phys == Translate(flat, dir, virt)
      ensures phys == if (dir, virt / 0x1000) in pages
        then pages[(dir, virt / 0x1000)].frame * 0x1000 + virt % 0x1000 else 0
    {
      var e := Walk(dir, virt / 0x40_0000, virt / PAGE_SIZE % ENTRIES);
      if e == None { return 0; }
      phys := e.value.frame * PAGE_SIZE + virt % PAGE_SIZE;
    }

    /** `paging_is_page_present`. */
    method IsPagePresent(dir: PageDirectory, virt: Word) returns (present: bool)
      requires Coherent() && dir in dirs
      ensures present <==> (dir, virt / PAGE_SIZE) in pages
    {
      var e := Walk(dir, virt / 0x40_0000, virt / PAGE_SIZE % ENTRIES);
      present := e != None;
    }

    // -------------------------------------------------------------- creation and boot

    /** A fresh directory without tables joins the others; nothing else changes. */
    twostate lemma DirectoryJoins(new dir: PageDirectory, m: PageMap)
      requires old(Tables(m)) && fresh(dir) && fresh(dir.entries) && fresh(dir.tables)
      requires dir.entries.Length == ENTRIES && dir.tables.Length == ENTRIES
      requires forall i | 0 <= i < ENTRIES :: !dir.entries[i].Points?
      requires forall k | k in m :: k.0 != dir
      requires dirs == old(dirs) + {dir} && pts == old(pts) && repr == old(repr) + {dir.entries, dir.tables}
      requires forall o | o in old(repr) :: unchanged(o)
      ensures Tables(m)
    {
      forall d: PageDirectory, i: nat {:trigger SlotOk(d, i)} | d in dirs && i < ENTRIES ensures SlotOk(d, i) {
        if d != dir { assert old(SlotOk(d, i)); }
      }
      forall d: PageDirectory, q: nat {:trigger At(d, q)} | d in dirs && q < PAGES
        ensures At(d, q) == EntryOf(m, d, q)
      {
        if d != dir {
          assert old(SlotOk(d, q / ENTRIES));
          assert old(At(d, q)) == EntryOf(m, d, q);
        } else {
          assert !dir.entries[q / ENTRIES].Points?;
        }
      }
    }

    /** `paging_create_directory`. */
    method CreateDirectory() returns (dir: PageDirectory)
      requires Coherent()
      modifies this`dirs, this`repr
      ensures Coherent() && dirs == old(dirs) + {dir} && dir !in old(dirs)
      ensures fresh(dir) && fresh(repr - old(repr)) && old(repr) <= repr
    {
      dir := new PageDirectory();
      assert forall k | k in pages :: k.0 in old(dirs) && k.0 != dir;
      dirs := dirs + {dir};
      repr := repr + {dir.entries, dir.tables};
      DirectoryJoins(dir, pages);
    }

    /** The part of `paging_init` before the kernel directory. */
    constructor (totalMemory: Word)
      ensures Booted(totalMemory / PAGE_SIZE) && fresh(frames) && fresh(frames.bitmap)
    {
      frames := new FrameBitmap(totalMemory);
      dirs, pts, repr, pages := {}, {}, {}, map[];
      flat := Flat(totalMemory / PAGE_SIZE, Range(FIRST_FRAME, totalMemory / PAGE_SIZE), {}, map[]);
      new;
      frames.FreeUpper();
    }

    /** No page is mapped yet, and all frames from 256 on are free. */
    ghost predicate Booted(total: nat)
      reads this, frames, frames.bitmap, repr
    {
      && Coherent() && dirs == {} && pts == {} && repr == {} && pages == map[] && frames.drift == 0
      && flat == Flat(total, Range(FIRST_FRAME, total), {}, map[])
    }

    /** The mapping loop of `paging_init` has mapped `n` pages. */
    ghost predicate Booting(dir: PageDirectory, total: nat, n: nat)
      requires n <= ENTRIES
      reads this, frames, frames.bitmap, repr
    {
      && Coherent() && dirs == {dir} && frames.drift == 0
      && flat == BootState(total, dir, n) && pages == BootPages(dir, n)
      && if n == 0 then pts == {} else |pts| == 1 && dir.entries[0].Points?
    }

    /** One round of the mapping loop of `paging_init`. */
    method MapBootPage(dir: PageDirectory, addr: Word, ghost i: nat, ghost total: nat) returns (ok: bool)
      requires i < ENTRIES && Booting(dir, total, i) && addr == i * PAGE_SIZE
      modifies this`flat, this`pages, this`pts, this`repr, frames, frames.bitmap, repr
      ensures fresh(repr - old(repr))
      ensures ok <==> FIRST_FRAME + i < total
      ensures ok ==> Booting(dir, total, i + 1)
    {
      BootStep(total, dir, i);
      BootPagesStep(dir, i);
      assert addr / PAGE_SIZE == i && addr / 0x40_0000 == 0 && SlotOk(dir, 0);
      ok := MapPage(dir, addr, BOOT_FLAGS);
    }

    /** The mapping loop of `paging_init`. */
    method MapBootPages(dir: PageDirectory, ghost total: nat) returns (ok: bool)
      requires Booting(dir, total, 0)
      modifies this`flat, this`pages, this`pts, this`repr, frames, frames.bitmap, repr
      ensures ok <==> total >= FIRST_FRAME + ENTRIES
      ensures ok ==> Booting(dir, total, ENTRIES)
    {
      var addr := 0;
      ghost var i := 0;
      while addr < 0x40_0000
        invariant fresh(repr - old(repr))
        invariant i <= ENTRIES && Booting(dir, total, i)
        invariant addr == i * PAGE_SIZE
        invariant i > 0 ==> FIRST_FRAME + i <= total
        decreases ENTRIES - i
      {
        ok := MapBootPage(dir, addr, i, total);
        if !ok { return; }
        addr := addr + PAGE_SIZE;
        i := i + 1;
      }
      assert i == ENTRIES;
      ok := true;
    }

    /**
     The rest of `paging_init`, up to loading the directory: with at least 1280 frames it does not panic, and it
     maps the first 4 MB through one page table onto the frames from 256 on, writable and for the kernel only.
     */
    method MapKernel(ghost total: nat) returns (ok: bool, dir: PageDirectory)
      requires Booted(total)
      modifies this`dirs, this`flat, this`pages, this`pts, this`repr, frames, frames.bitmap
      ensures ok <==> total >= 1280
      ensures ok ==> Valid() && dirs == {dir} && |pts| == 1 && frames.drift == 0
      ensures ok ==> flat == BootState(total, dir, ENTRIES)
      ensures ok ==> pages == BootPages(dir, ENTRIES)
    {
      dir := CreateDirectory();
      assert BootMap(dir, 0) == map[] && BootPages(dir, 0) == map[];
      ok := MapBootPages(dir, total);
      if ok { BootOk(total, dir); }
    }
  }

  lemma BootOk<D>(total: nat, dir: D)
    requires total >= FIRST_FRAME + ENTRIES
    ensures FlatOk(BootState(total, dir, ENTRIES))
  {
    var s := BootState(total, dir, ENTRIES);
    forall f | FIRST_FRAME <= f < FIRST_FRAME + ENTRIES ensures f in s.mapped.Values {
      assert s.mapped[(dir, f - FIRST_FRAME)] == f;
    }
  }

  /** After boot page i is on frame 256 + i for i < 1024, and the frames from 1280 on are free. */
  lemma BootExact<D>(total: nat, dir: D)
    ensures var s := BootState(total, dir, ENTRIES);
      && s.total == total && s.held == {}
      && (forall f: nat :: f in s.free <==> 1280 <= f < total)
      && (forall e: D, i: nat :: (e, i) in s.mapped <==> e == dir && i < 1024)
      && forall i: nat | i < 1024 :: s.mapped[(dir, i)] == 256 + i
  {
  }

  /** After boot the first 4 MB translate to the addresses 1 MB higher, and nothing else is mapped. */
  lemma BootTranslation<D>(total: nat, dir: D, virt: Word)
    requires total >= FIRST_FRAME + ENTRIES
    ensures Translate(BootState(total, dir, ENTRIES), dir, virt) == if virt < 0x40_0000 then virt + 0x10_0000 else 0
  {
    var page := virt / PAGE_SIZE;
    assert virt < 0x40_0000 <==> page < ENTRIES;
    if page < ENTRIES {
      assert BootMap(dir, ENTRIES)[(dir, page)] == FIRST_FRAME + page;
    }
  }

  /**
   Directly after boot, with frames to spare: freeing frame 256, which page 0 is on, and mapping page 1024 puts
   both pages on it; unmapping one of them leaves the other on a free frame.
   */
  lemma SharedAfterBoot<D>(total: nat, dir: D)
    requires total >= FIRST_FRAME + ENTRIES
    ensures var s := Release(BootState(total, dir, ENTRIES), FIRST_FRAME);
      && !MapPanics(s, dir, ENTRIES)
      && (dir, 0) in Map(s, dir, ENTRIES).mapped && Map(s, dir, ENTRIES).mapped[(dir, 0)] == FIRST_FRAME
      && Map(s, dir, ENTRIES).mapped[(dir, ENTRIES)] == FIRST_FRAME
    ensures var t := Unmap(Map(Release(BootState(total, dir, ENTRIES), FIRST_FRAME), dir, ENTRIES), dir, ENTRIES);
      (dir, 0) in t.mapped && t.mapped[(dir, 0)] in t.free
  {
    var s := BootState(total, dir, ENTRIES);
    assert (dir, 0) in s.mapped && s.mapped[(dir, 0)] == FIRST_FRAME && (dir, ENTRIES) !in s.mapped;
    ReleaseOfMappedIsShared(s, (dir, 0), dir, ENTRIES);
  }

  lemma TranslatePresent<D>(s: Flat<D>, d: D, virt: nat, page: nat)
    requires page == virt / 0x1000 && (d, page) in s.mapped
    ensures Translate(s, d, virt) == s.mapped[(d, page)] * 0x1000 + virt % 0x1000
  {
  }

  lemma JoinedWord(frame: nat, v: bv32, w: bv32) returns (virt: nat, phys: nat)
    requires frame < 0x10_0000 && w == ((frame as bv32) << 12) | (v & 0xFFF)
    ensures virt == v as int && phys == w as int && phys == frame * 0x1000 + virt % 0x1000
  {
    AddressJoin(frame, v);
    virt, phys := v as int, w as int;
  }

  /** The translation of a linear address is the word `w` that the code puts together from frame and offset. */
  lemma TranslateIsJoin<D>(s: Flat<D>, d: D, v: bv32, w: bv32, frame: nat) returns (virt: nat, phys: nat)
    requires frame < 0x10_0000 && w == ((frame as bv32) << 12) | (v & 0xFFF)
    ensures virt == v as int && phys == w as int
    ensures (d, virt / 0x1000) in s.mapped && s.mapped[(d, virt / 0x1000)] == frame ==> Translate(s, d, virt) == phys
  {
    virt, phys := JoinedWord(frame, v, w);
    if (d, virt / 0x1000) in s.mapped { TranslatePresent(s, d, virt, virt / 0x1000); }
  }
}
