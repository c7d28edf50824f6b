/** The bit operations of kernel/memory/paging.c and the arithmetic they stand for. */
module Bits {

  // ---------------------------------------------------------------- bitmap bytes

  /** `1 << bit`, in a byte. */
  function Mask(bit: nat): bv8
    requires bit < 8
  {
    1 << bit
  }

  predicate IsSet(b: bv8, bit: nat)
    requires bit < 8
  {
    b & Mask(bit) != 0
  }

  lemma MaskValues()
    ensures Mask(0) == 1 && Mask(1) == 2 && Mask(2) == 4 && Mask(3) == 8
    ensures Mask(4) == 16 && Mask(5) == 32 && Mask(6) == 64 && Mask(7) == 128
  {
  }

  lemma MasksApart(i: nat, j: nat)
    requires i < 8 && j < 8
    ensures Mask(i) & Mask(j) == if i == j then Mask(i) else 0
    ensures Mask(i) != 0
  {
    MaskValues();
  }

  lemma Overlay(b: bv8, m: bv8, n: bv8)
    ensures (b | m) & n != 0 <==> b & n != 0 || m & n != 0
    ensures m & n == 0 ==> (b & !m) & n == b & n
    ensures (b & !m) & m == 0
  {
  }

  /** `b | (1 << i)` sets bit `i` and no other, `b & ~(1 << i)` clears it and no other. */
  lemma SetAndClear(b: bv8, i: nat, j: nat)
    requires i < 8 && j < 8
    ensures IsSet(b | Mask(i), j) <==> i == j || IsSet(b, j)
    ensures IsSet(b & !Mask(i), j) <==> i != j && IsSet(b, j)
  {
    MasksApart(i, j);
    Overlay(b, Mask(i), Mask(j));
  }

  /** All bits of 0xFF are set. */
  lemma AllSet(j: nat)
    requires j < 8
    ensures IsSet(0xFF, j)
  {
    MasksApart(j, j);
    AllOnes(Mask(j));
  }

  lemma AllOnes(m: bv8)
    ensures 0xFF & m == m
  {
  }

  // ---------------------------------------------------------------- words as numbers

  lemma Append1(f: bv32, v: bv32, j: bv32, o: bv32)
    requires f < 0x8000_0000 && o == v & 1 && j == (f << 1) | (v & 1)
    ensures j as int == f as int * 2 + o as int
  {
  }

  lemma Append12(f: bv32, v: bv32, j: bv32, o: bv32)
    requires f < 0x10_0000 && o == v & 0xFFF && j == (f << 12) | (v & 0xFFF)
    ensures j as int == f as int * 0x1000 + o as int
  {
  }

  lemma LargeWord(v: bv32)
    requires v >= 0x8000_0000
    ensures v as int >= 0x8000_0000
  {
  }

  lemma LargeFrame(v: bv32)
    requires v >= 0x10_0000
    ensures v as int >= 0x10_0000
  {
  }

  lemma SmallWord(v: bv32)
    requires v as int < 0x8000_0000
    ensures v < 0x8000_0000
  {
    if v >= 0x8000_0000 { LargeWord(v); }
  }

  lemma AppendBit(b: bv32, c: bv32, j: bv32)
    requires b < 0x8000_0000 && c <= 1 && j == (b << 1) | c
    ensures j as int == b as int * 2 + c as int
  {
    assert c & 1 == c;
    Append1(b, c, j, c);
  }

  /** The word with value `n`, bit by bit. */
  ghost function WordOf(n: nat): (v: bv32)
    requires n < 0x1_0000_0000
    ensures v as int == n
  {
    if n == 0 then 0
    else
      var b, c := WordOf(n / 2), if n % 2 == 1 then 1 else 0;
      SmallWord(b);
      AppendBit(b, c, (b << 1) | c);
      (b << 1) | c
  }

  /** Converting a number below 2^32 to a word and back. */
  lemma WordRoundTrip(n: nat)
    requires n < 0x1_0000_0000
    ensures (n as bv32) as int == n
  {
    var v := WordOf(n);
    assert (v as int) as bv32 == v;
  }

  // ---------------------------------------------------------------- addresses

  lemma FieldBounds(v: bv32)
    ensures (v >> 22) as int < 0x400 && ((v >> 12) & 0x3FF) as int < 0x400 && (v & 0xFFF) as int < 0x1000
  {
  }

  lemma PageOfIndices(v: bv32)
    ensures (v >> 12) as int == (v >> 22) as int * 0x400 + ((v >> 12) & 0x3FF) as int
  {
  }

  lemma PageAndOffset(v: bv32)
    ensures v as int == (v >> 12) as int * 0x1000 + (v & 0xFFF) as int
  {
    assert ((v >> 12) << 12) | (v & 0xFFF) == v && v >> 12 < 0x10_0000;
    Append12(v >> 12, v, v, v & 0xFFF);
  }

  lemma Digits(v: int, pd: int, pt: int, offset: int)
    requires 0 <= pd && 0 <= pt < 0x400 && 0 <= offset < 0x1000
    requires v == (pd * 0x400 + pt) * 0x1000 + offset
    ensures v / 0x1000 == pd * 0x400 + pt && v % 0x1000 == offset
  {
  }

  /** The shifts and masks that take a linear address apart give its page number and its offset. */
  lemma AddressSplit(v: bv32)
    ensures (v >> 22) as int < 0x400 && ((v >> 12) & 0x3FF) as int < 0x400
    ensures v as int / 0x1000 == (v >> 22) as int * 0x400 + ((v >> 12) & 0x3FF) as int
    ensures v as int % 0x1000 == (v & 0xFFF) as int
  {
    FieldBounds(v);
    PageOfIndices(v);
    PageAndOffset(v);
    Digits(v as int, (v >> 22) as int, ((v >> 12) & 0x3FF) as int, (v & 0xFFF) as int);
  }

  /** Putting a 20-bit frame number and an offset together neither overlaps nor truncates. */
  lemma AddressJoin(frame: nat, v: bv32)
    requires frame < 0x10_0000
    ensures (((frame as bv32) << 12) | (v & 0xFFF)) as int == frame * 0x1000 + v as int % 0x1000
  {
    var f := frame as bv32;
    WordRoundTrip(frame);
    if f >= 0x10_0000 {
      LargeFrame(f);
    } else {
      Append12(f, v, (f << 12) | (v & 0xFFF), v & 0xFFF);
      AddressSplit(v);
    }
  }

  // ---------------------------------------------------------------- directory entries

  /**
   `table | flags | PAGE_PRESENT`, for flags below 4096, keeps the table's address in its upper 20 bits and
   the flags in its lower 12 exactly if the table begins a page.
   */
  lemma DirectoryEntry(table: bv32, flags: bv32)
    requires flags < 0x1000
    ensures var e := table | flags | 1;
      (e & 0xFFFF_F000 == table && e & 0xFFF == flags | 1) <==> table & 0xFFF == 0
  {
  }
}
