/** Bytes, 32-bit words and their little-endian layout in memory. */
module Bytes {

  const WORD_LIMIT := 0x1_0000_0000

  type byte = x: int | 0 <= x < 0x100
  type Word = x: int | 0 <= x < WORD_LIMIT

  /** The 32-bit word stored at byte address `a`. */
  function Load32(m: seq<byte>, a: nat): Word
    requires a + 4 <= |m|
  {
    m[a] as int + 0x100 * m[a + 1] as int + 0x1_0000 * m[a + 2] as int + 0x100_0000 * m[a + 3] as int
  }

  /** `m` and `m'` hold the same bytes at addresses `lo` up to `hi`. */
  ghost predicate Same(m: seq<byte>, m': seq<byte>, lo: nat, hi: nat) {
    |m| == |m'| && forall a | lo <= a < hi && a < |m| :: m'[a] == m[a]
  }

  /** `m'` is `m` after storing the word `w` at byte address `a`. */
  ghost predicate Store32(m: seq<byte>, m': seq<byte>, a: nat, w: Word) {
    a + 4 <= |m| == |m'| && Load32(m', a) == w && Same(m, m', 0, a) && Same(m, m', a + 4, |m|)
  }

  /** A 32-bit count returned as a C `int`. */
  function AsInt(w: Word): int {
    if w < 0x8000_0000 then w else w - WORD_LIMIT
  }

  /** The C `int` `count` is `n` modulo 2^32, hence `n` itself below 2^31. */
  ghost predicate CountIs(count: int, n: nat) {
    -0x8000_0000 <= count < 0x8000_0000 && (count - n) % 0x1_0000_0000 == 0
  }

  lemma AsIntExact(w: Word)
    ensures CountIs(AsInt(w), w)
  {
  }

  /** No other number is: small counts are returned as they are, larger ones come out negative. */
  lemma CountIsExact(count: int, n: nat)
    requires CountIs(count, n)
    ensures n < 0x8000_0000 ==> count == n
    ensures 0x8000_0000 <= n < 0x1_0000_0000 ==> count == n - 0x1_0000_0000
  {
  }

  /** The lowest byte comes first, as on the 32-bit x86 target. */
  lemma LittleEndian(m: seq<byte>)
    requires m == [0x78, 0x56, 0x34, 0x12]
    ensures Load32(m, 0) == 0x1234_5678
  {
  }
}
