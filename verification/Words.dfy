/**
 Machine words. The kernel computes on 32-bit unsigned integers that wrap; here a
 word is an integer in range and every wrap is written out.
 */
module Words {

  const PAGE_SIZE := 4096
  const U32_MAX := 0xFFFF_FFFF
  const U32_LIMIT := 0x1_0000_0000
  const U64_LIMIT := 0x1_0000_0000_0000_0000

  type u32 = x: int | 0 <= x < 0x1_0000_0000
  type u64 = x: int | 0 <= x < 0x1_0000_0000_0000_0000
  type u8 = x: int | 0 <= x < 256

  datatype Option<+T> = None | Some(value: T)

  function Wrap32(x: int): (r: u32)
    ensures 0 <= x < U32_LIMIT ==> r == x
  {
    x % U32_LIMIT
  }

  function Wrap64(x: int): (r: u64)
    ensures 0 <= x < U64_LIMIT ==> r == x
    ensures U64_LIMIT <= x < 2 * U64_LIMIT ==> r == x - U64_LIMIT
  {
    x % U64_LIMIT
  }

  /** A word read as a signed integer. */
  function Signed32(w: u32): (r: int)
    ensures (r >= 0 <==> w < 0x8000_0000) && (r == w || r == w - U32_LIMIT)
  {
    if w < 0x8000_0000 then w else w - U32_LIMIT
  }

  /** The start of the page that holds `v`. */
  function AlignDown4k(v: u32): (r: u32)
    ensures r % PAGE_SIZE == 0 && r <= v < r + PAGE_SIZE
  {
    v / PAGE_SIZE * PAGE_SIZE
  }

  /** The first page boundary at or above `v`; the addition wraps past the last page. */
  function AlignUp4k(v: u32): (r: u32)
    ensures v <= 0xFFFF_F000 ==> r % PAGE_SIZE == 0 && v <= r < v + PAGE_SIZE
    ensures v > 0xFFFF_F000 ==> r == 0
  {
    AlignDown4k(Wrap32(v + 0xFFF))
  }

  // Strings

  /** A terminated string of bytes, without its terminator. */
  type Str = s: seq<u8> | forall i :: 0 <= i < |s| ==> s[i] != 0 witness []

  /** A text as it fits a buffer of `size` bytes with its terminator. */
  function Truncated(text: Str, size: int): (r: Str)
    requires size > 0
    ensures |r| < size && r <= text && (|text| < size ==> r == text) && (|text| >= size ==> |r| == size - 1)
  {
    if |text| < size then text else text[..size - 1]
  }

  // Single bits of a 32-bit word

  function Mask(k: int): bv32
    requires 0 <= k < 32
  {
    (1 as bv32) << k
  }

  function Common(w: bv32, m: bv32): bv32 {
    w & m
  }

  predicate Hits(w: bv32, m: bv32) {
    Common(w, m) != 0
  }

  function WithMask(w: bv32, m: bv32): bv32 {
    w | m
  }

  function WithoutMask(w: bv32, m: bv32): bv32 {
    w & !m
  }

  lemma MasksApart(i: int, j: int)
    requires 0 <= i < 32 && 0 <= j < 32
    ensures Hits(Mask(i), Mask(j)) <==> i == j
  {
  }

  lemma SetOther(w: bv32, a: bv32, b: bv32)
    requires Common(a, b) == 0
    ensures Common(WithMask(w, a), b) == Common(w, b)
  {
  }

  lemma ClearOther(w: bv32, a: bv32, b: bv32)
    requires Common(a, b) == 0
    ensures Common(WithoutMask(w, a), b) == Common(w, b)
  {
  }

  lemma OwnMask(w: bv32, a: bv32)
    requires Hits(a, a)
    ensures Hits(WithMask(w, a), a)
    ensures !Hits(WithoutMask(w, a), a)
    ensures Hits(0xFFFF_FFFF, a)
  {
  }

  /** Setting or clearing bit `i` of a word changes bit `i` and no other. */
  lemma UpdateBit(w: bv32, i: int, j: int)
    requires 0 <= i < 32 && 0 <= j < 32
    ensures Hits(WithMask(w, Mask(i)), Mask(j)) == (j == i || Hits(w, Mask(j)))
    ensures Hits(WithoutMask(w, Mask(i)), Mask(j)) == (j != i && Hits(w, Mask(j)))
  {
    hide Common, WithMask, WithoutMask, Mask;
    MasksApart(i, j);
    if i == j {
      OwnMask(w, Mask(i));
    } else {
      SetOther(w, Mask(i), Mask(j));
      ClearOther(w, Mask(i), Mask(j));
    }
  }

  lemma FullWord(j: int)
    requires 0 <= j < 32
    ensures Hits(0xFFFF_FFFF, Mask(j))
  {
    MasksApart(j, j);
    OwnMask(0, Mask(j));
  }

  /** A set bit of the word with bits 0 to 7, 9 to 11 and 13 to 19. */
  lemma UserCallBits(j: int)
    requires 0 <= j < 32
    ensures Hits(0x000F_EEFF, Mask(j)) <==> j < 20 && j != 8 && j != 12
  {
  }

  lemma SmallerSet(a: set<int>, b: set<int>)
    requires a <= b
    ensures |a| <= |b| && (a != b ==> |a| < |b|)
  {
    assert b == a + (b - a);
  }
}
