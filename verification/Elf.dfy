/**
 The ELF32 loader: copies the PT_LOAD segments of an executable into one code page, as the
 System V ABI describes them (chapter 4, "ELF Header"; chapter 5, "Program Header").
 */
module Elf {
  import opened Words

  const EHDR_SIZE := 52
  const PHDR_SIZE := 32
  const PT_LOAD := 1

  function U16(s: seq<u8>, o: int): (r: int)
    requires 0 <= o && o + 2 <= |s|
    ensures 0 <= r < 0x1_0000
  {
    s[o] as int + s[o + 1] as int * 0x100
  }

  function U32(s: seq<u8>, o: int): (r: u32)
    requires 0 <= o && o + 4 <= |s|
  {
    s[o] as int + s[o + 1] as int * 0x100 + s[o + 2] as int * 0x1_0000 + s[o + 3] as int * 0x100_0000
  }

  /** An image as the loader is given it: its length is a 32-bit number. */
  type Image = s: seq<u8> | |s| < 0x1_0000_0000 witness []

  datatype Phdr = Phdr(kind: u32, offset: u32, vaddr: u32, filesz: u32, memsz: u32)

  function Entry(img: Image): u32
    requires |img| >= EHDR_SIZE
  {
    U32(img, 24)
  }

  function PhOff(img: Image): u32
    requires |img| >= EHDR_SIZE
  {
    U32(img, 28)
  }

  function PhNum(img: Image): int
    requires |img| >= EHDR_SIZE
  {
    U16(img, 44)
  }

  predicate IsElf32(img: Image) {
    |img| >= EHDR_SIZE && img[0] == 0x7F && img[1] == 'E' as int && img[2] == 'L' as int && img[3] == 'F' as int
  }

  /** The header checks, with the 32-bit subtraction in the last one. */
  predicate HeaderOk(img: Image) {
    && IsElf32(img)
    && img[4] == 1 && img[5] == 1 && img[6] == 1
    && U16(img, 18) == 3 && U16(img, 16) == 2 && U32(img, 20) == 1
    && U16(img, 40) == EHDR_SIZE && U16(img, 42) == PHDR_SIZE
    && PhOff(img) <= |img|
    && (PhNum(img) > 0 ==> PhOff(img) <= Wrap32(|img| - PhNum(img) * PHDR_SIZE))
  }

  /** The program headers lie inside the image. */
  predicate TableInside(img: Image)
    requires |img| >= EHDR_SIZE
  {
    PhOff(img) + PhNum(img) * PHDR_SIZE <= |img|
  }

  /** The header checks keep the table inside the image exactly when the table is no longer than the image. */
  lemma TableInsideExact(img: Image)
    requires HeaderOk(img)
    ensures TableInside(img) <==> PhNum(img) * PHDR_SIZE <= |img|
  {
    var rest := |img| - PhNum(img) * PHDR_SIZE;
    if rest >= 0 {
      assert Wrap32(rest) == rest;
    }
  }

  /** A bare header that announces two program headers passes the checks; its table does not fit. */
  function BareByte(i: int): u8 {
    if i == 0 then 0x7F else if i == 1 then 0x45 else if i == 2 then 0x4C else if i == 3 then 0x46
    else if 4 <= i <= 6 then 1
    else if i == 16 then 2 else if i == 18 then 3 else if i == 20 then 1
    else if i == 40 then 52 else if i == 42 then 32 else if i == 44 then 2
    else 0
  }

  lemma BareHeaderEscapes()
    ensures var img: Image := seq(EHDR_SIZE, i => BareByte(i)); HeaderOk(img) && !TableInside(img)
  {
    var img: Image := seq(EHDR_SIZE, i => BareByte(i));
    assert 'E' as int == 0x45 && 'L' as int == 0x4C && 'F' as int == 0x46;
    assert PhNum(img) == 2 && PhOff(img) == 0;
  }

  function Ph(img: Image, i: int): Phdr
    requires |img| >= EHDR_SIZE && TableInside(img) && 0 <= i < PhNum(img)
  {
    var o := PhOff(img) + i * PHDR_SIZE;
    Phdr(U32(img, o), U32(img, o + 4), U32(img, o + 8), U32(img, o + 16), U32(img, o + 20))
  }

  predicate Loads(p: Phdr) {
    p.kind == PT_LOAD && p.memsz != 0
  }

  /** A segment that may be loaded into `[base, base + size)` from an image of `len` bytes. */
  predicate Fits(p: Phdr, len: int, base: int, size: int) {
    && p.vaddr + p.memsz <= U32_MAX && p.filesz <= p.memsz
    && p.offset + p.filesz <= len
    && base <= p.vaddr && p.vaddr - base + p.memsz <= size
  }

  predicate Covers(p: Phdr, base: int, j: int) {
    p.vaddr - base <= j < p.vaddr - base + p.memsz
  }

  /** The byte that a segment puts at page offset `j`: file contents first, then zeros. */
  function SegByte(p: Phdr, img: Image, base: int, j: int): u8
    requires p.offset + p.filesz <= |img| && Covers(p, base, j)
  {
    var k := j - (p.vaddr - base);
    if k < p.filesz then img[p.offset + k] else 0
  }

  /** The segments among the first `n` headers are all acceptable. */
  predicate AllFit(img: Image, n: int, base: int, size: int)
    requires |img| >= EHDR_SIZE && TableInside(img) && 0 <= n <= PhNum(img)
  {
    forall i :: 0 <= i < n && Loads(Ph(img, i)) ==> Fits(Ph(img, i), |img|, base, size)
  }

  /** The page byte at `j` after the first `n` headers: the last segment that covers `j` decides. */
  function PageByte(img: Image, n: int, base: int, size: int, j: int): u8
    requires |img| >= EHDR_SIZE && TableInside(img) && 0 <= n <= PhNum(img) && AllFit(img, n, base, size)
  {
    if n == 0 then 0
    else if Loads(Ph(img, n - 1)) && Covers(Ph(img, n - 1), base, j) then SegByte(Ph(img, n - 1), img, base, j)
    else PageByte(img, n - 1, base, size, j)
  }

  /** Some loaded segment among the first `n` contains the address `a`. */
  ghost predicate InSegment(img: Image, n: int, a: int)
    requires |img| >= EHDR_SIZE && TableInside(img) && 0 <= n <= PhNum(img)
  {
    exists i :: 0 <= i < n && Loads(Ph(img, i)) && Ph(img, i).vaddr <= a < Ph(img, i).vaddr + Ph(img, i).memsz
  }

  /** The images that load into `[base, base + size)`. */
  ghost predicate Loadable(img: Image, base: int, size: int) {
    && HeaderOk(img) && TableInside(img)
    && AllFit(img, PhNum(img), base, size)
    && InSegment(img, PhNum(img), Entry(img))
  }

  /** The page really is the last writer's: no later segment covers the byte. */
  lemma {:induction false} LastWriterWins(img: Image, n: int, base: int, size: int, j: int, i: int)
    requires |img| >= EHDR_SIZE && TableInside(img) && 0 <= i < n <= PhNum(img) && AllFit(img, n, base, size)
    requires Loads(Ph(img, i)) && Covers(Ph(img, i), base, j)
    requires forall k :: i < k < n && Loads(Ph(img, k)) ==> !Covers(Ph(img, k), base, j)
    ensures PageByte(img, n, base, size, j) == SegByte(Ph(img, i), img, base, j)
    decreases n
  {
    if i < n - 1 {
      LastWriterWins(img, n - 1, base, size, j, i);
    }
  }

  lemma {:induction false} UntouchedIsZero(img: Image, n: int, base: int, size: int, j: int)
    requires |img| >= EHDR_SIZE && TableInside(img) && 0 <= n <= PhNum(img) && AllFit(img, n, base, size)
    requires forall k :: 0 <= k < n && Loads(Ph(img, k)) ==> !Covers(Ph(img, k), base, j)
    ensures PageByte(img, n, base, size, j) == 0
    decreases n
  {
    if n > 0 {
      UntouchedIsZero(img, n - 1, base, size, j);
    }
  }

  // The loader as it runs

  method CopyBytes(dst: array<u8>, at: nat, src: Image, from: nat, n: nat)
    requires at + n <= dst.Length && from + n <= |src|
    modifies dst
    ensures forall j :: 0 <= j < dst.Length ==> dst[j] == if at <= j < at + n then src[from + (j - at)] else old(dst[j])
  {
    for i := 0 to n
      invariant forall j :: 0 <= j < dst.Length ==>
                  dst[j] == if at <= j < at + i then src[from + (j - at)] else old(dst[j])
    {
      dst[at + i] := src[from + i];
    }
  }

  method ZeroBytes(dst: array<u8>, at: nat, n: nat)
    requires at + n <= dst.Length
    modifies dst
    ensures forall j :: 0 <= j < dst.Length ==> dst[j] == if at <= j < at + n then 0 else old(dst[j])
  {
    for i := 0 to n
      invariant forall j :: 0 <= j < dst.Length ==> dst[j] == if at <= j < at + i then 0 else old(dst[j])
    {
      dst[at + i] := 0;
    }
  }

  /** Writes one segment into the page. */
  method PlaceSegment(img: Image, p: Phdr, code: array<u8>, base: u32)
    requires Fits(p, |img|, base, code.Length)
    modifies code
    ensures forall j :: 0 <= j < code.Length ==>
              code[j] == if Covers(p, base, j) then SegByte(p, img, base, j) else old(code[j])
  {
    var off := p.vaddr - base;
    if p.filesz > 0 {
      CopyBytes(code, off, img, p.offset, p.filesz);
    }
    if p.memsz > p.filesz {
      ZeroBytes(code, off + p.filesz, p.memsz - p.filesz);
    }
  }

  /** Some header among the first `n` is loaded. */
  ghost predicate AnyLoaded(img: Image, n: int)
    requires |img| >= EHDR_SIZE && TableInside(img) && 0 <= n <= PhNum(img)
  {
    exists k :: 0 <= k < n && Loads(Ph(img, k))
  }

  /** The page after the first `n` headers. */
  ghost predicate PageIs(page: seq<u8>, img: Image, n: int, base: int)
    requires |img| >= EHDR_SIZE && TableInside(img) && 0 <= n <= PhNum(img) && AllFit(img, n, base, |page|)
  {
    forall j :: 0 <= j < |page| ==> page[j] == PageByte(img, n, base, |page|, j)
  }

  lemma Step(img: Image, n: int, base: int, size: int, a: int)
    requires |img| >= EHDR_SIZE && TableInside(img) && 0 <= n < PhNum(img)
    ensures AllFit(img, n + 1, base, size) <==>
            AllFit(img, n, base, size) && (Loads(Ph(img, n)) ==> Fits(Ph(img, n), |img|, base, size))
    ensures InSegment(img, n + 1, a) <==>
            InSegment(img, n, a) || (Loads(Ph(img, n)) && Ph(img, n).vaddr <= a < Ph(img, n).vaddr + Ph(img, n).memsz)
    ensures AnyLoaded(img, n + 1) <==> AnyLoaded(img, n) || Loads(Ph(img, n))
  {
    hide Fits, Ph;
  }

  lemma {:induction false} AllFitPrefix(img: Image, n: int, m: int, base: int, size: int)
    requires |img| >= EHDR_SIZE && TableInside(img) && 0 <= n <= m <= PhNum(img) && AllFit(img, m, base, size)
    ensures AllFit(img, n, base, size)
  {
  }

  method LoadSegments(img: Image, code: array<u8>, base: u32) returns (ok: bool, any: bool, hit: bool)
    requires |img| >= EHDR_SIZE && TableInside(img)
    modifies code
    ensures ok <==> AllFit(img, PhNum(img), base, code.Length)
    ensures ok ==> (any <==> AnyLoaded(img, PhNum(img))) && (hit <==> InSegment(img, PhNum(img), Entry(img)))
    ensures ok ==> PageIs(code[..], img, PhNum(img), base)
  {
    hide Fits, Ph, AllFit, InSegment, AnyLoaded, SegByte, Covers;
    ZeroBytes(code, 0, code.Length);
    assert AllFit(img, 0, base, code.Length) && !AnyLoaded(img, 0) && !InSegment(img, 0, Entry(img)) by {
      StartFacts(img, base, code.Length);
    }
    ok, any, hit := true, false, false;
    var i := 0;
    while i < PhNum(img)
      invariant 0 <= i <= PhNum(img) && ok && AllFit(img, i, base, code.Length)
      invariant (any <==> AnyLoaded(img, i)) && (hit <==> InSegment(img, i, Entry(img)))
      invariant PageIs(code[..], img, i, base)
    {
      Step(img, i, base, code.Length, Entry(img));
      var p := Ph(img, i);
      if Loads(p) {
        if !Fits(p, |img|, base, code.Length) {
          if AllFit(img, PhNum(img), base, code.Length) {
            AllFitPrefix(img, i + 1, PhNum(img), base, code.Length);
          }
          ok := false;
          return;
        }
        PlaceSegment(img, p, code, base);
        if p.vaddr <= Entry(img) < p.vaddr + p.memsz {
          hit := true;
        }
        any := true;
      }
      i := i + 1;
    }
  }

  lemma StartFacts(img: Image, base: int, size: int)
    requires |img| >= EHDR_SIZE && TableInside(img)
    ensures AllFit(img, 0, base, size) && !AnyLoaded(img, 0) && !InSegment(img, 0, Entry(img))
  {
  }

  /** An entry point inside a loaded segment lies inside the page. */
  lemma EntryInPage(img: Image, n: int, base: int, size: int, a: int)
    requires |img| >= EHDR_SIZE && TableInside(img) && 0 <= n <= PhNum(img)
    requires AllFit(img, n, base, size) && InSegment(img, n, a)
    ensures base <= a < base + size && AnyLoaded(img, n)
  {
  }

  /**
   Loads an image into the page at `base`. On success the page is the zero page overlaid by the
   segments in header order, and the entry point lies in a loaded segment.
   */
  method LoadElf32(img: Image, code: array<u8>, base: u32) returns (ok: bool, entry: u32)
    requires base + code.Length <= U32_MAX
    requires HeaderOk(img) ==> PhNum(img) * PHDR_SIZE <= |img|
    modifies code
    ensures ok <==> Loadable(img, base, code.Length)
    ensures ok ==> entry == Entry(img) && base <= entry < base + code.Length
    ensures ok ==> PageIs(code[..], img, PhNum(img), base)
  {
    ok, entry := false, 0;
    if !HeaderOk(img) {
      return;
    }
    TableInsideExact(img);
    hide HeaderOk, AllFit, InSegment, AnyLoaded, PageIs, TableInside;
    var fit, loadedAny, entryInLoad := LoadSegments(img, code, base);
    if !fit {
      return;
    }
    if entryInLoad {
      EntryInPage(img, PhNum(img), base, code.Length, Entry(img));
    }
    if !loadedAny {
      return;
    }
    if Entry(img) < base || Entry(img) >= base + code.Length {
      return;
    }
    if !entryInLoad {
      return;
    }
    ok, entry := true, Entry(img);
  }
}
