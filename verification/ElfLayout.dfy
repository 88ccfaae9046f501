/**
 Executables as the System V ABI lays them out, byte by byte (chapter 4, "ELF Header"; chapter 5, "Program Header"),
 and what the loader makes of them.
 */
module ElfLayout {
  import opened Words
  import opened Elf
  import Loader

  type u16 = x: int | 0 <= x < 0x1_0000

  /** The ELF header, field by field. */
  datatype Ehdr = Ehdr(ident: seq<u8>, kind: u16, machine: u16, version: u32, entry: u32, phoff: u32, shoff: u32,
                       flags: u32, ehsize: u16, phentsize: u16, phnum: u16, shentsize: u16, shnum: u16, shstrndx: u16)

  /** A program header, field by field. */
  datatype Segment = Segment(kind: u32, offset: u32, vaddr: u32, paddr: u32, filesz: u32, memsz: u32, flags: u32,
                             align: u32)

  /** The `k`th byte of a number, the least first. */
  function Byte(v: u32, k: nat): u8 {
    if k == 0 then v % 0x100 else Byte(v / 0x100, k - 1)
  }

  function EhdrByte(h: Ehdr, i: int): u8
    requires |h.ident| == 16 && 0 <= i < 52
  {
    if i < 16 then h.ident[i]
    else if i < 18 then Byte(h.kind, i - 16)
    else if i < 20 then Byte(h.machine, i - 18)
    else if i < 24 then Byte(h.version, i - 20)
    else if i < 28 then Byte(h.entry, i - 24)
    else if i < 32 then Byte(h.phoff, i - 28)
    else if i < 36 then Byte(h.shoff, i - 32)
    else if i < 40 then Byte(h.flags, i - 36)
    else if i < 42 then Byte(h.ehsize, i - 40)
    else if i < 44 then Byte(h.phentsize, i - 42)
    else if i < 46 then Byte(h.phnum, i - 44)
    else if i < 48 then Byte(h.shentsize, i - 46)
    else if i < 50 then Byte(h.shnum, i - 48)
    else Byte(h.shstrndx, i - 50)
  }

  function EhdrBytes(h: Ehdr): (s: seq<u8>)
    requires |h.ident| == 16
    ensures |s| == 52
  {
    seq(52, i requires 0 <= i < 52 => EhdrByte(h, i))
  }

  function SegmentByte(p: Segment, i: int): u8
    requires 0 <= i < 32
  {
    if i < 4 then Byte(p.kind, i)
    else if i < 8 then Byte(p.offset, i - 4)
    else if i < 12 then Byte(p.vaddr, i - 8)
    else if i < 16 then Byte(p.paddr, i - 12)
    else if i < 20 then Byte(p.filesz, i - 16)
    else if i < 24 then Byte(p.memsz, i - 20)
    else if i < 28 then Byte(p.flags, i - 24)
    else Byte(p.align, i - 28)
  }

  function SegmentBytes(p: Segment): (s: seq<u8>)
    ensures |s| == 32
  {
    seq(32, i requires 0 <= i < 32 => SegmentByte(p, i))
  }

  function TableBytes(ps: seq<Segment>): (s: seq<u8>)
    ensures |s| == 32 * |ps|
  {
    if ps == [] then [] else TableBytes(ps[..|ps| - 1]) + SegmentBytes(ps[|ps| - 1])
  }

  /** An image with this header, its program headers somewhere behind it, and any bytes around them. */
  ghost predicate Written(img: Image, h: Ehdr, gap: seq<u8>, ps: seq<Segment>, rest: seq<u8>) {
    && |h.ident| == 16 && h.phnum == |ps| && h.phoff == 52 + |gap|
    && img == EhdrBytes(h) + gap + TableBytes(ps) + rest
  }

  // Reading numbers back

  lemma Read32(s: seq<u8>, o: int, v: u32)
    requires 0 <= o && o + 4 <= |s|
    requires s[o] == Byte(v, 0) && s[o + 1] == Byte(v, 1) && s[o + 2] == Byte(v, 2) && s[o + 3] == Byte(v, 3)
    ensures U32(s, o) == v
  {
    var a := v / 0x100;
    var b := a / 0x100;
    var c := b / 0x100;
    assert Byte(v, 1) == a % 0x100 && Byte(v, 2) == Byte(a, 1) == b % 0x100;
    assert Byte(v, 3) == Byte(a, 2) == Byte(b, 1) == c % 0x100 == c;
  }

  lemma Read16(s: seq<u8>, o: int, v: u16)
    requires 0 <= o && o + 2 <= |s| && s[o] == Byte(v, 0) && s[o + 1] == Byte(v, 1)
    ensures U16(s, o) == v
  {
    assert Byte(v, 1) == v / 0x100 % 0x100;
  }

  lemma {:induction false} TableAt(ps: seq<Segment>, i: int, k: int)
    requires 0 <= i < |ps| && 0 <= k < 32
    ensures 32 * i + k < 32 * |ps| && TableBytes(ps)[32 * i + k] == SegmentByte(ps[i], k)
  {
    hide SegmentByte;
    if i < |ps| - 1 {
      TableAt(ps[..|ps| - 1], i, k);
    }
  }

  lemma SegmentReads(b: seq<u8>, p: Segment)
    requires |b| == 32 && forall k :: 0 <= k < 32 ==> b[k] == SegmentByte(p, k)
    ensures U32(b, 0) == p.kind && U32(b, 4) == p.offset && U32(b, 8) == p.vaddr
    ensures U32(b, 16) == p.filesz && U32(b, 20) == p.memsz
  {
    hide Byte, U32;
    Read32(b, 0, p.kind);
    Read32(b, 4, p.offset);
    Read32(b, 8, p.vaddr);
    Read32(b, 16, p.filesz);
    Read32(b, 20, p.memsz);
  }

  lemma ReadInside(s: seq<u8>, o: int, k: int)
    requires 0 <= o && o + 32 <= |s| && 0 <= k <= 28
    ensures U32(s[o..o + 32], k) == U32(s, o + k)
  {
  }

  lemma HeaderReads(img: Image, h: Ehdr)
    requires |h.ident| == 16 && |img| >= 52 && forall i :: 0 <= i < 52 ==> img[i] == EhdrByte(h, i)
    ensures forall i :: 0 <= i < 16 ==> img[i] == h.ident[i]
    ensures U16(img, 16) == h.kind && U16(img, 18) == h.machine && U32(img, 20) == h.version
    ensures Entry(img) == h.entry && PhOff(img) == h.phoff
    ensures U16(img, 40) == h.ehsize && U16(img, 42) == h.phentsize && PhNum(img) == h.phnum
  {
    hide Byte, U32, U16;
    Read16(img, 16, h.kind);
    Read16(img, 18, h.machine);
    Read32(img, 20, h.version);
    Read32(img, 24, h.entry);
    Read32(img, 28, h.phoff);
    Read16(img, 40, h.ehsize);
    Read16(img, 42, h.phentsize);
    Read16(img, 44, h.phnum);
  }

  /** A header for a 32-bit little-endian x86 executable of the current version. */
  predicate Standard(h: Ehdr) {
    && |h.ident| == 16 && h.ident[..7] == [0x7F, 0x45, 0x4C, 0x46, 1, 1, 1]
    && h.kind == 2 && h.machine == 3 && h.version == 1 && h.ehsize == 52 && h.phentsize == 32
  }

  lemma WrittenReads(img: Image, h: Ehdr, gap: seq<u8>, ps: seq<Segment>, rest: seq<u8>)
    requires Written(img, h, gap, ps, rest)
    ensures |img| >= 52 && TableInside(img) && PhNum(img) == |ps| && Entry(img) == h.entry
    ensures HeaderOk(img) <==> Standard(h)
    ensures forall i :: 0 <= i < |ps| ==>
              Ph(img, i) == Phdr(ps[i].kind, ps[i].offset, ps[i].vaddr, ps[i].filesz, ps[i].memsz)
  {
    hide EhdrByte, SegmentByte, U16, U32, Entry, PhOff, PhNum;
    HeaderReads(img, h);
    assert 'E' as int == 0x45 && 'L' as int == 0x4C && 'F' as int == 0x46;
    assert h.ident[..7] == [h.ident[0], h.ident[1], h.ident[2], h.ident[3], h.ident[4], h.ident[5], h.ident[6]];
    forall i | 0 <= i < |ps|
      ensures Ph(img, i) == Phdr(ps[i].kind, ps[i].offset, ps[i].vaddr, ps[i].filesz, ps[i].memsz)
    {
      var o := h.phoff + i * 32;
      forall k | 0 <= k < 32
        ensures img[o + k] == SegmentByte(ps[i], k)
      {
        TableAt(ps, i, k);
        assert img[o + k] == TableBytes(ps)[32 * i + k];
      }
      SegmentReads(img[o..o + 32], ps[i]);
      ReadInside(img, o, 0);
      ReadInside(img, o, 4);
      ReadInside(img, o, 8);
      ReadInside(img, o, 16);
      ReadInside(img, o, 20);
    }
  }

  // What the loader makes of a written image

  /** A loaded segment puts a byte at address `a`. */
  predicate Maps(p: Segment, a: int) {
    p.kind == 1 && p.vaddr <= a < p.vaddr + p.memsz
  }

  /** It loads exactly with a standard header, segments inside the page and the file, and a mapped entry. */
  lemma WrittenLoads(img: Image, h: Ehdr, gap: seq<u8>, ps: seq<Segment>, rest: seq<u8>, base: int, size: int)
    requires Written(img, h, gap, ps, rest)
    ensures Entry(img) == h.entry
    ensures Loadable(img, base, size) <==>
              && Standard(h)
              && (forall i :: 0 <= i < |ps| && ps[i].kind == 1 && ps[i].memsz > 0 ==>
                    && ps[i].vaddr + ps[i].memsz <= 0xFFFF_FFFF && ps[i].filesz <= ps[i].memsz
                    && ps[i].offset + ps[i].filesz <= |img|
                    && base <= ps[i].vaddr && ps[i].vaddr + ps[i].memsz <= base + size)
              && exists i :: 0 <= i < |ps| && Maps(ps[i], h.entry)
  {
    hide HeaderOk, TableInside, Ph, Entry, PhNum, Written;
    WrittenReads(img, h, gap, ps, rest);
    if i :| 0 <= i < |ps| && Maps(ps[i], h.entry) {
      assert Loads(Ph(img, i)) && Ph(img, i).vaddr <= h.entry < Ph(img, i).vaddr + Ph(img, i).memsz;
    }
    if i :| 0 <= i < |ps| && Loads(Ph(img, i)) && Ph(img, i).vaddr <= h.entry < Ph(img, i).vaddr + Ph(img, i).memsz {
      assert Maps(ps[i], h.entry);
    }
  }

  /** The last segment that maps a byte decides it: from the file as far as that reaches, then zero; else it is zero. */
  lemma WrittenPage(img: Image, h: Ehdr, gap: seq<u8>, ps: seq<Segment>, rest: seq<u8>, base: int, page: seq<u8>,
                    j: int)
    requires Written(img, h, gap, ps, rest) && Loadable(img, base, |page|) && 0 <= j < |page|
    requires PageIs(page, img, PhNum(img), base)
    ensures forall i :: 0 <= i < |ps| && Maps(ps[i], base + j)
                        && (forall k :: i < k < |ps| ==> !Maps(ps[k], base + j)) ==>
              if base + j < ps[i].vaddr + ps[i].filesz
              then 0 <= ps[i].offset + (base + j - ps[i].vaddr) < |img|
                   && page[j] == img[ps[i].offset + (base + j - ps[i].vaddr)]
              else page[j] == 0
    ensures (forall i :: 0 <= i < |ps| ==> !Maps(ps[i], base + j)) ==> page[j] == 0
  {
    hide HeaderOk, TableInside, Ph, Entry, PhNum, Written, PageByte;
    WrittenReads(img, h, gap, ps, rest);
    var n := |ps|;
    assert forall i :: 0 <= i < n ==> (Maps(ps[i], base + j) <==> Loads(Ph(img, i)) && Covers(Ph(img, i), base, j));
    forall i | 0 <= i < n && Maps(ps[i], base + j) && (forall k :: i < k < n ==> !Maps(ps[k], base + j))
      ensures page[j] == SegByte(Ph(img, i), img, base, j)
    {
      LastWriterWins(img, n, base, |page|, j, i);
    }
    if forall i :: 0 <= i < n ==> !Maps(ps[i], base + j) {
      UntouchedIsZero(img, n, base, |page|, j);
    }
  }

  /** As a program: the window of a process has one page for it at 0x40000000. */
  lemma WrittenProgram(img: Image, h: Ehdr, gap: seq<u8>, ps: seq<Segment>, rest: seq<u8>)
    requires Written(img, h, gap, ps, rest) && |img| <= 0x4000 && h.ident[..4] == [0x7F, 0x45, 0x4C, 0x46]
    ensures Loader.ImageOutcome(img) ==
            if Loadable(img, 0x4000_0000, 0x1000)
            then Loader.Loaded(Loader.ElfPage(img), h.entry) else Loader.Malformed
    ensures Loadable(img, 0x4000_0000, 0x1000) ==>
              |Loader.ElfPage(img)| == 0x1000 && PageIs(Loader.ElfPage(img), img, PhNum(img), 0x4000_0000)
  {
    hide HeaderOk, TableInside, Ph, Entry, PhNum, PageByte, AllFit, InSegment, EhdrByte;
    WrittenReads(img, h, gap, ps, rest);
    assert img[..4] == h.ident[..4] by {
      HeadBytes(img, h, gap, ps, rest);
    }
    assert img[..4] == [img[0], img[1], img[2], img[3]];
    assert 'E' as int == 0x45 && 'L' as int == 0x4C && 'F' as int == 0x46;
  }

  lemma HeadBytes(img: Image, h: Ehdr, gap: seq<u8>, ps: seq<Segment>, rest: seq<u8>)
    requires Written(img, h, gap, ps, rest)
    ensures |img| >= 52 && img[..4] == h.ident[..4]
  {
    assert forall i :: 0 <= i < 4 ==> img[i] == EhdrByte(h, i);
  }
}
