/** The checks on pointers that come with a system call. */
module UserPtr {
  import opened Words
  import opened PagingSpec
  import opened PagingModel
  import opened KernelSpec
  import opened KernelModel
  import Loader

  /** What a pointer check promises: no null, no empty range, no wrap, every byte mapped (for user code when asked). */
  ghost predicate Acceptable(paging: Paging, ptr: int, size: int, userOnly: bool)
    requires paging.enabled ==> paging.Shape()
    reads paging
  {
    && ptr > 0 && size > 0 && ptr + size <= U32_LIMIT && paging.enabled
    && AllBytes(ptr, size, View(paging.mem, paging.currentDir).Keys)
    && (userOnly ==> AllBytes(ptr, size, UserPages(paging.mem, paging.currentDir)))
  }

  /** Steps through the pages of a range; accepts it exactly when every byte is mapped. */
  method RangeMapped(paging: Paging, ptr: u32, size: u32) returns (ok: bool)
    requires paging.enabled ==> paging.Shape()
    ensures ok <==> Acceptable(paging, ptr, size, false)
  {
    hide View, AllBytes, WellFormed;
    if ptr == 0 || size == 0 {
      return false;
    }
    if ptr > U32_MAX - (size - 1) {
      return false;
    }
    if !paging.enabled {
      // the first translation fails
      return false;
    }
    paging.DirIsTable();
    ghost var pages := View(paging.mem, paging.currentDir).Keys;
    PagesCoverBytes(ptr, size, pages);
    var last := AlignDown4k(ptr + size - 1);
    var page: int := AlignDown4k(ptr);
    while true
      invariant page % PAGE_SIZE == 0 && AlignDown4k(ptr) <= page <= last
      invariant forall p :: ptr / PAGE_SIZE <= p < page / PAGE_SIZE ==> p in pages
      decreases last - page
    {
      if paging.Translate(page).None? {
        return false;
      }
      if page >= last {
        return true;
      }
      assert (page + PAGE_SIZE) / PAGE_SIZE == page / PAGE_SIZE + 1;
      page := page + PAGE_SIZE;
    }
  }

  method RangeOk(paging: Paging, ptr: u32, size: u32, userOnly: bool) returns (ok: bool)
    requires paging.enabled ==> paging.Shape()
    ensures ok <==> Acceptable(paging, ptr, size, userOnly)
  {
    hide View, AllBytes, WellFormed, UserPages;
    ok := RangeMapped(paging, ptr, size);
    if ok && userOnly {
      ok := paging.UserAccessible(ptr, size);
    }
  }

  /** A string of `n` bytes and its terminator lie at `src`, on bytes that may be read. */
  ghost predicate StringAt(paging: Paging, src: int, n: int, userOnly: bool, memory: int -> u8)
    requires paging.enabled ==> paging.Shape()
    reads paging
  {
    && (forall a :: src <= a <= src + n ==> Acceptable(paging, a, 1, userOnly))
    && (forall a :: src <= a < src + n ==> memory(a) != 0)
    && memory(src + n) == 0
  }

  /**
   Copies a string in, byte by byte, checking each byte before it is read. It succeeds exactly when
   a terminated string that fits the buffer lies there on acceptable bytes, and copies that string.
   */
  method CopyInString(paging: Paging, dst: array?<u8>, src: u32, userOnly: bool, memory: int -> u8) returns (n: u32)
    requires paging.enabled ==> paging.Shape()
    requires dst != null ==> dst.Length <= U32_MAX
    modifies dst
    ensures n != U32_MAX <==> dst != null && src != 0
                              && exists k :: 0 <= k < dst.Length && StringAt(paging, src, k, userOnly, memory)
    ensures n != U32_MAX ==>
              && n < dst.Length && StringAt(paging, src, n, userOnly, memory)
              && forall i :: 0 <= i <= n ==> dst[i] == memory(src + i)
  {
    hide Acceptable;
    if dst == null || src == 0 || dst.Length == 0 {
      return U32_MAX;
    }
    var i: int := 0;
    while i + 1 < dst.Length
      invariant 0 <= i < dst.Length && src + i <= U32_LIMIT
      invariant forall a :: src <= a < src + i ==> Acceptable(paging, a, 1, userOnly) && memory(a) != 0
      invariant forall j :: 0 <= j < i ==> dst[j] == memory(src + j)
    {
      var ok := ByteOk(paging, src, i, userOnly);
      if !ok {
        return U32_MAX;
      }
      if memory(src + i) == 0 {
        dst[i] := 0;
        assert StringAt(paging, src, i, userOnly, memory);
        return i;
      }
      dst[i] := memory(src + i);
      i := i + 1;
    }
    var ok := ByteOk(paging, src, i, userOnly);
    if !ok {
      return U32_MAX;
    }
    if memory(src + i) != 0 {
      return U32_MAX;
    }
    dst[i] := 0;
    assert StringAt(paging, src, i, userOnly, memory);
    n := i;
  }

  /** The check of one byte; past the last address the pointer wraps to null, which is refused. */
  method ByteOk(paging: Paging, src: u32, i: int, userOnly: bool) returns (ok: bool)
    requires paging.enabled ==> paging.Shape()
    requires src > 0 && i >= 0 && src + i <= U32_LIMIT
    ensures ok <==> Acceptable(paging, src + i, 1, userOnly)
    ensures ok ==> src + i < U32_LIMIT
  {
    ok := RangeOk(paging, Wrap32(src + i), 1, userOnly);
  }

  /**
   What the checks come to for a user process, in every state: the range lies in its own code and
   stack page. No pointer into the kernel, the heap or another process passes.
   */
  lemma OwnBytesOnly(kernel: Kernel, s: int, ptr: u32, size: u32)
    requires kernel.Valid() && 0 <= s < |kernel.procs|
    requires kernel.procs[s].active && kernel.procs[s].tid == kernel.current && !kernel.procs[s].isKernel
    ensures Acceptable(kernel.mem.heap.paging, ptr, size, true) <==>
              size > 0 && 0x4000_0000 <= ptr && ptr + size <= 0x4000_2000
  {
    hide Kernel.Valid, View, WellFormed, AllBytes, UserPages, MemOk;
    kernel.CurrentUser(s);
    UserWindow(kernel.mem.W(), s);
    var paging := kernel.mem.heap.paging;
    if ptr + size <= U32_LIMIT {
      SamePages(ptr, size, UserPages(paging.mem, paging.currentDir), {CODE_PAGE, CODE_PAGE + 1});
      MorePages(ptr, size, {CODE_PAGE, CODE_PAGE + 1}, View(paging.mem, paging.currentDir).Keys);
      InWindow(ptr, size);
    }
  }

  lemma UserWindow(w: World, s: int)
    requires MemOk(w, {}, {}) && s in w.spaces
    requires w.spaces[s].code % PAGE_SIZE == 0 && w.spaces[s].stack % PAGE_SIZE == 0
    ensures IsTable(w.mem, w.spaces[s].dir)
    ensures forall p :: 0 <= p < PAGES ==> (p in UserPages(w.mem, w.spaces[s].dir) <==> p in {CODE_PAGE, CODE_PAGE + 1})
    ensures {CODE_PAGE, CODE_PAGE + 1} <= View(w.mem, w.spaces[s].dir).Keys
  {
    hide View, UserPage, MemOk, UserPages;
    UserReach(w, s, 0);
    forall p | 0 <= p < PAGES
      ensures p in UserPages(w.mem, w.spaces[s].dir) <==> p in {CODE_PAGE, CODE_PAGE + 1}
      ensures p in {CODE_PAGE, CODE_PAGE + 1} ==> p in View(w.mem, w.spaces[s].dir)
    {
      UserReach(w, s, p);
      UserPagesHas(w.mem, w.spaces[s].dir, p);
      UserMapped(w.mem, w.spaces[s].dir, p);
    }
  }

  lemma UserMapped(mem: Mem, d: int, p: int)
    requires IsTable(mem, d) && 0 <= p < PAGES
    ensures UserPage(mem, d, p) ==> p in View(mem, d)
  {
    ViewMember(mem, d, p);
  }

  lemma SamePages(ptr: int, size: int, a: set<int>, b: set<int>)
    requires 0 <= ptr && ptr + size <= U32_LIMIT && forall p :: 0 <= p < PAGES ==> (p in a <==> p in b)
    ensures AllBytes(ptr, size, a) <==> AllBytes(ptr, size, b)
  {
  }

  lemma MorePages(ptr: int, size: int, a: set<int>, b: set<int>)
    requires a <= b
    ensures AllBytes(ptr, size, a) ==> AllBytes(ptr, size, b)
  {
  }

  lemma InWindow(ptr: int, size: int)
    requires 0 <= ptr && 0 <= size
    ensures size > 0 ==> (AllBytes(ptr, size, {CODE_PAGE, CODE_PAGE + 1}) <==>
              Loader.CODE_BASE <= ptr && ptr + size <= Loader.CODE_BASE + 2 * PAGE_SIZE)
  {
    if size > 0 {
      var own, first, last := {CODE_PAGE, CODE_PAGE + 1}, ptr / PAGE_SIZE, (ptr + size - 1) / PAGE_SIZE;
      PagesCoverBytes(ptr, size, own);
      hide AllBytes;
      if AllBytes(ptr, size, own) {
        assert first in own && last in own;
      }
    }
  }
}
