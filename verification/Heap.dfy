/**
 The kernel heap: a doubly linked list of block headers kept in heap memory, searched first
 fit, split on allocation, merged on release, and grown by mapping fresh frames at its end.
 */
module HeapModel {
  import opened Words
  import opened HeapSpec
  import opened GrowSpec
  import opened PagingSpec
  import opened PagingModel
  import opened PmmModel

  /** The heap may grow up to the last page boundary below 4 GiB. */
  const TOP := 0xFFFF_F000
  /** The first page of the heap, and the directory entry that serves its first 4 MiB. */
  const HEAP_PAGE := 0xD0000
  const HEAP_ENTRY := 832
  const HEAP_LIMIT := 0xD040_0000
  const MAX_REQUEST := 0x7FFF_FFFF

  function AlignUp8(v: int): (r: int)
    requires v >= 0
    ensures r % 8 == 0 && v <= r < v + 8
  {
    (v + 7) / 8 * 8
  }

  /** In a flat map the heap's pages lead, in order, to the given frames. */
  ghost predicate Seen(view: map<int, int>, frames: seq<int>) {
    forall i :: 0 <= i < |frames| ==> LeadsTo(view, HEAP_PAGE + i, frames[i])
  }

  ghost predicate LeadsTo(view: map<int, int>, page: int, frame: int) {
    page in view && view[page] == frame + KERNEL_FLAGS
  }

  /** The two maps agree on page `p`. */
  ghost predicate SameAt(v: map<int, int>, v': map<int, int>, p: int) {
    (p in v <==> p in v') && (p in v ==> v[p] == v'[p])
  }

  /** The maps agree on every page outside the heap's entry. */
  ghost predicate SameOutsideHeap(v: map<int, int>, v': map<int, int>) {
    forall p :: 0 <= p < PAGES && p / ENTRIES != HEAP_ENTRY ==> SameAt(v, v', p)
  }

  lemma OutsideOne(v: map<int, int>, p: int, w: int)
    requires p / ENTRIES == HEAP_ENTRY
    ensures SameOutsideHeap(v, v) && SameOutsideHeap(v[p := w], v)
  {
  }

  lemma OutsideTrans(v: map<int, int>, v': map<int, int>, v'': map<int, int>)
    requires SameOutsideHeap(v', v) && SameOutsideHeap(v'', v')
    ensures SameOutsideHeap(v'', v)
  {
    forall p | 0 <= p < PAGES && p / ENTRIES != HEAP_ENTRY
      ensures SameAt(v'', v, p)
    {
      assert SameAt(v', v, p) && SameAt(v'', v', p);
    }
  }

  lemma SeenAt(view: map<int, int>, frames: seq<int>, i: int)
    requires Seen(view, frames) && 0 <= i < |frames|
    ensures LeadsTo(view, HEAP_PAGE + i, frames[i])
  {
  }

  lemma SeenNothing(view: map<int, int>)
    ensures Seen(view, [])
  {
  }

  lemma SeenGrows(view: map<int, int>, frames: seq<int>, f: int)
    requires Seen(view, frames)
    ensures var view' := view[HEAP_PAGE + |frames| := f + KERNEL_FLAGS];
            Seen(view', frames) && Seen(view', frames + [f])
  {
    var frames' := frames + [f];
    assert forall i :: 0 <= i < |frames'| ==> frames'[i] == if i < |frames| then frames[i] else f;
  }

  ghost function SetOf(s: seq<int>): set<int> {
    set x | x in s
  }

  /**
   What growth costs while the table is shared: the frames the heap gained, and no others;
   and what it writes: the shared table, and no other.
   */
  ghost predicate Growth(frames: seq<int>, frames': seq<int>, free: set<int>, free': set<int>,
                         m: Mem, m': Mem, t: int) {
    && frames <= frames' && SetOf(frames') <= SetOf(frames) + free
    && free' == free - SetOf(frames')
    && OnlyTable(m, m', t)
  }

  lemma GrowthRefl(frames: seq<int>, free: set<int>, m: Mem, t: int)
    requires forall f :: f in frames ==> f !in free
    ensures Growth(frames, frames, free, free, m, m, t)
  {
    forall f | f in SetOf(frames)
      ensures f !in free
    {
    }
    assert SetOf(frames) * free == {};
  }

  lemma GrowthOne(frames: seq<int>, f: int, free: set<int>, m: Mem, m': Mem, t: int)
    requires f in free && (forall x :: x in frames ==> x !in free) && OnlyTable(m, m', t)
    ensures Growth(frames, frames + [f], free, free - {f}, m, m', t)
  {
    assert SetOf(frames + [f]) == SetOf(frames) + {f};
    forall x | x in free
      ensures x !in SetOf(frames)
    {
    }
  }

  lemma GrowthFrames(frames: seq<int>, frames': seq<int>, free: set<int>, free': set<int>, m: Mem, m': Mem, t: int)
    requires Growth(frames, frames', free, free', m, m', t)
    ensures frames <= frames' && free' <= free
  {
  }

  lemma GrowthTrans(given: bool, frames: seq<int>, frames': seq<int>, frames'': seq<int>, free: set<int>,
                    free': set<int>, free'': set<int>, m: Mem, m': Mem, m'': Mem, t: int)
    requires given ==> Growth(frames, frames', free, free', m, m', t)
    requires given ==> Growth(frames', frames'', free', free'', m', m'', t)
    ensures given ==> Growth(frames, frames'', free, free'', m, m'', t)
  {
    forall x | given && x in frames'
      ensures x in frames''
    {
      var i :| 0 <= i < |frames'| && frames'[i] == x;
      assert frames''[i] == x;
    }
  }

  /**
   All directories refer to the same table for the heap's first 4 MiB, the heap ends within
   them, and the pages above it are not mapped.
   */
  ghost predicate SharedTables(m: Mem, dirs: set<int>, k: int, end: int) {
    && k in dirs
    && (forall d :: d in dirs ==> IsTable(m, d))
    && (forall d :: d in dirs ==> m[d][HEAP_ENTRY] == m[k][HEAP_ENTRY])
    && Present(m[k][HEAP_ENTRY]) && WriteBit(m[k][HEAP_ENTRY]) && !UserBit(m[k][HEAP_ENTRY])
    && end <= HEAP_LIMIT
    && (forall p :: end / PAGE_SIZE <= p < HEAP_LIMIT / PAGE_SIZE ==> p !in View(m, k))
  }

  /** Mapping the next heap page through the shared table shows it in every directory. */
  lemma SharedGrows(m: Mem, dirs: set<int>, home: map<int, int>, k: int, end: int, w: int)
    requires WellFormed(m, dirs, home) && SharedTables(m, dirs, k, end)
    requires HEAP_START <= end < HEAP_LIMIT && end % PAGE_SIZE == 0 && Present(w)
    ensures var t := Base(m[k][HEAP_ENTRY]);
            && t in home && home[t] == HEAP_ENTRY && IsTable(m, t)
            && var m' := Store(m, t, end / PAGE_SIZE % ENTRIES, w);
               && SharedTables(m', dirs, k, end + PAGE_SIZE) && OnlyTable(m, m', t) && m'[k] == m[k]
               && forall d :: d in dirs ==> View(m', d) == View(m, d)[end / PAGE_SIZE := w]
  {
    var t, p := Base(m[k][HEAP_ENTRY]), end / PAGE_SIZE;
    assert t in home && home[t] == HEAP_ENTRY;
    var m' := Store(m, t, p % ENTRIES, w);
    assert p == HEAP_ENTRY * ENTRIES + p % ENTRIES;
    hide View;
    forall d | d in dirs
      ensures View(m', d) == View(m, d)[p := w]
    {
      StoreView(m, dirs, home, t, p % ENTRIES, w, d);
    }
  }

  /** The next heap page is unmapped in every directory. */
  lemma SharedEnd(given: bool, m: Mem, dirs: set<int>, k: int, end: int, d: int)
    requires given ==> SharedTables(m, dirs, k, end) && HEAP_START <= end < HEAP_LIMIT && d in dirs
    ensures given ==> IsTable(m, k) && IsTable(m, d) && m[d][HEAP_ENTRY] == m[k][HEAP_ENTRY]
    ensures given ==> Present(m[d][HEAP_ENTRY]) && !UserBit(m[d][HEAP_ENTRY])
    ensures given ==> end / PAGE_SIZE !in View(m, d) && end / PAGE_SIZE / ENTRIES == HEAP_ENTRY
  {
    if given {
      var p := end / PAGE_SIZE;
      assert p !in View(m, k);
      hide View;
      SharedPte(m, d, k, p);
    }
  }

  lemma MapFlagsSame()
    ensures MapFlags(KERNEL_FLAGS) == KERNEL_FLAGS && Present(KERNEL_FLAGS) && LinkFlags(KERNEL_FLAGS)
            && !UserBit(KERNEL_FLAGS)
  {
  }

  /** With the table in place, mapping a kernel page is one store. */
  lemma MappedIsStore(m: Mem, d: int, p: int, t: int, phys: int)
    requires IsTable(m, d) && 0 <= p < PAGES && t != d && Present(m[d][p / ENTRIES]) && IsTable(m, t)
    ensures Mapped(m, d, p, t, phys, KERNEL_FLAGS) == Store(m, t, p % ENTRIES, phys + KERNEL_FLAGS)
  {
  }

  /** Mapping a page at the end of a shared heap, seen from every directory. */
  lemma SharedStep(m: Mem, dirs: set<int>, home: map<int, int>, k: int, d: int, end: int, t: int, phys: int,
                   frames: seq<int>, free: set<int>)
    requires WellFormed(m, dirs, home) && SharedTables(m, dirs, k, end) && d in dirs && t != d
    requires HEAP_START <= end < HEAP_LIMIT && end % PAGE_SIZE == 0 && phys % PAGE_SIZE == 0
    requires t == Base(m[k][HEAP_ENTRY]) && phys in free && forall x :: x in frames ==> x !in free
    ensures IsTable(m, t) && IsTable(m, d) && Present(m[d][end / PAGE_SIZE / ENTRIES])
    ensures var m' := Mapped(m, d, end / PAGE_SIZE, t, phys, KERNEL_FLAGS);
            && SharedTables(m', dirs, k, end + PAGE_SIZE) && Base(m'[k][HEAP_ENTRY]) == t
            && Growth(frames, frames + [phys], free, free - {phys}, m, m', t)
  {
    hide View, Mapped, Growth;
    SharedEnd(true, m, dirs, k, end, d);
    FlaggedWord(phys, KERNEL_FLAGS);
    SharedGrows(m, dirs, home, k, end, phys + KERNEL_FLAGS);
    MappedIsStore(m, d, end / PAGE_SIZE, t, phys);
    GrowthOne(frames, phys, free, m, Mapped(m, d, end / PAGE_SIZE, t, phys, KERNEL_FLAGS), t);
  }

  class Heap {
    const paging: Paging

    var mem: Cells
    var head: int
    var end: int
    var total: int
    var used: int
    var ready: bool

    /** The blocks in list order, and the frames behind the heap's pages in page order. */
    ghost var blocks: seq<Block>
    ghost var frames: seq<int>

    constructor (paging: Paging)
      ensures this.paging == paging && !ready && frames == []
    {
      this.paging := paging;
      mem, head, end, total, used, ready := map[], 0, 0, 0, 0, false;
      blocks, frames := [], [];
    }

    /** The list in memory is exactly `blocks`, which tile the heap; the counters are true. */
    ghost predicate Structure()
      reads `mem, `head, `end, `total, `used, `blocks
    {
      && Tiled(blocks, HEAP_START, end) && NoFreePair(blocks)
      && Chained(mem, blocks) && head == HEAP_START
      && end % PAGE_SIZE == 0 && end <= TOP
      && total == end - HEAP_START
      && used == UsedBytes(blocks)
    }

    /** Cuts a free block in two when the leftover can hold a header and more than 8 bytes. */
    method SplitBlock(block: int, want: int)
      requires block in mem && mem[block].Header? && want >= 0
      requires var next := mem[block].next;
               next != 0 && mem[block].size > want + HEADER + 8 ==>
                 next in mem && mem[next].Header? && next > block + HEADER + want
      modifies this`mem
      ensures var b := old(mem[block]);
              if b.size <= want + HEADER + 8 then mem == old(mem)
              else
                var extra := block + HEADER + want;
                && Agrees(old(mem), mem, {block, extra} + if b.next != 0 then {b.next} else {})
                && CellAt(mem, block) == Some(b.(size := want, next := extra))
                && CellAt(mem, extra) == Some(Header(b.size - want - HEADER, true, b.next, block))
                && (b.next != 0 ==> CellAt(mem, b.next) == Some(old(mem[b.next]).(prev := extra)))
    {
      var b := mem[block];
      if b.size <= want + HEADER + 8 {
        return;
      }
      var extra := block + HEADER + want;
      mem := mem[extra := Header(b.size - want - HEADER, true, b.next, block)];
      if b.next != 0 {
        mem := mem[b.next := mem[b.next].(prev := extra)];
      }
      mem := mem[block := mem[block].(next := extra)];
      mem := mem[block := mem[block].(size := want)];
    }

    /** Takes the first bytes of block `k` for the caller. */
    method TakeBlock(block: int, want: int, ghost k: int)
      requires Structure() && 0 <= k < |blocks| && block == blocks[k].addr
      requires Fits(blocks[k], want) && Request(want)
      modifies this
      ensures Structure() && blocks == Take(old(blocks), k, want)
      ensures end == old(end) && ready == old(ready) && frames == old(frames)
      ensures SamePayloads(old(mem), mem, Live(old(blocks)))
    {
      hide Tiled, NoFreePair, UsedBytes, Take, SamePayloads, Chained;
      TakeSummary(mem, blocks, HEAP_START, end, k, want);
      SplitBlock(block, want);
      mem := mem[block := mem[block].(free := false)];
      used := used + mem[block].size;
      TakeEffect(old(mem), mem, blocks, HEAP_START, end, k, want);
      blocks := Take(blocks, k, want);
    }

    /** Block `left` takes over the block after it. */
    method Absorb(left: int, right: int)
      requires left in mem && mem[left].Header? && right in mem && mem[right].Header? && left != right
      requires var next := mem[right].next;
               next != 0 ==> next in mem && mem[next].Header? && next != left && next != right
      modifies this`mem
      ensures var l, r := old(mem[left]), old(mem[right]);
              && Agrees(old(mem), mem, if r.next != 0 then {left, r.next} else {left})
              && CellAt(mem, left) == Some(l.(size := l.size + HEADER + r.size, next := r.next))
              && (r.next != 0 ==> CellAt(mem, r.next) == Some(old(mem[r.next]).(prev := left)))
    {
      mem := mem[left := mem[left].(size := mem[left].size + HEADER + mem[right].size)];
      mem := mem[left := mem[left].(next := mem[right].next)];
      var next := mem[left].next;
      if next != 0 {
        mem := mem[next := mem[next].(prev := left)];
      }
    }

    /** Merges block `k` of a tiled list with the block after it. */
    method AbsorbNext(left: int, right: int, ghost bs: seq<Block>, ghost k: int)
      requires Tiled(bs, HEAP_START, end) && Chained(mem, bs) && 0 <= k < |bs| - 1
      requires left == bs[k].addr && right == bs[k + 1].addr
      modifies this`mem
      ensures Tiled(Joined(bs, k), HEAP_START, end) && Chained(mem, Joined(bs, k))
      ensures Agrees(old(mem), mem, Addrs(bs))
    {
      Around(bs, HEAP_START, end, k);
      Around(bs, HEAP_START, end, k + 1);
      JoinedTiled(bs, HEAP_START, end, k);
      assert CellAt(mem, left) == Some(HeaderOf(bs, k));
      assert CellAt(mem, right) == Some(HeaderOf(bs, k + 1));
      if k + 2 < |bs| {
        assert CellAt(mem, bs[k + 2].addr) == Some(HeaderOf(bs, k + 2));
      }
      hide Tiled, Chained, Joined, Agrees;
      Absorb(left, right);
      JoinedChained(old(mem), mem, bs, HEAP_START, end, k);
    }

    /** Merges a freed block with the next block and then with the previous one, where those are free. */
    method Coalesce(block: int, ghost bs: seq<Block>, ghost k: int)
      requires Tiled(bs, HEAP_START, end) && Chained(mem, bs) && 0 <= k < |bs| && block == bs[k].addr
      modifies this`mem
      ensures Chained(mem, WithPrev(WithNext(bs, k), k)) && Agrees(old(mem), mem, Addrs(bs))
    {
      hide Tiled, Chained, Joined;
      ReadHeader(mem, bs, HEAP_START, end, k);
      ghost var f := WithNext(bs, k);
      var next := mem[block].next;
      if next != 0 && mem[next].free {
        AbsorbNext(block, next, bs, k);
        JoinedAddrs(bs, k);
      }
      WithNextAddr(bs, k);
      ReadHeader(mem, f, HEAP_START, end, k);
      label merged:
      var prev := mem[block].prev;
      if prev != 0 && mem[prev].free {
        AbsorbNext(prev, block, f, k - 1);
        AgreesTrans(old(mem), old@merged(mem), mem, Addrs(bs), Addrs(f));
      }
    }

    /** Gives block `k` back to the free list. */
    method FreeBlock(block: int, ghost k: int)
      requires Structure() && 0 <= k < |blocks| && block == blocks[k].addr && !blocks[k].free
      modifies this
      ensures Structure() && blocks == Release(old(blocks), k)
      ensures end == old(end) && ready == old(ready) && frames == old(frames)
      ensures used == old(used) - old(blocks)[k].size
      ensures SamePayloads(old(mem), mem, Live(blocks))
    {
      hide Tiled, Chained, NoFreePair, UsedBytes, SamePayloads, Release, Freed, WithNext, WithPrev;
      ReadHeader(mem, blocks, HEAP_START, end, k);
      ReleaseSummary(mem, blocks, HEAP_START, end, k);
      mem := mem[block := mem[block].(free := true)];
      label freed:
      if used >= mem[block].size {
        used := used - mem[block].size;
      } else {
        // the clamp to 0 never fires: the counter includes this block
        assert false;
      }
      Coalesce(block, Freed(blocks, k), k);
      assert Agrees(old(mem), old@freed(mem), {block});
      ReleasePayloads(old(mem), old@freed(mem), mem, blocks, HEAP_START, end, k);
      blocks := Release(blocks, k);
    }

    /** Walks the list from the head to the first free block that is large enough. */
    method FindFit(want: int) returns (block: int, ghost k: int)
      requires Structure()
      ensures block == 0 ==> k == |blocks|
      ensures block != 0 ==> 0 <= k < |blocks| && block == blocks[k].addr && Fits(blocks[k], want)
      ensures NoFit(blocks, k, want)
    {
      ReadHeader(mem, blocks, HEAP_START, end, 0);
      hide Chained, UsedBytes, NoFreePair;
      block, k := head, 0;
      while block != 0
        invariant 0 <= k <= |blocks|
        invariant block == if k < |blocks| then blocks[k].addr else 0
        invariant k < |blocks| ==> block >= HEAP_START
        invariant NoFit(blocks, k, want)
        decreases |blocks| - k
      {
        ReadHeader(mem, blocks, HEAP_START, end, k);
        if mem[block].free && mem[block].size >= want {
          return;
        }
        block, k := mem[block].next, k + 1;
      }
    }

    /** Walks the list to its last block. */
    method FindTail() returns (tail: int)
      requires Structure()
      ensures tail == blocks[|blocks| - 1].addr
    {
      ReadHeader(mem, blocks, HEAP_START, end, 0);
      hide Chained, UsedBytes, NoFreePair;
      tail := head;
      ghost var k := 0;
      while mem[tail].next != 0
        invariant 0 <= k < |blocks| && tail == blocks[k].addr
        invariant CellAt(mem, tail) == Some(HeaderOf(blocks, k))
        decreases |blocks| - k
      {
        ReadHeader(mem, blocks, HEAP_START, end, k);
        tail, k := mem[tail].next, k + 1;
      }
      ReadHeader(mem, blocks, HEAP_START, end, k);
    }

    /** Adds the page just mapped at the end of the heap to the list. */
    method AddPage()
      requires Structure() && end < TOP
      modifies this
      ensures Structure() && blocks == Grow(old(blocks)) && total == old(total) + PAGE_SIZE
      ensures end == old(end) + PAGE_SIZE && ready == old(ready) && frames == old(frames)
      ensures SamePayloads(old(mem), mem, Live(old(blocks)))
    {
      var tail := FindTail();
      GrowSummary(mem, blocks, HEAP_START, end);
      hide Chained, UsedBytes, NoFreePair, Grow, SamePayloads, Tiled;
      ghost var w := if mem[tail].free then {tail} else {tail, end};
      end, total := end + PAGE_SIZE, total + PAGE_SIZE;
      if mem[tail].free {
        mem := mem[tail := mem[tail].(size := mem[tail].size + PAGE_SIZE)];
      } else {
        var block := tail + HEADER + mem[tail].size;
        mem := mem[block := Header(PAGE_SIZE - HEADER, true, 0, tail)];
        mem := mem[tail := mem[tail].(next := block)];
      }
      assert Agrees(old(mem), mem, w);
      GrowPayloads(old(mem), mem, blocks, HEAP_START, old(end));
      blocks := Grow(blocks);
    }

    // The pages behind the heap

    /** In directory `d` the heap's pages map, in order, to the heap's frames. */
    ghost predicate SeenIn(d: int)
      requires IsTable(paging.mem, d)
      reads this, paging
    {
      Seen(View(paging.mem, d), frames)
    }

    /** The heap owns one frame per page; nobody else uses them. */
    ghost predicate Owns()
      reads this, paging, paging.pmm
    {
      && |frames| * PAGE_SIZE == total
      && (forall i, j :: 0 <= i < j < |frames| ==> frames[i] != frames[j])
      && (forall f :: f in frames ==>
            f in paging.pmm.managed && f !in paging.pmm.free && f !in paging.dirs && f !in paging.home)
    }

    ghost predicate Valid()
      reads this, paging, paging.pmm, paging.pmm.bitmap
    {
      && ready && paging.Valid() && Structure() && Owns()
      && SeenIn(paging.currentDir)
    }

    ghost predicate Shared()
      reads this, paging
    {
      SharedTables(paging.mem, paging.dirs, paging.kernelDir, end)
    }

    ghost function HeapTable(): int
      requires IsTable(paging.mem, paging.kernelDir)
      reads paging
    {
      Base(paging.mem[paging.kernelDir][HEAP_ENTRY])
    }

    twostate predicate SharedEffect()
      requires old(IsTable(paging.mem, paging.kernelDir))
      reads this, paging, paging.pmm
    {
      && paging.home == old(paging.home)
      && IsTable(paging.mem, paging.kernelDir) && HeapTable() == old(HeapTable())
      && Growth(old(frames), frames, old(paging.pmm.free), paging.pmm.free, old(paging.mem), paging.mem,
         old(HeapTable()))
    }

    lemma SomeBlock()
      requires Structure()
      ensures |blocks| > 0 && TailFree(blocks) >= 0 && Tiled(blocks, HEAP_START, end) && NoFreePair(blocks)
    {
    }

    /** Where the heap would grow next. */
    ghost function Place(): (s: Site)
      reads this, paging, paging.pmm
      ensures s.free == |paging.pmm.free|
    {
      SiteOf(paging.mem, paging.currentDir, paging.pmm.free, end)
    }

    lemma PlaceFree()
      ensures Place().free == |paging.pmm.free|
    {
    }

    lemma EndPage()
      requires Structure() && |frames| * PAGE_SIZE == total
      ensures HEAP_START <= end <= TOP && end % PAGE_SIZE == 0 && end / PAGE_SIZE == HEAP_PAGE + |frames|
    {
    }

    /** Takes a frame and maps it at the end of the heap in the active directory. */
    method MapEnd() returns (ok: bool, ghost phys: int)
      requires Valid() && (paging.pmm.free != {} ==> end < TOP)
      modifies paging, paging.pmm, paging.pmm.bitmap
      ensures Valid()
      ensures paging.kernelDir == old(paging.kernelDir) && paging.currentDir == old(paging.currentDir)
      ensures paging.dirs == old(paging.dirs) && paging.pmm.managed == old(paging.pmm.managed)
      ensures paging.pmm.free <= old(paging.pmm.free)
      // exactly when: a frame for the page and one for a missing table, and the page is not mapped
      ensures ok <==> CanMap(old(Place()))
      ensures ok ==> SiteOf(paging.mem, paging.currentDir, paging.pmm.free, end + PAGE_SIZE) == Next(old(Place()))
      ensures !ok ==> |paging.pmm.free| == Left(old(Place()))
      ensures ok ==> phys in old(paging.pmm.free) && phys in paging.pmm.managed
      ensures ok ==> phys !in paging.pmm.free && phys !in paging.dirs && phys !in paging.home
      ensures ok ==> View(paging.mem, paging.currentDir) ==
                     View(old(paging.mem), old(paging.currentDir))[end / PAGE_SIZE := phys + KERNEL_FLAGS]
      // while the heap's table is shared, growth shows in every directory and loses nothing
      ensures old(paging.pmm.free) == {} ==> !ok && paging.home == old(paging.home) && paging.mem == old(paging.mem)
      ensures old(Shared()) && end < HEAP_LIMIT ==>
                && (ok <==> old(paging.pmm.free) != {}) && paging.home == old(paging.home)
                && (ok ==>
                      && SharedTables(paging.mem, paging.dirs, paging.kernelDir, end + PAGE_SIZE)
                      && HeapTable() == old(HeapTable())
                      && Growth(frames, frames + [phys], old(paging.pmm.free), paging.pmm.free, old(paging.mem),
                         paging.mem, old(HeapTable())))
    {
      hide Pmm.Consistent, View, Structure, Seen, SharedTables, Growth, Reaches, SiteOf, CanMap, Next, Left, Mapped;
      ok := false;
      EndPage();
      SharedEnd(Shared() && end < HEAP_LIMIT, paging.mem, paging.dirs, paging.kernelDir, end, paging.currentDir);
      ghost var m, d, free := paging.mem, paging.currentDir, paging.pmm.free;
      var frame := paging.TakeFrame();
      phys := frame;
      if frame == 0 {
        SiteStuck(m, d, free, end, paging.pmm.free);
        return;
      }
      ghost var t;
      ok, t := paging.MapPage(end, frame, KERNEL_FLAGS);
      MapFlagsSame();
      if !ok {
        assert View(paging.mem, d) == View(m, d);
        SiteStuck(m, d, free, end, paging.pmm.free);
        return;
      }
      assert View(paging.mem, d) == View(m, d)[end / PAGE_SIZE := phys + MapFlags(3)];
      SiteNext(m, d, free, end, t, phys, KERNEL_FLAGS, paging.pmm.free);
      SeenGrows(View(m, d), frames, phys);
      if old(Shared()) && end < HEAP_LIMIT {
        SharedStep(m, paging.dirs, old(paging.home), paging.kernelDir, d, end, t, phys, frames, free);
      }
    }

    lemma GrowthStart()
      requires Valid()
      ensures IsTable(paging.mem, paging.kernelDir)
      ensures Growth(frames, frames, paging.pmm.free, paging.pmm.free, paging.mem, paging.mem, HeapTable())
    {
      GrowthRefl(frames, paging.pmm.free, paging.mem, HeapTable());
    }

    /**
     Extends the heap by one page of the active directory, exactly when the page is free there and
     there are frames for it and for a missing table. Otherwise a frame is lost, if there was one.
     */
    method GrowPage() returns (ok: bool)
      requires Valid() && (paging.pmm.free != {} ==> end < TOP)
      modifies this, paging, paging.pmm, paging.pmm.bitmap
      ensures Valid()
      ensures paging.kernelDir == old(paging.kernelDir) && paging.currentDir == old(paging.currentDir)
      ensures paging.dirs == old(paging.dirs) && paging.pmm.managed == old(paging.pmm.managed)
      ensures SamePayloads(old(mem), mem, Live(old(blocks)))
      ensures paging.pmm.free <= old(paging.pmm.free)
      ensures ok ==> blocks == Grow(old(blocks)) && end == old(end) + PAGE_SIZE
      ensures ok ==> |frames| == |old(frames)| + 1 && frames[..|old(frames)|] == old(frames)
      ensures ok ==> frames[|old(frames)|] in old(paging.pmm.free) && frames[|old(frames)|] !in paging.pmm.free
      ensures !ok ==> blocks == old(blocks) && end == old(end) && mem == old(mem) && frames == old(frames)
      ensures ok <==> CanMap(old(Place()))
      ensures ok ==> Place() == Next(old(Place()))
      ensures !ok ==> |paging.pmm.free| == Left(old(Place()))
      ensures old(Shared()) && (old(end) < HEAP_LIMIT || old(paging.pmm.free) == {}) ==>
                Shared() && SharedEffect() && (ok <==> old(paging.pmm.free) != {})
    {
      hide Pmm.Consistent, View, Structure, Grow, SamePayloads, Seen, Pmm.Valid, SharedTables, Growth, SiteOf, CanMap,
           Next, Left;
      AgreesPayloads(mem, Live(blocks));
      GrowthStart();
      EndPage();
      ghost var phys;
      ok, phys := MapEnd();
      if !ok {
        return;
      }
      SeenGrows(View(old(paging.mem), paging.currentDir), frames, phys);
      AddPage();
      frames := frames + [phys];
    }

    /**
     The leak, for every heap that has just filled its first table: with the next entry of the active
     directory empty and one frame free, growth fails and the frame is gone.
     */
    lemma LeaksFrame()
      requires Valid() && end == HEAP_LIMIT && |paging.pmm.free| == 1
      requires !Present(paging.ActiveEntry(HEAP_ENTRY + 1))
      requires HEAP_LIMIT / PAGE_SIZE !in View(paging.mem, paging.currentDir)
      ensures !CanMap(Place()) && Left(Place()) == 0 < Place().free
    {
      hide Pmm.Consistent, View, Structure, Seen, Owns;
    }

    /** Room for `bytes` more bytes below `limit`, or too few frames left to pass it. */
    ghost predicate Room(bytes: int, limit: int)
      reads this, paging, paging.pmm
    {
      && end <= limit <= TOP && limit % PAGE_SIZE == 0
      && (end + bytes <= limit || end + |paging.pmm.free| * PAGE_SIZE <= limit)
    }

    /**
     Extends the heap page by page; stops at the first page that cannot be had, and `n` pages before it
     were. All pages are had exactly when each of them can be mapped, whatever the limit.
     */
    method MapMore(pages: nat, ghost limit: int) returns (ok: bool, ghost n: nat)
      requires Valid() && Room(pages * PAGE_SIZE, limit)
      modifies this, paging, paging.pmm, paging.pmm.bitmap
      ensures Valid() && SameWorld() && end <= limit
      ensures SamePayloads(old(mem), mem, Live(old(blocks)))
      ensures paging.pmm.free <= old(paging.pmm.free)
      ensures n <= pages && (ok <==> n == pages) && (ok <==> Reach(old(Place()), pages))
      ensures Reach(old(Place()), n) && (ok ==> Place() == After(old(Place()), n))
      ensures !ok ==> !CanMap(After(old(Place()), n)) && |paging.pmm.free| == Left(After(old(Place()), n))
      ensures blocks == GrowN(old(blocks), n) && end == old(end) + n * PAGE_SIZE
      ensures end + |paging.pmm.free| * PAGE_SIZE <= old(end) + |old(paging.pmm.free)| * PAGE_SIZE
      ensures old(Shared()) && limit <= HEAP_LIMIT ==> Shared() && SharedEffect() && (!ok ==> paging.pmm.free == {})
    {
      hide Pmm.Consistent, View, Chained, UsedBytes, Grow, SamePayloads, Live, Seen, Growth, SharedTables;
      hide Pmm.Valid, WellFormed, SiteOf, CanMap, Next, Left, NoFreePair;
      AgreesPayloads(mem, Live(blocks));
      GrowthStart();
      n := 0;
      ok := true;
      var i := 0;
      while i < pages
        invariant Valid() && SameWorld() && end <= limit && 0 <= i == n <= pages
        invariant end == old(end) + n * PAGE_SIZE && blocks == GrowN(old(blocks), n)
        invariant Reach(old(Place()), n) && Place() == After(old(Place()), n)
        invariant SamePayloads(old(mem), mem, Live(old(blocks))) && Live(blocks) == Live(old(blocks))
        invariant paging.pmm.free <= old(paging.pmm.free)
        invariant end + |paging.pmm.free| * PAGE_SIZE <= old(end) + |old(paging.pmm.free)| * PAGE_SIZE
        invariant old(Shared()) && limit <= HEAP_LIMIT ==> Shared() && SharedEffect()
      {
        label before:
        ReachStep(old(Place()), n, pages);
        ok := GrowPage();
        PayloadsTrans(old(mem), old@before(mem), mem, Live(old(blocks)));
        GrowthTrans(old(Shared()) && limit <= HEAP_LIMIT, old(frames), old@before(frames), frames,
                    old(paging.pmm.free), old@before(paging.pmm.free), paging.pmm.free,
                    old(paging.mem), old@before(paging.mem), paging.mem, old(HeapTable()));
        SmallerSet(paging.pmm.free, old@before(paging.pmm.free));
        if !ok {
          return;
        }
        GrowLive(old@before(blocks));
        i, n := i + 1, n + 1;
      }
    }

    /** Everything that no allocation changes. */
    twostate predicate SameWorld()
      reads this, paging, paging.pmm
    {
      && paging.kernelDir == old(paging.kernelDir) && paging.currentDir == old(paging.currentDir)
      && paging.dirs == old(paging.dirs) && paging.pmm.managed == old(paging.pmm.managed)
    }

    /** One round of growth of a heap that had the blocks `bs` and the site `s` before `r` whole rounds. */
    method GrowRound(ghost limit: int, ghost bs: seq<Block>, ghost s: Site, ghost r: nat, ghost n: nat, ghost want: int)
      returns (ok: bool, ghost m: nat)
      requires Valid() && Room(GROW_PAGES * PAGE_SIZE, limit) && |bs| > 0 && blocks == GrowN(bs, n)
      requires n == r * GROW_PAGES && Reach(s, n) && Place() == After(s, n) && NoneYet(bs, want, r + 1)
      modifies this, paging, paging.pmm, paging.pmm.bitmap
      ensures Valid() && SameWorld() && end <= limit
      ensures SamePayloads(old(mem), mem, Live(old(blocks))) && Live(blocks) == Live(old(blocks))
      ensures blocks == GrowN(bs, n + m) && end == old(end) + m * PAGE_SIZE && m <= GROW_PAGES
      ensures TailFree(blocks) - end == TailFree(old(blocks)) - old(end) && end <= old(end) + GROW_PAGES * PAGE_SIZE
      ensures ok ==> m == GROW_PAGES && end > old(end) && Reach(s, n + m) && Place() == After(s, n + m)
      ensures !ok ==> !Obtainable(bs, s, want) && Grown(bs, s, want, n + m, false, |paging.pmm.free|)
      ensures end + |paging.pmm.free| * PAGE_SIZE <= old(end) + |old(paging.pmm.free)| * PAGE_SIZE
      ensures old(Shared()) && limit <= HEAP_LIMIT ==> Shared() && SharedEffect()
    {
      hide Pmm.Consistent, View, Chained, UsedBytes, Grow, SamePayloads, Live, Seen, Growth, SharedTables;
      hide Pmm.Valid, WellFormed, SiteOf, CanMap, Next, Left, NoFreePair, Reach, After, HasFit, GrowN, Obtainable;
      hide Tiled, Owns, SeenIn, Paging.Valid, Grown, FitsAfter, NoneYet, Place, Structure;
      SomeBlock();
      ok, m := MapMore(GROW_PAGES, limit);
      GrowNKeeps(old(blocks), HEAP_START, old(end), m);
      RoundMapped(bs, s, r, n, m, want, ok, |paging.pmm.free|);
    }

    /**
     Searches, and grows the heap in rounds of eight pages until some block fits. It succeeds exactly
     when some number of whole rounds can be had after which a block fits.
     */
    method SearchAndGrow(want: int, ghost limit: int) returns (block: int, ghost k: int, ghost n: nat)
      requires Valid() && Request(want) && Room(want + HEADER + GROW_PAGES * PAGE_SIZE, limit)
      modifies this, paging, paging.pmm, paging.pmm.bitmap
      ensures Valid() && SameWorld() && end <= limit
      ensures SamePayloads(old(mem), mem, Live(old(blocks)))
      ensures blocks == GrowN(old(blocks), n) && end == old(end) + n * PAGE_SIZE
      ensures block != 0 ==> 0 <= k < |blocks| && block == blocks[k].addr && Fits(blocks[k], want)
      ensures block != 0 ==> NoFit(blocks, k, want)
      ensures Grown(old(blocks), old(Place()), want, n, block != 0, |paging.pmm.free|)
      ensures block != 0 <==> Obtainable(old(blocks), old(Place()), want)
      ensures n * PAGE_SIZE < want + HEADER + GROW_PAGES * PAGE_SIZE
      ensures old(Shared()) && limit <= HEAP_LIMIT ==> Shared() && SharedEffect()
    {
      hide Pmm.Consistent, View, Chained, UsedBytes, Grow, SamePayloads, Live, Seen, Growth, SharedTables;
      hide Pmm.Valid, WellFormed, SiteOf, CanMap, Next, Left, NoFreePair, Reach, After, HasFit, GrowN, Obtainable;
      hide Tiled, Owns, SeenIn, Paging.Valid, Grown, FitsAfter, NoneYet, Place, Structure, NoFit;
      AgreesPayloads(mem, Live(blocks));
      GrowthStart();
      n := 0;
      ghost var r, bs, s := 0, blocks, Place();
      SomeBlock();
      Start(bs, s, want);
      while true
        invariant Valid() && SameWorld() && end <= limit && n == r * GROW_PAGES && r >= 0
        invariant SamePayloads(old(mem), mem, Live(bs)) && Live(blocks) == Live(bs)
        invariant blocks == GrowN(bs, n) && end == old(end) + n * PAGE_SIZE
        invariant end < old(end) + want + HEADER + GROW_PAGES * PAGE_SIZE
        invariant |blocks| > 0 && TailFree(blocks) - end == TailFree(bs) - old(end)
        invariant Reach(s, n) && Place() == After(s, n) && NoneYet(bs, want, r)
        invariant end + |paging.pmm.free| * PAGE_SIZE <= old(end) + |old(paging.pmm.free)| * PAGE_SIZE
        invariant old(Shared()) && limit <= HEAP_LIMIT ==> Shared() && SharedEffect()
        decreases want + HEADER - TailFree(blocks)
      {
        block, k := FindFit(want);
        PlaceFree();
        RoundSearched(bs, s, r, n, want, block != 0, k, |paging.pmm.free|);
        if block != 0 {
          return;
        }
        TailTooSmall(blocks, want);
        label before:
        var ok;
        ghost var m;
        ok, m := GrowRound(limit, bs, s, r, n, want);
        PayloadsTrans(old(mem), old@before(mem), mem, Live(bs));
        GrowthTrans(old(Shared()) && limit <= HEAP_LIMIT, old(frames), old@before(frames), frames,
                    old(paging.pmm.free), old@before(paging.pmm.free), paging.pmm.free,
                    old(paging.mem), old@before(paging.mem), paging.mem, old(HeapTable()));
        n := n + m;
        if !ok {
          return;
        }
        r := r + 1;
      }
    }

    /** A pointer that callers may pass to `Kfree`: null, outside the heap, or the payload of some block. */
    ghost predicate Freeable(ptr: int)
      reads this
    {
      ptr == 0 || ptr < HEAP_START + HEADER || ptr >= end || exists b :: b in blocks && Payload(b) == ptr
    }

    /**
     Allocates at least `size` bytes, exactly when the heap can meet the request. The result is the first
     block that fits, cut to size, after `n` pages of growth; `n` is 0 whenever a block already fitted.
     */
    method Kmalloc(size: u32, ghost limit: int) returns (p: int, ghost b: Block, ghost k: int, ghost n: nat)
      requires ready ==> Valid() && Room(AlignUp8(size) + HEADER + GROW_PAGES * PAGE_SIZE, limit)
      modifies this, paging, paging.pmm, paging.pmm.bitmap
      ensures ready == old(ready) && (ready ==> Valid() && SameWorld() && end <= limit)
      ensures !ready || size == 0 || size > MAX_REQUEST ==>
                && p == 0 && mem == old(mem) && blocks == old(blocks) && frames == old(frames) && n == 0
                && paging.mem == old(paging.mem) && paging.home == old(paging.home)
                && paging.pmm.free == old(paging.pmm.free)
      ensures p != 0 <==> ready && 0 < size <= 0x7FFF_FFFF && Obtainable(old(blocks), old(Place()), AlignUp8(size))
      // the block handed out
      ensures p != 0 ==> b in blocks && p == Payload(b) && p % 8 == 0 && size <= b.size <= size + 31
      ensures p != 0 ==> !b.free && b !in Live(old(blocks)) && Live(blocks) == Live(old(blocks)) + {b}
      ensures p != 0 ==>
                var grown := GrowN(old(blocks), n);
                && 0 <= k < |grown| && Fits(grown[k], AlignUp8(size)) && b.addr == grown[k].addr
                && blocks == Take(grown, k, AlignUp8(size)) && k < |blocks| && b == blocks[k]
                && NoFit(grown, k, AlignUp8(size))
                && b.size == if grown[k].size - AlignUp8(size) > 24 then AlignUp8(size) else grown[k].size
      ensures p == 0 && ready ==> blocks == GrowN(old(blocks), n) && Live(blocks) == Live(old(blocks))
      // growth, and what stays the same
      ensures ready && 0 < size <= MAX_REQUEST ==>
                Grown(old(blocks), old(Place()), AlignUp8(size), n, p != 0, |paging.pmm.free|)
      ensures ready ==>
                end == old(end) + n * PAGE_SIZE && n * PAGE_SIZE < AlignUp8(size) + HEADER + GROW_PAGES * PAGE_SIZE
      ensures ready ==> SamePayloads(old(mem), mem, Live(old(blocks)))
      ensures ready && old(Shared()) && limit <= HEAP_LIMIT ==> Shared() && SharedEffect()
    {
      hide Pmm.Consistent, View, Chained, UsedBytes, Grow, SamePayloads, Live, Seen, Growth, NoFreePair;
      hide Pmm.Valid, WellFormed, Take, Fits, Tiled, Obtainable, Grown, Place, GrowN, SharedTables;
      p, b, k, n := 0, Block(0, 0, true), 0, 0;
      if ready {
        AgreesPayloads(mem, Live(blocks));
        GrowthStart();
        SomeBlock();
        Start(blocks, Place(), size);
      }
      if !ready || size == 0 {
        return;
      }
      if size > MAX_REQUEST {
        return;
      }
      var want := AlignUp8(size);
      var block;
      block, k, n := SearchAndGrow(want, limit);
      GrowNKeeps(old(blocks), HEAP_START, old(end), n);
      if block == 0 {
        return;
      }
      AllocSummary(blocks, HEAP_START, end, k, want);
      TakeSize(blocks, k, want);
      b := Take(blocks, k, want)[k];
      label grown:
      TakeBlock(block, want, k);
      PayloadsTrans(old(mem), old@grown(mem), mem, Live(old(blocks)));
      p := block + HEADER;
    }

    /** While the table is shared, the pages up to 4 MiB are free and their table is in place, in every directory. */
    lemma PlainPlace()
      requires Valid() && Shared()
      ensures 0 <= Place().page && Place().page * PAGE_SIZE == end
      ensures forall p :: Place().page <= p < HEAP_LIMIT / PAGE_SIZE ==>
                p !in Place().mapped && p / ENTRIES in Place().open
    {
      hide Pmm.Consistent, Chained, NoFreePair, UsedBytes, View, Seen, Paging.Backed;
      EndPage();
      forall p | end / PAGE_SIZE <= p < HEAP_LIMIT / PAGE_SIZE
        ensures p !in Place().mapped && p / ENTRIES in Place().open
      {
        assert HEAP_PAGE <= p && p / ENTRIES == HEAP_ENTRY;
        SharedPte(paging.mem, paging.currentDir, paging.kernelDir, p);
      }
    }

    /** Gives an allocation back; pointers that are not live are ignored. */
    method Kfree(ptr: int) returns (ghost freed: Option<Block>, ghost k: int)
      requires ready ==> Valid() && Freeable(ptr)
      modifies this
      ensures ready == old(ready) && frames == old(frames) && end == old(end) && (ready ==> Valid())
      ensures freed.Some? ==>
                var b := freed.value;
                && ready && b in Live(old(blocks)) && Payload(b) == ptr
                && Live(blocks) == Live(old(blocks)) - {b} && used == old(used) - b.size
                && 0 <= k < |old(blocks)| && old(blocks)[k] == b && blocks == Release(old(blocks), k)
      ensures freed.None? ==> blocks == old(blocks) && mem == old(mem)
      ensures freed.None? && ready ==> forall b :: b in Live(blocks) ==> Payload(b) != ptr
      ensures ready ==> SamePayloads(old(mem), mem, Live(blocks))
    {
      hide Pmm.Consistent, View, NoFreePair, Chained, UsedBytes, SamePayloads, Seen, Pmm.Valid, WellFormed, Release,
           Tiled;
      freed, k := None, 0;
      if ready {
        AgreesPayloads(mem, Live(blocks));
        LivePointers(blocks, HEAP_START, end);
      }
      if !ready || ptr == 0 {
        return;
      }
      if ptr < HEAP_START + HEADER || ptr >= end {
        return;
      }
      var block := ptr - HEADER;
      k :| 0 <= k < |blocks| && Payload(blocks[k]) == ptr;
      ReadHeader(mem, blocks, HEAP_START, end, k);
      if mem[block].free {
        NotLive(blocks, HEAP_START, end, k);
        return;
      }
      freed := Some(blocks[k]);
      ReleaseLive(blocks, HEAP_START, end, k);
      FreeBlock(block, k);
    }

    // Boot

    /** Only the kernel directory exists, and it maps nothing under the heap's entry. */
    ghost predicate Pristine()
      reads paging
    {
      && paging.dirs == {paging.kernelDir} && paging.currentDir == paging.kernelDir
      && IsTable(paging.mem, paging.kernelDir) && !Present(paging.mem[paging.kernelDir][HEAP_ENTRY])
    }

    /** The heap's entry and pages after the first `|frames|` pages were mapped. */
    ghost predicate Opened(frames: seq<int>)
      reads paging
    {
      && paging.dirs == {paging.kernelDir} && paging.currentDir == paging.kernelDir
      && IsTable(paging.mem, paging.kernelDir)
      && (if frames == [] then !Present(paging.mem[paging.kernelDir][HEAP_ENTRY])
          else var e := paging.mem[paging.kernelDir][HEAP_ENTRY]; Present(e) && WriteBit(e) && !UserBit(e))
      && forall p :: HEAP_PAGE + |frames| <= p < HEAP_LIMIT / PAGE_SIZE ==> p !in View(paging.mem, paging.kernelDir)
    }

    method MapInitialPage(ghost frames: seq<int>, i: nat) returns (ok: bool, ghost phys: int)
      requires paging.Valid() && i == |frames| < INITIAL_PAGES && Seen(View(paging.mem, paging.currentDir), frames)
      requires forall f :: f in frames ==>
                 f in paging.pmm.managed && f !in paging.pmm.free && f !in paging.dirs && f !in paging.home
      modifies paging, paging.pmm, paging.pmm.bitmap
      ensures paging.Valid()
      ensures paging.kernelDir == old(paging.kernelDir) && paging.currentDir == old(paging.currentDir)
      ensures paging.dirs == old(paging.dirs) && paging.pmm.managed == old(paging.pmm.managed)
      ensures ok ==> RowKept(old(paging.mem), paging.mem, paging.currentDir, HEAP_ENTRY)
      ensures ok ==> SameOutsideHeap(View(paging.mem, paging.currentDir), View(old(paging.mem), old(paging.currentDir)))
      ensures ok ==> phys !in frames && Seen(View(paging.mem, paging.currentDir), frames + [phys])
      ensures ok ==> forall f :: f in frames + [phys] ==>
                f in paging.pmm.managed && f !in paging.pmm.free && f !in paging.dirs && f !in paging.home
      ensures old(Opened(frames)) ==> (ok <==> |old(paging.pmm.free)| >= if i == 0 then 2 else 1)
      ensures old(Opened(frames)) && ok ==>
                Opened(frames + [phys]) && |paging.pmm.free| == |old(paging.pmm.free)| - if i == 0 then 2 else 1
    {
      hide Pmm.Consistent, View, Seen, SameOutsideHeap;
      ok := false;
      var frame := paging.TakeFrame();
      phys := frame;
      if frame == 0 {
        return;
      }
      ghost var t;
      var virt := HEAP_START + i * PAGE_SIZE;
      assert virt / PAGE_SIZE == HEAP_PAGE + i && virt / PAGE_SIZE / ENTRIES == HEAP_ENTRY;
      ok, t := paging.MapPage(virt, frame, KERNEL_FLAGS);
      if ok {
        MappedRow(old(paging.mem), paging.currentDir, HEAP_PAGE + i, t, phys, MapFlags(3));
        SeenGrows(View(old(paging.mem), paging.currentDir), frames, phys);
        assert View(paging.mem, paging.currentDir)
               == View(old(paging.mem), paging.currentDir)[HEAP_PAGE + i := phys + MapFlags(3)];
        FlaggedWord(t, KERNEL_FLAGS);
        OutsideOne(View(old(paging.mem), paging.currentDir), HEAP_PAGE + i, phys + MapFlags(3));
      }
    }

    /** Maps the first sixteen pages. */
    method MapInitial() returns (ok: bool)
      requires paging.Valid()
      modifies `frames, paging, paging.pmm, paging.pmm.bitmap
      ensures paging.dirs == old(paging.dirs) && paging.kernelDir == old(paging.kernelDir)
      ensures paging.currentDir == old(paging.currentDir) && paging.pmm.managed == old(paging.pmm.managed)
      ensures ok ==> paging.Valid() && |frames| == INITIAL_PAGES
      ensures ok ==> Seen(View(paging.mem, paging.currentDir), frames)
      ensures ok ==> RowKept(old(paging.mem), paging.mem, paging.currentDir, HEAP_ENTRY)
      ensures ok ==> SameOutsideHeap(View(paging.mem, paging.currentDir), View(old(paging.mem), old(paging.currentDir)))
      ensures ok ==> forall j, k :: 0 <= j < k < |frames| ==> frames[j] != frames[k]
      ensures ok ==> forall f :: f in frames ==>
                f in paging.pmm.managed && f !in paging.pmm.free && f !in paging.dirs && f !in paging.home
      ensures old(Pristine()) ==> (ok <==> |old(paging.pmm.free)| >= INITIAL_PAGES + 1)
      ensures old(Pristine()) && ok ==>
                Opened(frames) && |paging.pmm.free| == |old(paging.pmm.free)| - (INITIAL_PAGES + 1)
    {
      hide Pmm.Consistent, View, Pmm.Valid, Seen, SameOutsideHeap;
      frames := [];
      OutsideOne(View(paging.mem, paging.currentDir), HEAP_PAGE, 0);
      SeenNothing(View(paging.mem, paging.currentDir));
      if Pristine() {
        AbsentEntry(paging.mem, paging.kernelDir, HEAP_ENTRY);
      }
      var i := 0;
      while i < INITIAL_PAGES
        invariant 0 <= i == |frames| <= INITIAL_PAGES && paging.Valid()
        invariant paging.kernelDir == old(paging.kernelDir) && paging.currentDir == old(paging.currentDir)
        invariant paging.dirs == old(paging.dirs) && paging.pmm.managed == old(paging.pmm.managed)
        invariant Seen(View(paging.mem, paging.currentDir), frames)
        invariant RowKept(old(paging.mem), paging.mem, paging.currentDir, HEAP_ENTRY)
        invariant SameOutsideHeap(View(paging.mem, paging.currentDir), View(old(paging.mem), paging.currentDir))
        invariant forall j, k :: 0 <= j < k < |frames| ==> frames[j] != frames[k]
        invariant forall f :: f in frames ==>
                    f in paging.pmm.managed && f !in paging.pmm.free && f !in paging.dirs && f !in paging.home
        invariant old(Pristine()) ==>
                Opened(frames) && |paging.pmm.free| == |old(paging.pmm.free)| - if i == 0 then 0 else i + 1
      {
        var mapped;
        ghost var f;
        ghost var v := View(paging.mem, paging.currentDir);
        mapped, f := MapInitialPage(frames, i);
        if !mapped {
          return false;
        }
        OutsideTrans(View(old(paging.mem), paging.currentDir), v, View(paging.mem, paging.currentDir));
        frames, i := frames + [f], i + 1;
      }
      ok := true;
    }

    /** Maps the first sixteen pages and makes them one free block. */
    method Init() returns (ok: bool)
      requires !ready && (paging.enabled ==> paging.Valid()) && (paging.pmm.initialized ==> paging.pmm.Valid())
      modifies this, paging, paging.pmm, paging.pmm.bitmap
      ensures ready == ok && (ok ==> Valid()) && (!old(paging.enabled) ==> !ok)
      ensures ok ==> blocks == [Block(0xD000_0000, 65520, true)] && used == 0
      ensures paging.dirs == old(paging.dirs) && paging.kernelDir == old(paging.kernelDir)
      ensures paging.currentDir == old(paging.currentDir)
      ensures ok ==> RowKept(old(paging.mem), paging.mem, paging.currentDir, HEAP_ENTRY)
      ensures ok ==> SameOutsideHeap(View(paging.mem, paging.currentDir), View(old(paging.mem), old(paging.currentDir)))
      ensures paging.pmm.managed == old(paging.pmm.managed) && (ok ==> end == 0xD001_0000)
      ensures old(paging.enabled && Pristine()) ==> (ok <==> |old(paging.pmm.free)| >= 17)
      ensures old(Pristine()) && ok ==> Shared() && |paging.pmm.free| == |old(paging.pmm.free)| - (INITIAL_PAGES + 1)
    {
      hide Pmm.Consistent, View, Pmm.Valid, Seen, Structure, SameOutsideHeap;
      ok := false;
      if !paging.enabled {
        // the first page cannot be mapped
        ghost var t;
        var phys := paging.pmm.AllocFrame();
        if phys != 0 {
          ok, t := paging.MapPage(HEAP_START, phys, KERNEL_FLAGS);
        }
        return;
      }
      ok := MapInitial();
      if ok {
        FirstBlock();
      }
    }

    method FirstBlock()
      modifies this
      ensures Structure() && blocks == [Block(HEAP_START, INITIAL_PAGES * PAGE_SIZE - HEADER, true)]
      ensures frames == old(frames) && ready && used == 0 && total == INITIAL_PAGES * PAGE_SIZE
      ensures end == HEAP_START + INITIAL_PAGES * PAGE_SIZE
    {
      head := HEAP_START;
      mem := mem[head := Header(INITIAL_PAGES * PAGE_SIZE - HEADER, true, 0, 0)];
      end, total, used, ready := HEAP_START + INITIAL_PAGES * PAGE_SIZE, INITIAL_PAGES * PAGE_SIZE, 0, true;
      blocks := [Block(HEAP_START, INITIAL_PAGES * PAGE_SIZE - HEADER, true)];
      UsedOne(blocks[0]);
      assert CellAt(mem, blocks[0].addr) == Some(HeaderOf(blocks, 0));
    }

    // Consequences of the invariant

    /** While the table is shared, the heap looks the same in every directory. */
    lemma SeenByAll(d: int)
      requires Valid() && Shared() && d in paging.dirs
      ensures SeenIn(d)
    {
      hide Pmm.Consistent, Tiled, Chained, UsedBytes, View, Pte;
      var v, v', fs := View(paging.mem, paging.currentDir), View(paging.mem, d), frames;
      assert Seen(v, fs);
      assert |fs| * PAGE_SIZE <= HEAP_LIMIT - HEAP_START;
      forall i | 0 <= i < |fs|
        ensures LeadsTo(v', HEAP_PAGE + i, fs[i])
      {
        SeenAt(v, fs, i);
        SharedPte(paging.mem, d, paging.currentDir, HEAP_PAGE + i);
      }
      assert Seen(v', fs);
    }

    // Payload access

    /** Writes one byte of an allocation. */
    method Poke(ghost b: Block, a: int, value: u8)
      requires Valid() && b in Live(blocks) && Payload(b) <= a < EndOf(b)
      modifies this`mem
      ensures Valid() && mem == old(mem)[a := Byte(value)]
      ensures SamePayloads(old(mem), mem, Live(blocks) - {b})
    {
      hide Pmm.Consistent, UsedBytes, Seen, View;
      PokeKeeps(mem, blocks, HEAP_START, end, b, a, Byte(value));
      mem := mem[a := Byte(value)];
    }
  }
}
