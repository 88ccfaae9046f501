/**
 The kernel heap as a sequence of blocks. A block is a 16-byte header at `addr` followed
 by `size` payload bytes.
 */
module HeapSpec {
  import opened Words

  const HEAP_START := 0xD000_0000
  const HEADER := 16
  const INITIAL_PAGES := 16
  const GROW_PAGES := 8

  datatype Block = Block(addr: int, size: int, free: bool)

  function EndOf(b: Block): int { b.addr + HEADER + b.size }

  function Payload(b: Block): int { b.addr + HEADER }

  /** The blocks tile `[start, end)` with payloads that are positive multiples of 8. */
  ghost predicate Tiled(bs: seq<Block>, start: int, end: int) {
    && |bs| > 0 && bs[0].addr == start && EndOf(bs[|bs| - 1]) == end
    && (forall i :: 0 <= i < |bs| ==> bs[i].size >= 8 && bs[i].size % 8 == 0)
    && (forall i {:trigger EndOf(bs[i])} :: 0 <= i < |bs| - 1 ==> bs[i + 1].addr == EndOf(bs[i]))
  }

  ghost predicate NoFreePair(bs: seq<Block>) {
    forall i :: 0 <= i < |bs| - 1 ==> !(bs[i].free && bs[i + 1].free)
  }

  lemma NoPairAt(bs: seq<Block>, i: int)
    requires NoFreePair(bs) && 0 <= i < |bs| - 1
    ensures !(bs[i].free && bs[i + 1].free)
  {
  }

  function UsedBytes(bs: seq<Block>): (n: nat)
    requires forall i :: 0 <= i < |bs| ==> bs[i].size >= 0
  {
    if bs == [] then 0
    else UsedBytes(bs[..|bs| - 1]) + if bs[|bs| - 1].free then 0 else bs[|bs| - 1].size
  }

  /** The blocks that callers hold. */
  ghost function Live(bs: seq<Block>): set<Block> {
    set b | b in bs && !b.free
  }

  predicate Fits(b: Block, want: int) { b.free && b.size >= want }

  lemma {:induction false} Ordered(bs: seq<Block>, start: int, end: int, i: int, j: int)
    requires Tiled(bs, start, end) && 0 <= i < j < |bs|
    ensures EndOf(bs[i]) <= bs[j].addr
    decreases j
  {
    if i < j - 1 {
      Ordered(bs, start, end, i, j - 1);
    }
    assert bs[j - 1 + 1].addr == EndOf(bs[j - 1]);
  }

  /** None of the first `k` blocks fits. */
  predicate NoFit(bs: seq<Block>, k: int, want: int) {
    k <= |bs| && forall i :: 0 <= i < k ==> !Fits(bs[i], want)
  }

  lemma AllOrdered(bs: seq<Block>, start: int, end: int)
    requires Tiled(bs, start, end)
    ensures forall i, j :: 0 <= i < j < |bs| ==> EndOf(bs[i]) <= bs[j].addr
    ensures forall i :: 0 <= i < |bs| ==> start <= bs[i].addr && EndOf(bs[i]) <= end
  {
    forall i, j | 0 <= i < j < |bs|
      ensures EndOf(bs[i]) <= bs[j].addr
    {
      Ordered(bs, start, end, i, j);
    }
  }

  /** Two live blocks never overlap. */
  lemma LiveDisjoint(bs: seq<Block>, start: int, end: int, a: Block, b: Block)
    requires Tiled(bs, start, end) && a in Live(bs) && b in Live(bs) && a != b
    ensures EndOf(a) <= b.addr || EndOf(b) <= a.addr
  {
    AllOrdered(bs, start, end);
  }

  // Every heap operation replaces `n` consecutive blocks by others that cover the same bytes

  function Splice(bs: seq<Block>, k: int, n: int, mid: seq<Block>): (r: seq<Block>)
    requires 0 <= k && 0 <= n && k + n <= |bs|
    ensures |r| == |bs| - n + |mid|
    ensures forall i :: 0 <= i < k ==> r[i] == bs[i]
    ensures forall i :: k <= i < k + |mid| ==> r[i] == mid[i - k]
    ensures forall i :: k + |mid| <= i < |r| ==> r[i] == bs[i - |mid| + n]
  {
    bs[..k] + mid + bs[k + n..]
  }

  lemma SpliceTiled(bs: seq<Block>, start: int, end: int, k: int, n: int, mid: seq<Block>)
    requires Tiled(bs, start, end) && 0 <= k && 0 < n && k + n <= |bs|
    requires Tiled(mid, bs[k].addr, EndOf(bs[k + n - 1]))
    ensures Tiled(Splice(bs, k, n, mid), start, end)
  {
    var r := Splice(bs, k, n, mid);
    hide Splice;
    forall i | 0 <= i < |r| - 1
      ensures r[i + 1].addr == EndOf(r[i])
    {
      if i + 1 < k {
      } else if i + 1 == k {
        assert r[i] == bs[k - 1] && r[i + 1] == mid[0];
        assert bs[k - 1 + 1].addr == EndOf(bs[k - 1]);
      } else if i + 1 < k + |mid| {
        assert r[i] == mid[i - k] && r[i + 1] == mid[i - k + 1];
      } else if i + 1 == k + |mid| {
        assert r[i] == mid[|mid| - 1] && r[i + 1] == bs[k + n];
        assert bs[k + n - 1 + 1].addr == EndOf(bs[k + n - 1]);
      } else {
        var j := i - |mid| + n;
        assert r[i] == bs[j] && r[i + 1] == bs[j + 1];
      }
    }
  }

  lemma SpliceNoFreePair(bs: seq<Block>, k: int, n: int, mid: seq<Block>)
    requires NoFreePair(bs) && NoFreePair(mid) && 0 <= k && 0 < n && k + n <= |bs| && |mid| > 0
    requires k > 0 ==> !(bs[k - 1].free && mid[0].free)
    requires k + n < |bs| ==> !(mid[|mid| - 1].free && bs[k + n].free)
    ensures NoFreePair(Splice(bs, k, n, mid))
  {
    var r := Splice(bs, k, n, mid);
    hide Splice;
    forall i | 0 <= i < |r| - 1
      ensures !(r[i].free && r[i + 1].free)
    {
      if k + |mid| <= i {
        var j := i - |mid| + n;
        assert r[i] == bs[j] && r[i + 1] == bs[j + 1];
      } else if k <= i && i + 1 < k + |mid| {
        assert r[i] == mid[i - k] && r[i + 1] == mid[i - k + 1];
      }
    }
  }

  lemma SpliceLive(bs: seq<Block>, start: int, end: int, k: int, n: int, mid: seq<Block>)
    requires Tiled(bs, start, end) && 0 <= k && 0 <= n && k + n <= |bs|
    ensures Live(Splice(bs, k, n, mid)) == Live(bs) - Live(bs[k..k + n]) + Live(mid)
  {
    AllOrdered(bs, start, end);
    var r := Splice(bs, k, n, mid);
    hide Splice, Tiled;
    forall x | x in bs && x !in bs[k..k + n]
      ensures x in r
    {
      var i :| 0 <= i < |bs| && bs[i] == x;
      if i < k {
        assert r[i] == x;
      } else {
        InSlice(bs, k, n, i);
        assert r[i - n + |mid|] == x;
      }
    }
    forall x | x in mid
      ensures x in r
    {
      var i :| 0 <= i < |mid| && mid[i] == x;
      assert r[k + i] == x;
    }
    forall x | x in r && x !in mid
      ensures x in bs && x !in bs[k..k + n]
    {
      var i :| 0 <= i < |r| && r[i] == x;
      assert i < k || k + |mid| <= i;
      var j := if i < k then i else i - |mid| + n;
      assert bs[j] == x;
      SizesApart(bs, k, n, j);
    }
  }

  lemma InSlice(bs: seq<Block>, k: int, n: int, i: int)
    requires 0 <= k <= i < |bs| && 0 <= n && k + n <= |bs|
    ensures i < k + n ==> bs[i] in bs[k..k + n]
  {
    if i < k + n {
      assert bs[i] == bs[k..k + n][i - k];
    }
  }

  lemma SizesApart(bs: seq<Block>, k: int, n: int, j: int)
    requires 0 <= k && 0 <= n && k + n <= |bs| && 0 <= j < |bs| && (j < k || k + n <= j)
    requires forall a, b :: 0 <= a < b < |bs| ==> EndOf(bs[a]) <= bs[b].addr
    requires forall a :: 0 <= a < |bs| ==> bs[a].size >= 0
    ensures bs[j] !in bs[k..k + n]
  {
    forall i | k <= i < k + n
      ensures bs[i] != bs[j]
    {
      if i < j {
        assert EndOf(bs[i]) <= bs[j].addr;
      } else {
        assert EndOf(bs[j]) <= bs[i].addr;
      }
    }
  }

  lemma {:induction false} UsedConcat(a: seq<Block>, b: seq<Block>)
    requires forall i :: 0 <= i < |a| ==> a[i].size >= 0
    requires forall i :: 0 <= i < |b| ==> b[i].size >= 0
    ensures UsedBytes(a + b) == UsedBytes(a) + UsedBytes(b)
  {
    if b == [] {
      assert a + b == a;
    } else {
      var c := b[..|b| - 1];
      UsedConcat(a, c);
      assert (a + b)[..|a + b| - 1] == a + c;
    }
  }

  lemma UsedParts(a: seq<Block>, b: seq<Block>, c: seq<Block>)
    requires forall i :: 0 <= i < |a| ==> a[i].size >= 0
    requires forall i :: 0 <= i < |b| ==> b[i].size >= 0
    requires forall i :: 0 <= i < |c| ==> c[i].size >= 0
    ensures UsedBytes(a + b + c) == UsedBytes(a) + UsedBytes(b) + UsedBytes(c)
  {
    UsedConcat(a, b);
    UsedConcat(a + b, c);
  }

  lemma SpliceUsed(bs: seq<Block>, k: int, n: int, mid: seq<Block>)
    requires 0 <= k && 0 <= n && k + n <= |bs|
    requires forall i :: 0 <= i < |bs| ==> bs[i].size >= 0
    requires forall i :: 0 <= i < |mid| ==> mid[i].size >= 0
    ensures UsedBytes(Splice(bs, k, n, mid)) == UsedBytes(bs) - UsedBytes(bs[k..k + n]) + UsedBytes(mid)
  {
    hide UsedBytes;
    var left, out, right := bs[..k], bs[k..k + n], bs[k + n..];
    UsedParts(left, mid, right);
    UsedParts(left, out, right);
    assert bs == left + out + right;
  }

  // Taking a block

  /** What block `b` becomes when `want` bytes of it are taken: a leftover too small to hold 8 bytes stays. */
  function Cut(b: Block, want: int): (mid: seq<Block>)
    ensures |mid| > 0
  {
    if b.size <= want + HEADER + 8 then [Block(b.addr, b.size, false)]
    else [Block(b.addr, want, false), Block(b.addr + HEADER + want, b.size - want - HEADER, true)]
  }

  function Take(bs: seq<Block>, k: int, want: int): (r: seq<Block>)
    requires 0 <= k < |bs|
  {
    Splice(bs, k, 1, Cut(bs[k], want))
  }

  predicate Request(want: int) { want >= 8 && want % 8 == 0 }

  /** A block is cut only if more than 24 bytes would be left over: a header and at least 16 bytes. */
  lemma TakeSize(bs: seq<Block>, k: int, want: int)
    requires 0 <= k < |bs|
    ensures k < |Take(bs, k, want)| && Take(bs, k, want)[k].addr == bs[k].addr
    ensures Take(bs, k, want)[k].size == if bs[k].size - want > 24 then want else bs[k].size
  {
  }

  lemma CutTiled(b: Block, want: int)
    requires Fits(b, want) && b.size % 8 == 0 && Request(want)
    ensures Tiled(Cut(b, want), b.addr, EndOf(b)) && NoFreePair(Cut(b, want))
  {
    assert (b.size - want - HEADER) % 8 == 0;
  }

  /** Taking keeps the tiling, and no two neighbours become free. */
  lemma TakeTiled(bs: seq<Block>, start: int, end: int, k: int, want: int)
    requires Tiled(bs, start, end) && NoFreePair(bs) && 0 <= k < |bs| && Fits(bs[k], want) && Request(want)
    ensures Tiled(Take(bs, k, want), start, end) && NoFreePair(Take(bs, k, want))
  {
    CutTiled(bs[k], want);
    SpliceTiled(bs, start, end, k, 1, Cut(bs[k], want));
    assert k + 1 < |bs| ==> !(bs[k].free && bs[k + 1].free);
    SpliceNoFreePair(bs, k, 1, Cut(bs[k], want));
  }

  /** The caller gets a new live block of at most 24 bytes more than asked; no live block changes. */
  lemma TakeLive(bs: seq<Block>, start: int, end: int, k: int, want: int)
    requires Tiled(bs, start, end) && 0 <= k < |bs| && Fits(bs[k], want) && Request(want)
    ensures |Take(bs, k, want)| > k
    ensures var b := Take(bs, k, want)[k];
            && b.addr == bs[k].addr && !b.free && want <= b.size <= want + 24
            && b !in Live(bs) && Live(Take(bs, k, want)) == Live(bs) + {b}
  {
    var mid := Cut(bs[k], want);
    SpliceLive(bs, start, end, k, 1, mid);
    assert bs[k..k + 1] == [bs[k]];
    assert Live([bs[k]]) == {};
    assert Take(bs, k, want)[k] == mid[0];
    assert Live(mid) == {mid[0]};
    FreeAddr(bs, start, end, k, mid[0]);
  }

  /** A live block never sits where a free block is. */
  lemma FreeAddr(bs: seq<Block>, start: int, end: int, k: int, b: Block)
    requires Tiled(bs, start, end) && 0 <= k < |bs| && bs[k].free && b.addr == bs[k].addr
    ensures b !in Live(bs)
  {
    AllOrdered(bs, start, end);
  }

  lemma TakeUsed(bs: seq<Block>, start: int, end: int, k: int, want: int)
    requires Tiled(bs, start, end) && 0 <= k < |bs| && Fits(bs[k], want) && Request(want)
    ensures Tiled(Take(bs, k, want), start, end) && |Take(bs, k, want)| > k
    ensures UsedBytes(Take(bs, k, want)) == UsedBytes(bs) + Take(bs, k, want)[k].size
  {
    var mid := Cut(bs[k], want);
    CutTiled(bs[k], want);
    SpliceTiled(bs, start, end, k, 1, mid);
    SpliceUsed(bs, k, 1, mid);
    assert bs[k..k + 1] == [bs[k]];
    UsedOne(bs[k]);
    UsedOne(mid[0]);
    if |mid| == 2 {
      UsedOne(mid[1]);
      UsedConcat([mid[0]], [mid[1]]);
      assert mid == [mid[0]] + [mid[1]];
    }
  }

  lemma UsedOne(b: Block)
    requires b.size >= 0
    ensures UsedBytes([b]) == if b.free then 0 else b.size
  {
    assert [b][..0] == [];
  }

  // Giving a block back

  function Lo(bs: seq<Block>, k: int): (lo: int)
    requires 0 <= k < |bs|
    ensures k - 1 <= lo <= k && 0 <= lo
  {
    if k > 0 && bs[k - 1].free then k - 1 else k
  }

  function Hi(bs: seq<Block>, k: int): (hi: int)
    requires 0 <= k < |bs|
    ensures k <= hi <= k + 1 && hi < |bs|
  {
    if k + 1 < |bs| && bs[k + 1].free then k + 1 else k
  }

  /** One free block over the bytes of blocks `lo` to `hi`. */
  function Merged(bs: seq<Block>, lo: int, hi: int): Block
    requires 0 <= lo <= hi < |bs|
  {
    Block(bs[lo].addr, EndOf(bs[hi]) - bs[lo].addr - HEADER, true)
  }

  /** Block `k` becomes free and merges with the free neighbours it has. */
  function Release(bs: seq<Block>, k: int): (r: seq<Block>)
    requires 0 <= k < |bs|
  {
    var lo, hi := Lo(bs, k), Hi(bs, k);
    Splice(bs, lo, hi - lo + 1, [Merged(bs, lo, hi)])
  }

  lemma Join8(a: int, b: int)
    requires a % 8 == 0 && b % 8 == 0
    ensures (a + HEADER + b) % 8 == 0
  {
  }

  lemma MergedTiled(bs: seq<Block>, start: int, end: int, k: int)
    requires Tiled(bs, start, end) && 0 <= k < |bs|
    ensures var lo, hi := Lo(bs, k), Hi(bs, k);
            Tiled([Merged(bs, lo, hi)], bs[lo].addr, EndOf(bs[hi]))
  {
    var lo, hi := Lo(bs, k), Hi(bs, k);
    assert lo < k ==> bs[lo + 1].addr == EndOf(bs[lo]);
    assert k < hi ==> bs[k + 1].addr == EndOf(bs[k]);
    var right := if k < hi then bs[k].size + HEADER + bs[hi].size else bs[k].size;
    Join8(bs[k].size, bs[hi].size);
    Join8(bs[lo].size, right);
    assert Merged(bs, lo, hi).size == if lo < k then bs[lo].size + HEADER + right else right;
  }

  /** Giving back keeps the tiling, and no two neighbours are free afterwards. */
  lemma ReleaseTiled(bs: seq<Block>, start: int, end: int, k: int)
    requires Tiled(bs, start, end) && NoFreePair(bs) && 0 <= k < |bs| && !bs[k].free
    ensures Tiled(Release(bs, k), start, end) && NoFreePair(Release(bs, k))
  {
    var lo, hi := Lo(bs, k), Hi(bs, k);
    MergedTiled(bs, start, end, k);
    SpliceTiled(bs, start, end, lo, hi - lo + 1, [Merged(bs, lo, hi)]);
    if 0 < lo {
      NoPairAt(bs, lo - 1);
    }
    if hi + 1 < |bs| {
      NoPairAt(bs, hi);
    }
    SpliceNoFreePair(bs, lo, hi - lo + 1, [Merged(bs, lo, hi)]);
  }

  /** Exactly the released block stops being live. */
  lemma ReleaseLive(bs: seq<Block>, start: int, end: int, k: int)
    requires Tiled(bs, start, end) && 0 <= k < |bs| && !bs[k].free
    ensures Live(Release(bs, k)) == Live(bs) - {bs[k]}
  {
    var lo, hi := Lo(bs, k), Hi(bs, k);
    SpliceLive(bs, start, end, lo, hi - lo + 1, [Merged(bs, lo, hi)]);
    var out := bs[lo..hi + 1];
    assert out[k - lo] == bs[k];
    assert Live(out) == {bs[k]};
    assert Live([Merged(bs, lo, hi)]) == {};
  }

  lemma ReleaseUsed(bs: seq<Block>, start: int, end: int, k: int)
    requires Tiled(bs, start, end) && 0 <= k < |bs| && !bs[k].free
    ensures Tiled(Release(bs, k), start, end)
    ensures UsedBytes(Release(bs, k)) == UsedBytes(bs) - bs[k].size
  {
    hide Tiled, UsedBytes, Merged, Splice;
    var lo, hi := Lo(bs, k), Hi(bs, k);
    var m := Merged(bs, lo, hi);
    MergedTiled(bs, start, end, k);
    SpliceTiled(bs, start, end, lo, hi - lo + 1, [m]);
    MergedFree(bs, lo, hi);
    SizesOk(bs, start, end);
    SizesOk([m], bs[lo].addr, EndOf(bs[hi]));
    SpliceUsed(bs, lo, hi - lo + 1, [m]);
    UsedOne(m);
    UsedAround(bs, start, end, k, lo, hi);
  }

  lemma MergedFree(bs: seq<Block>, lo: int, hi: int)
    requires 0 <= lo <= hi < |bs|
    ensures Merged(bs, lo, hi).free
  {
  }

  lemma SizesOk(bs: seq<Block>, start: int, end: int)
    requires Tiled(bs, start, end)
    ensures forall i :: 0 <= i < |bs| ==> bs[i].size >= 0
  {
  }

  lemma UsedAround(bs: seq<Block>, start: int, end: int, k: int, lo: int, hi: int)
    requires Tiled(bs, start, end) && 0 <= lo <= k <= hi < |bs| && k - lo <= 1 && hi - k <= 1
    requires !bs[k].free && (lo < k ==> bs[lo].free) && (k < hi ==> bs[hi].free)
    ensures UsedBytes(bs[lo..hi + 1]) == bs[k].size
  {
    var left, right := bs[lo..k], bs[k + 1..hi + 1];
    assert left == if lo < k then [bs[lo]] else [];
    assert right == if k < hi then [bs[hi]] else [];
    UsedOne(bs[lo]);
    UsedOne(bs[k]);
    UsedOne(bs[hi]);
    assert UsedBytes([]) == 0;
    assert bs[lo..hi + 1] == left + [bs[k]] + right;
    hide UsedBytes, Tiled;
    UsedParts(left, [bs[k]], right);
  }

  /** Giving back what was just taken restores the heap, block by block. */
  lemma TakeRelease(bs: seq<Block>, start: int, end: int, k: int, want: int)
    requires Tiled(bs, start, end) && NoFreePair(bs) && 0 <= k < |bs| && Fits(bs[k], want) && Request(want)
    ensures |Take(bs, k, want)| > k && Release(Take(bs, k, want), k) == bs
  {
    hide Tiled, NoFreePair;
    var taken, mid := Take(bs, k, want), Cut(bs[k], want);
    assert taken == bs[..k] + mid + bs[k + 1..];
    if k > 0 {
      NoPairAt(bs, k - 1);
      assert taken[k - 1] == bs[k - 1];
    }
    assert Lo(taken, k) == k;
    if |mid| == 2 {
      assert taken[k + 1] == mid[1] && taken[k + 2..] == bs[k + 1..];
      assert Hi(taken, k) == k + 1;
    } else {
      assert taken[k + 1..] == bs[k + 1..];
      if k + 1 < |bs| {
        NoPairAt(bs, k);
        assert taken[k + 1] == bs[k + 1];
      }
      assert Hi(taken, k) == k;
    }
    assert taken[..k] == bs[..k];
    assert Merged(taken, k, Hi(taken, k)) == bs[k];
    assert bs == bs[..k] + [bs[k]] + bs[k + 1..];
  }

  // Growing by one page

  function Grow(bs: seq<Block>): (r: seq<Block>)
    requires |bs| > 0
  {
    var last := bs[|bs| - 1];
    if last.free then bs[|bs| - 1 := Block(last.addr, last.size + PAGE_SIZE, true)]
    else bs + [Block(EndOf(last), PAGE_SIZE - HEADER, true)]
  }

  lemma GrowTiled(bs: seq<Block>, start: int, end: int)
    requires Tiled(bs, start, end) && NoFreePair(bs)
    ensures Tiled(Grow(bs), start, end + PAGE_SIZE) && NoFreePair(Grow(bs))
  {
    assert (bs[|bs| - 1].size + PAGE_SIZE) % 8 == 0;
    assert (PAGE_SIZE - HEADER) % 8 == 0;
  }

  lemma GrowLive(bs: seq<Block>)
    requires |bs| > 0
    ensures Live(Grow(bs)) == Live(bs)
  {
    var r := Grow(bs);
    forall x | x in Live(bs)
      ensures x in Live(r)
    {
      var i :| 0 <= i < |bs| && bs[i] == x;
      assert r[i] == x;
    }
  }

  lemma GrowUsed(bs: seq<Block>, start: int, end: int)
    requires Tiled(bs, start, end)
    ensures forall i :: 0 <= i < |Grow(bs)| ==> Grow(bs)[i].size >= 0
    ensures UsedBytes(Grow(bs)) == UsedBytes(bs)
  {
    var n := |bs|;
    var init, last, r := bs[..n - 1], bs[n - 1], Grow(bs);
    var extra := r[|r| - 1];
    assert bs == init + [last];
    assert r == if last.free then init + [extra] else bs + [extra];
    UsedOne(last);
    UsedOne(extra);
    hide UsedBytes;
    UsedConcat(init, [last]);
    if last.free {
      UsedConcat(init, [extra]);
    } else {
      UsedConcat(bs, [extra]);
    }
  }

  /** Growth adds one page of free space at the end and touches no live block. */
  lemma GrowKeeps(bs: seq<Block>, start: int, end: int)
    requires Tiled(bs, start, end) && NoFreePair(bs)
    ensures Tiled(Grow(bs), start, end + PAGE_SIZE) && NoFreePair(Grow(bs))
    ensures Live(Grow(bs)) == Live(bs) && UsedBytes(Grow(bs)) == UsedBytes(bs)
  {
    GrowTiled(bs, start, end);
    GrowLive(bs);
    GrowUsed(bs, start, end);
  }

  // Consequences for whole runs

  /** When nothing is live any more, the heap is one free block again. */
  lemma AllFreed(bs: seq<Block>, start: int, end: int)
    requires Tiled(bs, start, end) && NoFreePair(bs) && Live(bs) == {}
    ensures bs == [Block(start, end - start - HEADER, true)]
  {
    forall i | 0 <= i < |bs|
      ensures bs[i].free
    {
      assert bs[i] !in Live(bs);
    }
    if |bs| > 1 {
      NoPairAt(bs, 0);
    }
  }

  // Growing by several pages

  function GrowN(bs: seq<Block>, n: nat): (r: seq<Block>)
    requires |bs| > 0
    ensures |r| > 0
  {
    if n == 0 then bs else Grow(GrowN(bs, n - 1))
  }

  lemma {:induction false} GrowNAdd(bs: seq<Block>, n: nat, m: nat)
    requires |bs| > 0
    ensures GrowN(GrowN(bs, n), m) == GrowN(bs, n + m)
  {
    if m > 0 {
      GrowNAdd(bs, n, m - 1);
    }
  }

  /** The bytes at the end of the heap that are free, header included. */
  function TailFree(bs: seq<Block>): int
    requires |bs| > 0
  {
    var last := bs[|bs| - 1];
    if last.free then last.size + HEADER else 0
  }

  /** Every page of growth goes to the free tail. */
  lemma {:induction false} GrowNKeeps(bs: seq<Block>, start: int, end: int, n: nat)
    requires Tiled(bs, start, end) && NoFreePair(bs)
    ensures Tiled(GrowN(bs, n), start, end + n * PAGE_SIZE) && NoFreePair(GrowN(bs, n))
    ensures Live(GrowN(bs, n)) == Live(bs) && UsedBytes(GrowN(bs, n)) == UsedBytes(bs)
    ensures TailFree(GrowN(bs, n)) == TailFree(bs) + n * PAGE_SIZE
  {
    if n > 0 {
      GrowNKeeps(bs, start, end, n - 1);
      GrowKeeps(GrowN(bs, n - 1), start, end + (n - 1) * PAGE_SIZE);
    }
  }

  // The heap in memory

  /** One cell of heap memory: a payload byte, or the header that starts at that address. */
  datatype Cell = Byte(value: u8) | Header(size: int, free: bool, next: int, prev: int)

  type Cells = map<int, Cell>

  function NextAddr(bs: seq<Block>, i: int): int
    requires 0 <= i < |bs|
  {
    if i + 1 < |bs| then bs[i + 1].addr else 0
  }

  function PrevAddr(bs: seq<Block>, i: int): int
    requires 0 <= i < |bs|
  {
    if i > 0 then bs[i - 1].addr else 0
  }

  function HeaderOf(bs: seq<Block>, i: int): Cell
    requires 0 <= i < |bs|
  {
    Header(bs[i].size, bs[i].free, NextAddr(bs, i), PrevAddr(bs, i))
  }

  /** The headers in memory form a doubly linked list of exactly these blocks. */
  ghost predicate Chained(m: Cells, bs: seq<Block>) {
    forall i {:trigger HeaderOf(bs, i)} :: 0 <= i < |bs| ==> CellAt(m, bs[i].addr) == Some(HeaderOf(bs, i))
  }

  function CellAt(m: Cells, a: int): Option<Cell> {
    if a in m then Some(m[a]) else None
  }

  /** The payload bytes of the given blocks are the same in both memories. */
  ghost predicate SamePayloads(m: Cells, m': Cells, blocks: set<Block>) {
    forall b, a :: b in blocks && Payload(b) <= a < EndOf(b) ==> CellAt(m', a) == CellAt(m, a)
  }

  /** No byte of a header lies inside a payload. */
  lemma HeaderOutside(bs: seq<Block>, start: int, end: int, i: int, b: Block)
    requires Tiled(bs, start, end) && 0 <= i < |bs| && b in bs
    ensures EndOf(b) <= bs[i].addr || bs[i].addr + HEADER <= Payload(b)
  {
    AllOrdered(bs, start, end);
  }

  /** The two memories differ at most at the addresses in `w`. */
  ghost predicate Agrees(m: Cells, m': Cells, w: set<int>) {
    forall a :: a !in w ==> CellAt(m', a) == CellAt(m, a)
  }

  /** Writing headers of the list leaves every payload alone. */
  lemma HeadersOnly(m: Cells, m': Cells, w: set<int>, bs: seq<Block>, start: int, end: int, blocks: set<Block>)
    requires Agrees(m, m', w) && Tiled(bs, start, end) && forall b :: b in blocks ==> b in bs
    requires forall a :: a in w ==> exists i :: 0 <= i < |bs| && bs[i].addr == a
    ensures SamePayloads(m, m', blocks)
  {
    forall b, a | b in blocks && Payload(b) <= a < EndOf(b)
      ensures CellAt(m', a) == CellAt(m, a)
    {
      if a in w {
        var i :| 0 <= i < |bs| && bs[i].addr == a;
        HeaderOutside(bs, start, end, i, b);
      }
    }
  }

  /** Headers away from a splice stay the same. */
  lemma FarHeader(bs: seq<Block>, k: int, n: int, mid: seq<Block>, i: int)
    requires 0 <= k && 0 < n && k + n <= |bs| && |mid| > 0 && mid[0].addr == bs[k].addr
    requires 0 <= i < k || k + |mid| < i < |bs| - n + |mid|
    ensures var r, j := Splice(bs, k, n, mid), if i < k then i else i - |mid| + n;
            0 <= j < |bs| && (j < k || k + n < j) && r[i] == bs[j] && HeaderOf(r, i) == HeaderOf(bs, j)
  {
    var r := Splice(bs, k, n, mid);
    hide Splice;
    if i < k {
      assert r[i] == bs[i] && r[i + 1].addr == bs[i + 1].addr;
      assert i > 0 ==> r[i - 1] == bs[i - 1];
    } else {
      var j := i - |mid| + n;
      assert r[i] == bs[j] && r[i - 1] == bs[j - 1];
      assert i + 1 < |r| ==> r[i + 1] == bs[j + 1];
    }
  }

  /** Relinking a splice: write the headers of the new blocks and of the block after them. */
  lemma SpliceChained(m: Cells, m': Cells, w: set<int>, bs: seq<Block>, k: int, n: int, mid: seq<Block>)
    requires Chained(m, bs) && 0 <= k && 0 < n && k + n <= |bs| && |mid| > 0 && mid[0].addr == bs[k].addr
    requires Agrees(m, m', w)
    requires forall i :: 0 <= i < k || k + n < i < |bs| ==> bs[i].addr !in w
    requires forall j :: 0 <= j < |mid| ==>
               CellAt(m', mid[j].addr) == Some(HeaderOf(Splice(bs, k, n, mid), k + j))
    requires k + n < |bs| ==>
               CellAt(m', bs[k + n].addr) == Some(HeaderOf(Splice(bs, k, n, mid), k + |mid|))
    ensures Chained(m', Splice(bs, k, n, mid))
  {
    var r := Splice(bs, k, n, mid);
    hide Splice, HeaderOf, CellAt;
    forall i | 0 <= i < |r|
      ensures CellAt(m', r[i].addr) == Some(HeaderOf(r, i))
    {
      if i < k || k + |mid| < i {
        FarCell(m, m', w, bs, k, n, mid, i);
      } else if i < k + |mid| {
        assert r[i] == mid[i - k];
        assert CellAt(m', mid[i - k].addr) == Some(HeaderOf(r, k + (i - k)));
      } else {
        assert r[i] == bs[k + n];
      }
    }
  }

  /** Blocks away from a splice keep their headers. */
  lemma FarCell(m: Cells, m': Cells, w: set<int>, bs: seq<Block>, k: int, n: int, mid: seq<Block>, i: int)
    requires Chained(m, bs) && 0 <= k && 0 < n && k + n <= |bs| && |mid| > 0 && mid[0].addr == bs[k].addr
    requires Agrees(m, m', w)
    requires forall i :: 0 <= i < k || k + n < i < |bs| ==> bs[i].addr !in w
    requires 0 <= i < k || k + |mid| < i < |Splice(bs, k, n, mid)|
    ensures CellAt(m', Splice(bs, k, n, mid)[i].addr) == Some(HeaderOf(Splice(bs, k, n, mid), i))
  {
    hide HeaderOf;
    var j := if i < k then i else i - |mid| + n;
    FarHeader(bs, k, n, mid, i);
    assert CellAt(m', bs[j].addr) == CellAt(m, bs[j].addr);
  }

  /** The addresses whose headers change when block `k` is cut. */
  ghost function CutWrites(bs: seq<Block>, k: int, want: int): set<int>
    requires 0 <= k < |bs|
  {
    if bs[k].size <= want + HEADER + 8 then {bs[k].addr}
    else {bs[k].addr, bs[k].addr + HEADER + want} + if k + 1 < |bs| then {bs[k + 1].addr} else {}
  }

  /** Where the other blocks lie relative to block `k`. */
  lemma Around(bs: seq<Block>, start: int, end: int, k: int)
    requires Tiled(bs, start, end) && 0 <= k < |bs|
    ensures forall i :: 0 <= i < k ==> EndOf(bs[i]) <= bs[k].addr
    ensures forall i :: k < i < |bs| ==> EndOf(bs[k]) <= bs[i].addr
    ensures forall i :: 0 <= i < |bs| ==> bs[i].size >= 8 && start <= bs[i].addr
  {
    AllOrdered(bs, start, end);
  }

  /** The header of block `k` and those of its neighbours, as the list in memory shows them. */
  lemma ReadHeader(m: Cells, bs: seq<Block>, start: int, end: int, k: int)
    requires Tiled(bs, start, end) && Chained(m, bs) && 0 <= k < |bs|
    ensures CellAt(m, bs[k].addr) == Some(HeaderOf(bs, k)) && start <= bs[k].addr
    ensures k + 1 < |bs| ==> CellAt(m, bs[k + 1].addr) == Some(HeaderOf(bs, k + 1)) && start <= bs[k + 1].addr
    ensures k > 0 ==> CellAt(m, bs[k - 1].addr) == Some(HeaderOf(bs, k - 1)) && start <= bs[k - 1].addr
  {
    Around(bs, start, end, k);
  }

  lemma TakeWholeChained(m: Cells, m': Cells, bs: seq<Block>, start: int, end: int, k: int, want: int)
    requires Tiled(bs, start, end) && Chained(m, bs) && 0 <= k < |bs| && bs[k].size <= want + HEADER + 8
    requires Agrees(m, m', {bs[k].addr})
    requires CellAt(m', bs[k].addr) == Some(HeaderOf(bs, k).(free := false))
    ensures Chained(m', Take(bs, k, want))
  {
    Around(bs, start, end, k);
    ReadHeader(m, bs, start, end, k);
    var mid, r := Cut(bs[k], want), Take(bs, k, want);
    hide Tiled, Chained, Splice, Agrees;
    assert HeaderOf(r, k) == HeaderOf(bs, k).(free := false);
    if k + 1 < |bs| {
      assert HeaderOf(r, k + 1) == HeaderOf(bs, k + 1);
      AgreesAt(m, m', {bs[k].addr}, bs[k + 1].addr);
    }
    SpliceChained(m, m', {bs[k].addr}, bs, k, 1, mid);
  }

  lemma AgreesAt(m: Cells, m': Cells, w: set<int>, a: int)
    requires Agrees(m, m', w) && a !in w
    ensures CellAt(m', a) == CellAt(m, a)
  {
  }

  lemma CutApart(bs: seq<Block>, start: int, end: int, k: int, want: int)
    requires Tiled(bs, start, end) && 0 <= k < |bs| && bs[k].size > want + HEADER + 8 && Request(want)
    ensures forall i :: 0 <= i < k || k + 1 < i < |bs| ==> bs[i].addr !in CutWrites(bs, k, want)
  {
    Around(bs, start, end, k);
    if k + 1 < |bs| {
      Around(bs, start, end, k + 1);
    }
  }

  lemma CutHeaders(bs: seq<Block>, k: int, want: int)
    requires 0 <= k < |bs| && bs[k].size > want + HEADER + 8
    ensures var r, extra := Take(bs, k, want), bs[k].addr + HEADER + want;
            && |r| == |bs| + 1
            && HeaderOf(r, k) == Header(want, false, extra, PrevAddr(bs, k))
            && HeaderOf(r, k + 1) == Header(bs[k].size - want - HEADER, true, NextAddr(bs, k), bs[k].addr)
            && (k + 1 < |bs| ==> HeaderOf(r, k + 2) == HeaderOf(bs, k + 1).(prev := extra))
  {
    var mid, r := Cut(bs[k], want), Take(bs, k, want);
    assert r[k] == mid[0] && r[k + 1] == mid[1];
    assert k + 1 < |bs| ==> r[k + 2] == bs[k + 1];
    assert k + 2 < |bs| ==> r[k + 3] == bs[k + 2];
    assert k > 0 ==> r[k - 1] == bs[k - 1];
  }

  lemma TakeSplitChained(m: Cells, m': Cells, bs: seq<Block>, start: int, end: int, k: int, want: int)
    requires Tiled(bs, start, end) && Chained(m, bs) && 0 <= k < |bs| && bs[k].size > want + HEADER + 8
    requires Request(want) && Agrees(m, m', CutWrites(bs, k, want))
    requires var extra := bs[k].addr + HEADER + want;
             && CellAt(m', bs[k].addr) == Some(Header(want, false, extra, PrevAddr(bs, k)))
             && CellAt(m', extra) == Some(Header(bs[k].size - want - HEADER, true, NextAddr(bs, k), bs[k].addr))
             && (k + 1 < |bs| ==> CellAt(m', bs[k + 1].addr) == Some(HeaderOf(bs, k + 1).(prev := extra)))
    ensures Chained(m', Take(bs, k, want))
  {
    CutApart(bs, start, end, k, want);
    CutHeaders(bs, k, want);
    hide Tiled, Chained, Agrees, HeaderOf, CutWrites;
    SpliceChained(m, m', CutWrites(bs, k, want), bs, k, 1, Cut(bs[k], want));
  }

  lemma TakePayloads(m: Cells, m': Cells, bs: seq<Block>, start: int, end: int, k: int, want: int)
    requires Tiled(bs, start, end) && NoFreePair(bs)
    requires 0 <= k < |bs| && Fits(bs[k], want) && Request(want)
    requires Agrees(m, m', CutWrites(bs, k, want))
    ensures SamePayloads(m, m', Live(bs))
  {
    var mid, r, w := Cut(bs[k], want), Take(bs, k, want), CutWrites(bs, k, want);
    TakeTiled(bs, start, end, k, want);
    TakeLive(bs, start, end, k, want);
    forall b | b in Live(bs)
      ensures b in r
    {
      assert b in Live(r);
    }
    forall a | a in w
      ensures exists i :: 0 <= i < |r| && r[i].addr == a
    {
      if a == bs[k].addr {
        assert r[k] == mid[0];
      } else if a == bs[k].addr + HEADER + want {
        assert r[k + 1] == mid[1];
      } else {
        assert r[k + 2] == bs[k + 1];
      }
    }
    HeadersOnly(m, m', w, r, start, end, Live(bs));
  }

  /** What must be known about block `k` before it is cut. */
  lemma TakeSummary(m: Cells, bs: seq<Block>, start: int, end: int, k: int, want: int)
    requires Tiled(bs, start, end) && NoFreePair(bs) && Chained(m, bs)
    requires 0 <= k < |bs| && Fits(bs[k], want) && Request(want)
    ensures Tiled(Take(bs, k, want), start, end) && NoFreePair(Take(bs, k, want))
    ensures UsedBytes(bs) + Cut(bs[k], want)[0].size == UsedBytes(Take(bs, k, want))
    ensures CellAt(m, bs[k].addr) == Some(HeaderOf(bs, k))
    ensures k + 1 < |bs| ==>
              bs[k + 1].addr == EndOf(bs[k]) && CellAt(m, bs[k + 1].addr) == Some(HeaderOf(bs, k + 1))
    ensures start <= bs[k].addr
  {
    TakeTiled(bs, start, end, k, want);
    TakeUsed(bs, start, end, k, want);
    assert Take(bs, k, want)[k] == Cut(bs[k], want)[0];
    Around(bs, start, end, k);
  }

  lemma TakeEffect(m: Cells, m': Cells, bs: seq<Block>, start: int, end: int, k: int, want: int)
    requires Tiled(bs, start, end) && NoFreePair(bs) && Chained(m, bs)
    requires 0 <= k < |bs| && Fits(bs[k], want) && Request(want)
    requires Agrees(m, m', CutWrites(bs, k, want))
    requires if bs[k].size <= want + HEADER + 8 then CellAt(m', bs[k].addr) == Some(HeaderOf(bs, k).(free := false))
             else
               var extra := bs[k].addr + HEADER + want;
               && CellAt(m', bs[k].addr) == Some(Header(want, false, extra, PrevAddr(bs, k)))
               && CellAt(m', extra) == Some(Header(bs[k].size - want - HEADER, true, NextAddr(bs, k), bs[k].addr))
               && (k + 1 < |bs| ==> CellAt(m', bs[k + 1].addr) == Some(HeaderOf(bs, k + 1).(prev := extra)))
    ensures Chained(m', Take(bs, k, want)) && SamePayloads(m, m', Live(bs))
  {
    TakePayloads(m, m', bs, start, end, k, want);
    if bs[k].size <= want + HEADER + 8 {
      TakeWholeChained(m, m', bs, start, end, k, want);
    } else {
      TakeSplitChained(m, m', bs, start, end, k, want);
    }
  }

  // Merging, one neighbour at a time

  /** Block `k` takes over block `k + 1`. */
  function Joined(bs: seq<Block>, k: int): (r: seq<Block>)
    requires 0 <= k < |bs| - 1
    ensures |r| == |bs| - 1
  {
    Splice(bs, k, 2, [Block(bs[k].addr, bs[k].size + HEADER + bs[k + 1].size, bs[k].free)])
  }

  function WithNext(bs: seq<Block>, k: int): (r: seq<Block>)
    requires 0 <= k < |bs|
    ensures k < |r| && r[..k] == bs[..k]
  {
    if k + 1 < |bs| && bs[k + 1].free then Joined(bs, k) else bs
  }

  lemma WithNextAddr(bs: seq<Block>, k: int)
    requires 0 <= k < |bs|
    ensures WithNext(bs, k)[k].addr == bs[k].addr
  {
  }

  function WithPrev(bs: seq<Block>, k: int): (r: seq<Block>)
    requires 0 <= k < |bs|
  {
    if k > 0 && bs[k - 1].free then Joined(bs, k - 1) else bs
  }

  function Freed(bs: seq<Block>, k: int): (r: seq<Block>)
    requires 0 <= k < |bs|
    ensures |r| == |bs|
  {
    Splice(bs, k, 1, [bs[k].(free := true)])
  }

  lemma NextStep(bs: seq<Block>, k: int)
    requires 0 <= k < |bs| && (k + 1 < |bs| ==> bs[k + 1].addr == EndOf(bs[k]))
    ensures var hi := Hi(bs, k); WithNext(Freed(bs, k), k) == Splice(bs, k, hi - k + 1, [Merged(bs, k, hi)])
  {
    var f := Freed(bs, k);
    assert f[k] == bs[k].(free := true);
    assert f[..k] == bs[..k] && f[k + 1..] == bs[k + 1..];
    assert k + 1 < |bs| ==> f[k + 1] == bs[k + 1] && f[k + 2..] == bs[k + 2..];
  }

  lemma PrevStep(bs: seq<Block>, k: int, hi: int)
    requires 0 < k <= hi < |bs| && bs[k - 1].free && bs[k].addr == EndOf(bs[k - 1])
    ensures Joined(Splice(bs, k, hi - k + 1, [Merged(bs, k, hi)]), k - 1) ==
            Splice(bs, k - 1, hi - k + 2, [Merged(bs, k - 1, hi)])
  {
    var f := Splice(bs, k, hi - k + 1, [Merged(bs, k, hi)]);
    assert f[..k - 1] == bs[..k - 1] && f[k + 1..] == bs[hi + 1..];
    assert f[k - 1] == bs[k - 1] && f[k] == Merged(bs, k, hi);
  }

  lemma Neighbours(bs: seq<Block>, start: int, end: int, k: int)
    requires Tiled(bs, start, end) && 0 <= k < |bs|
    ensures k + 1 < |bs| ==> bs[k + 1].addr == EndOf(bs[k])
    ensures 0 < k ==> bs[k].addr == EndOf(bs[k - 1])
  {
    if 0 < k {
      assert bs[k - 1 + 1].addr == EndOf(bs[k - 1]);
    }
  }

  lemma PrevPart(bs: seq<Block>, k: int, hi: int)
    requires 0 <= k <= hi < |bs| && (0 < k ==> bs[k].addr == EndOf(bs[k - 1]))
    ensures var lo := Lo(bs, k);
            WithPrev(Splice(bs, k, hi - k + 1, [Merged(bs, k, hi)]), k)
            == Splice(bs, lo, hi - lo + 1, [Merged(bs, lo, hi)])
  {
    hide Joined, Merged;
    var f := Splice(bs, k, hi - k + 1, [Merged(bs, k, hi)]);
    assert 0 < k ==> f[k - 1] == bs[k - 1];
    if 0 < k && bs[k - 1].free {
      PrevStep(bs, k, hi);
    }
  }

  /** Freeing block `k`, then merging it with the next and with the previous block, is `Release`. */
  lemma ReleaseSteps(bs: seq<Block>, start: int, end: int, k: int)
    requires Tiled(bs, start, end) && 0 <= k < |bs|
    ensures WithPrev(WithNext(Freed(bs, k), k), k) == Release(bs, k)
  {
    hide Tiled, WithNext, WithPrev, Freed, Splice, Merged, EndOf;
    Neighbours(bs, start, end, k);
    NextStep(bs, k);
    PrevPart(bs, k, Hi(bs, k));
  }

  lemma JoinedTiled(bs: seq<Block>, start: int, end: int, k: int)
    requires Tiled(bs, start, end) && 0 <= k < |bs| - 1
    ensures Tiled(Joined(bs, k), start, end)
  {
    assert bs[k + 1].addr == EndOf(bs[k]);
    var b := Block(bs[k].addr, bs[k].size + HEADER + bs[k + 1].size, bs[k].free);
    assert Tiled([b], bs[k].addr, EndOf(bs[k + 2 - 1]));
    SpliceTiled(bs, start, end, k, 2, [b]);
  }

  ghost function Addrs(bs: seq<Block>): set<int> {
    set i | 0 <= i < |bs| :: bs[i].addr
  }

  ghost function JoinWrites(bs: seq<Block>, k: int): set<int>
    requires 0 <= k < |bs| - 1
  {
    if k + 2 < |bs| then {bs[k].addr, bs[k + 2].addr} else {bs[k].addr}
  }

  lemma JoinApart(bs: seq<Block>, start: int, end: int, k: int)
    requires Tiled(bs, start, end) && 0 <= k < |bs| - 1
    ensures forall i :: 0 <= i < k || k + 2 < i < |bs| ==> bs[i].addr !in JoinWrites(bs, k)
    ensures JoinWrites(bs, k) <= Addrs(bs)
  {
    Around(bs, start, end, k);
    if k + 2 < |bs| {
      Around(bs, start, end, k + 2);
    }
  }

  lemma JoinHeaders(bs: seq<Block>, k: int)
    requires 0 <= k < |bs| - 1
    ensures var r := Joined(bs, k);
            && HeaderOf(r, k)
               == Header(bs[k].size + HEADER + bs[k + 1].size, bs[k].free, NextAddr(bs, k + 1), PrevAddr(bs, k))
            && (k + 2 < |bs| ==> HeaderOf(r, k + 1) == HeaderOf(bs, k + 2).(prev := bs[k].addr))
  {
    var r := Joined(bs, k);
    assert k + 2 < |bs| ==> r[k + 1] == bs[k + 2];
    assert k + 3 < |bs| ==> r[k + 2] == bs[k + 3];
    assert k > 0 ==> r[k - 1] == bs[k - 1];
  }

  lemma JoinedChained(m: Cells, m': Cells, bs: seq<Block>, start: int, end: int, k: int)
    requires Tiled(bs, start, end) && Chained(m, bs) && 0 <= k < |bs| - 1
    requires Agrees(m, m', JoinWrites(bs, k))
    requires CellAt(m', bs[k].addr) ==
             Some(Header(bs[k].size + HEADER + bs[k + 1].size, bs[k].free, NextAddr(bs, k + 1), PrevAddr(bs, k)))
    requires k + 2 < |bs| ==> CellAt(m', bs[k + 2].addr) == Some(HeaderOf(bs, k + 2).(prev := bs[k].addr))
    ensures Chained(m', Joined(bs, k)) && Agrees(m, m', Addrs(bs))
  {
    var w := JoinWrites(bs, k);
    JoinApart(bs, start, end, k);
    JoinHeaders(bs, k);
    assert Agrees(m, m', Addrs(bs));
    hide Tiled, Chained, Agrees, HeaderOf, JoinWrites, Addrs;
    SpliceChained(m, m', w, bs, k, 2, [Block(bs[k].addr, bs[k].size + HEADER + bs[k + 1].size, bs[k].free)]);
  }

  lemma FreedTiled(bs: seq<Block>, start: int, end: int, k: int)
    requires Tiled(bs, start, end) && 0 <= k < |bs|
    ensures Tiled(Freed(bs, k), start, end) && Addrs(Freed(bs, k)) == Addrs(bs)
  {
    var b := bs[k].(free := true);
    assert Tiled([b], bs[k].addr, EndOf(bs[k + 1 - 1]));
    SpliceTiled(bs, start, end, k, 1, [b]);
    hide Tiled;
    var r := Freed(bs, k);
    forall i | 0 <= i < |bs|
      ensures r[i].addr == bs[i].addr
    {
    }
  }

  lemma FreedChained(m: Cells, bs: seq<Block>, start: int, end: int, k: int)
    requires Tiled(bs, start, end) && Chained(m, bs) && 0 <= k < |bs|
    ensures Chained(m[bs[k].addr := HeaderOf(bs, k).(free := true)], Freed(bs, k))
  {
    Around(bs, start, end, k);
    ReadHeader(m, bs, start, end, k);
    var m', r := m[bs[k].addr := HeaderOf(bs, k).(free := true)], Freed(bs, k);
    hide Tiled, Chained, Splice;
    assert HeaderOf(r, k) == HeaderOf(bs, k).(free := true);
    if k + 1 < |bs| {
      assert HeaderOf(r, k + 1) == HeaderOf(bs, k + 1);
    }
    SpliceChained(m, m', {bs[k].addr}, bs, k, 1, [bs[k].(free := true)]);
  }

  lemma AgreesTrans(m: Cells, m': Cells, m'': Cells, w: set<int>, w': set<int>)
    requires Agrees(m, m', w) && Agrees(m', m'', w') && w' <= w
    ensures Agrees(m, m'', w)
  {
  }

  lemma JoinedAddrs(bs: seq<Block>, k: int)
    requires 0 <= k < |bs| - 1
    ensures Addrs(Joined(bs, k)) <= Addrs(bs)
  {
    var r := Joined(bs, k);
    forall i | 0 <= i < |r|
      ensures r[i].addr in Addrs(bs)
    {
      var j := if i <= k then i else i + 1;
      assert r[i].addr == bs[j].addr;
    }
  }

  // Growth in memory

  lemma GrowFreeHeaders(bs: seq<Block>)
    requires |bs| > 0 && bs[|bs| - 1].free
    ensures var n, r, last := |bs|, Grow(bs), bs[|bs| - 1];
            && r == Splice(bs, n - 1, 1, [last.(size := last.size + PAGE_SIZE)])
            && HeaderOf(r, n - 1) == HeaderOf(bs, n - 1).(size := last.size + PAGE_SIZE)
  {
  }

  lemma GrowFreeChained(m: Cells, bs: seq<Block>, start: int, end: int)
    requires Tiled(bs, start, end) && Chained(m, bs) && bs[|bs| - 1].free
    ensures var last := bs[|bs| - 1];
            Chained(m[last.addr := HeaderOf(bs, |bs| - 1).(size := last.size + PAGE_SIZE)], Grow(bs))
  {
    var n := |bs|;
    var last := bs[n - 1];
    Around(bs, start, end, n - 1);
    GrowFreeHeaders(bs);
    hide Tiled, Chained, Splice, Grow, HeaderOf;
    var h := HeaderOf(bs, n - 1).(size := last.size + PAGE_SIZE);
    SpliceChained(m, m[last.addr := h], {last.addr}, bs, n - 1, 1, [last.(size := last.size + PAGE_SIZE)]);
  }

  lemma GrowUsedHeaders(bs: seq<Block>, start: int, end: int)
    requires Tiled(bs, start, end) && !bs[|bs| - 1].free
    ensures var n, r := |bs|, Grow(bs);
            && r == Splice(bs, n - 1, 1, [bs[n - 1], Block(end, PAGE_SIZE - HEADER, true)])
            && HeaderOf(r, n - 1) == HeaderOf(bs, n - 1).(next := end)
            && HeaderOf(r, n) == Header(PAGE_SIZE - HEADER, true, 0, bs[n - 1].addr)
  {
    assert EndOf(bs[|bs| - 1]) == end;
  }

  lemma GrowUsedChained(m: Cells, bs: seq<Block>, start: int, end: int)
    requires Tiled(bs, start, end) && Chained(m, bs) && !bs[|bs| - 1].free
    ensures var last := bs[|bs| - 1];
            Chained(m[end := Header(PAGE_SIZE - HEADER, true, 0, last.addr)]
                     [last.addr := HeaderOf(bs, |bs| - 1).(next := end)], Grow(bs))
  {
    var n := |bs|;
    var last := bs[n - 1];
    Around(bs, start, end, n - 1);
    assert EndOf(last) == end;
    GrowUsedHeaders(bs, start, end);
    var h, h' := HeaderOf(bs, n - 1).(next := end), Header(PAGE_SIZE - HEADER, true, 0, last.addr);
    hide Tiled, Chained, Splice, Grow, HeaderOf;
    SpliceChained(m, m[end := h'][last.addr := h], {last.addr, end}, bs, n - 1, 1,
        [last, Block(end, PAGE_SIZE - HEADER, true)]);
  }

  lemma GrowPayloads(m: Cells, m': Cells, bs: seq<Block>, start: int, end: int)
    requires Tiled(bs, start, end) && NoFreePair(bs)
    requires Agrees(m, m', if bs[|bs| - 1].free then {bs[|bs| - 1].addr} else {bs[|bs| - 1].addr, end})
    ensures SamePayloads(m, m', Live(bs))
  {
    GrowTiled(bs, start, end);
    GrowLive(bs);
    var r := Grow(bs);
    assert r[|bs| - 1].addr == bs[|bs| - 1].addr;
    assert !bs[|bs| - 1].free ==> r[|bs|].addr == end;
    forall b | b in Live(bs)
      ensures b in r
    {
      assert b in Live(r);
    }
    HeadersOnly(m, m', if bs[|bs| - 1].free then {bs[|bs| - 1].addr} else {bs[|bs| - 1].addr, end}, r, start,
                end + PAGE_SIZE, Live(bs));
  }

  /** What must be known before block `k` is given back; in particular the counter cannot underflow. */
  lemma ReleaseSummary(m: Cells, bs: seq<Block>, start: int, end: int, k: int)
    requires Tiled(bs, start, end) && NoFreePair(bs) && Chained(m, bs) && 0 <= k < |bs| && !bs[k].free
    ensures Tiled(Release(bs, k), start, end) && NoFreePair(Release(bs, k))
    ensures UsedBytes(Release(bs, k)) == UsedBytes(bs) - bs[k].size
    ensures WithPrev(WithNext(Freed(bs, k), k), k) == Release(bs, k)
    ensures Tiled(Freed(bs, k), start, end) && Freed(bs, k)[k].addr == bs[k].addr
    ensures Chained(m[bs[k].addr := HeaderOf(bs, k).(free := true)], Freed(bs, k))
  {
    ReleaseTiled(bs, start, end, k);
    ReleaseUsed(bs, start, end, k);
    ReleaseSteps(bs, start, end, k);
    FreedTiled(bs, start, end, k);
    FreedChained(m, bs, start, end, k);
  }

  lemma ReleasePayloads(m: Cells, m': Cells, m'': Cells, bs: seq<Block>, start: int, end: int, k: int)
    requires Tiled(bs, start, end) && 0 <= k < |bs| && !bs[k].free
    requires Agrees(m, m', {bs[k].addr}) && Agrees(m', m'', Addrs(Freed(bs, k)))
    ensures SamePayloads(m, m'', Live(Release(bs, k)))
  {
    FreedTiled(bs, start, end, k);
    ReleaseLive(bs, start, end, k);
    hide Tiled, Release, Freed;
    assert Agrees(m, m', Addrs(bs));
    AgreesTrans(m, m', m'', Addrs(bs), Addrs(bs));
    HeadersOnly(m, m'', Addrs(bs), bs, start, end, Live(Release(bs, k)));
  }

  lemma GrowSummary(m: Cells, bs: seq<Block>, start: int, end: int)
    requires Tiled(bs, start, end) && NoFreePair(bs) && Chained(m, bs)
    ensures Tiled(Grow(bs), start, end + PAGE_SIZE) && NoFreePair(Grow(bs))
    ensures UsedBytes(Grow(bs)) == UsedBytes(bs) && Live(Grow(bs)) == Live(bs)
    ensures var last := bs[|bs| - 1];
            var h := HeaderOf(bs, |bs| - 1);
            && CellAt(m, last.addr) == Some(h) && last.addr < end && EndOf(last) == end
            && if last.free then Chained(m[last.addr := h.(size := last.size + PAGE_SIZE)], Grow(bs))
               else Chained(m[end := Header(PAGE_SIZE - HEADER, true, 0, last.addr)][last.addr := h.(next := end)],
                   Grow(bs))
  {
    GrowKeeps(bs, start, end);
    ReadHeader(m, bs, start, end, |bs| - 1);
    if bs[|bs| - 1].free {
      GrowFreeChained(m, bs, start, end);
    } else {
      GrowUsedChained(m, bs, start, end);
    }
  }

  lemma AgreesPayloads(m: Cells, blocks: set<Block>)
    ensures SamePayloads(m, m, blocks)
  {
  }

  lemma PayloadsTrans(m: Cells, m': Cells, m'': Cells, blocks: set<Block>)
    requires SamePayloads(m, m', blocks) && SamePayloads(m', m'', blocks)
    ensures SamePayloads(m, m'', blocks)
  {
  }

  /** Blocks, and so payloads, start at multiples of 8. */
  lemma {:induction false} AddrAligned(bs: seq<Block>, start: int, end: int, k: int)
    requires Tiled(bs, start, end) && start % 8 == 0 && 0 <= k < |bs|
    ensures bs[k].addr % 8 == 0
  {
    if k > 0 {
      AddrAligned(bs, start, end, k - 1);
      assert bs[k - 1 + 1].addr == EndOf(bs[k - 1]);
      Join8(bs[k - 1].addr, bs[k - 1].size);
    }
  }

  lemma AllocSummary(bs: seq<Block>, start: int, end: int, k: int, want: int)
    requires Tiled(bs, start, end) && NoFreePair(bs) && start % 8 == 0
    requires 0 <= k < |bs| && Fits(bs[k], want) && Request(want)
    ensures |Take(bs, k, want)| > k
    ensures var b := Take(bs, k, want)[k];
            && b.addr == bs[k].addr >= start && !b.free && want <= b.size <= want + 24 && Payload(b) % 8 == 0
            && b in Take(bs, k, want) && b !in Live(bs) && Live(Take(bs, k, want)) == Live(bs) + {b}
  {
    TakeLive(bs, start, end, k, want);
    Around(bs, start, end, k);
    AddrAligned(bs, start, end, k);
    Join8(bs[k].addr, 0);
  }

  /** Payload pointers of live blocks lie inside the heap, after the first header. */
  lemma LivePointers(bs: seq<Block>, start: int, end: int)
    requires Tiled(bs, start, end)
    ensures forall b :: b in Live(bs) ==> start + HEADER <= Payload(b) < end
  {
    AllOrdered(bs, start, end);
  }

  lemma NotLive(bs: seq<Block>, start: int, end: int, k: int)
    requires Tiled(bs, start, end) && 0 <= k < |bs| && bs[k].free
    ensures forall b :: b in Live(bs) ==> Payload(b) != Payload(bs[k])
  {
    forall b | b in Live(bs)
      ensures Payload(b) != Payload(bs[k])
    {
      if Payload(b) == Payload(bs[k]) {
        FreeAddr(bs, start, end, k, b);
      }
    }
  }

  /** A payload write disturbs neither the list nor any other allocation. */
  lemma PokeKeeps(m: Cells, bs: seq<Block>, start: int, end: int, b: Block, a: int, c: Cell)
    requires Tiled(bs, start, end) && Chained(m, bs) && b in Live(bs) && Payload(b) <= a < EndOf(b)
    ensures Chained(m[a := c], bs) && SamePayloads(m, m[a := c], Live(bs) - {b})
  {
    forall i | 0 <= i < |bs|
      ensures bs[i].addr != a
    {
      HeaderOutside(bs, start, end, i, b);
    }
    forall x | x in Live(bs) - {b}
      ensures !(Payload(x) <= a < EndOf(x))
    {
      LiveDisjoint(bs, start, end, x, b);
    }
  }

  /** A payload address belongs to one live block. */
  lemma OnePayload(bs: seq<Block>, start: int, end: int, b: Block)
    requires Tiled(bs, start, end) && b in Live(bs)
    ensures forall c :: c in Live(bs) && Payload(c) == Payload(b) ==> c == b
  {
    AllOrdered(bs, start, end);
  }
}
