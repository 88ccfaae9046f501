/** When the heap can grow: what each further page costs, and which requests can be met. */
module GrowSpec {
  import opened Words
  import opened HeapSpec
  import opened PagingSpec

  /**
   Where the heap would grow: the present entries and the mapped pages of the active directory,
   the number of free frames, and the next page.
   */
  datatype Site = Site(open: set<int>, mapped: set<int>, free: nat, page: int)

  ghost function SiteOf(m: Mem, d: int, free: set<int>, end: int): Site {
    if IsTable(m, d) then Site(OpenEntries(m, d), View(m, d).Keys, |free|, end / PAGE_SIZE)
    else Site({}, {}, |free|, end / PAGE_SIZE)
  }

  ghost function OpenEntries(m: Mem, d: int): set<int>
    requires IsTable(m, d)
  {
    set i | 0 <= i < ENTRIES && Present(m[d][i])
  }

  /** A page costs a frame, and one more for its table where the directory has none. */
  ghost function Price(s: Site): int {
    if s.page / ENTRIES in s.open then 1 else 2
  }

  ghost predicate CanMap(s: Site) {
    s.page !in s.mapped && s.free >= Price(s)
  }

  ghost function Next(s: Site): Site
    requires CanMap(s)
  {
    Site(s.open + {s.page / ENTRIES}, s.mapped + {s.page}, s.free - Price(s), s.page + 1)
  }

  /** The next `k` pages can all be mapped. */
  ghost predicate Reach(s: Site, k: nat)
    decreases k
  {
    k > 0 ==> CanMap(s) && Reach(Next(s), k - 1)
  }

  ghost function After(s: Site, k: nat): Site
    requires Reach(s, k)
    decreases k
  {
    if k == 0 then s else After(Next(s), k - 1)
  }

  /** The free frames after growth was refused at `s`: the one already taken for the page is lost. */
  ghost function Left(s: Site): int {
    if s.free > 0 then s.free - 1 else 0
  }

  lemma {:induction false} ReachAdd(s: Site, k: nat, m: nat)
    requires Reach(s, k)
    ensures Reach(s, k + m) <==> Reach(After(s, k), m)
    ensures Reach(s, k + m) ==> After(s, k + m) == After(After(s, k), m)
    decreases k
  {
    if k > 0 {
      ReachAdd(Next(s), k - 1, m);
    }
  }

  /** What can be reached can be reached in part. */
  lemma {:induction false} ReachLess(s: Site, k: nat, m: nat)
    requires Reach(s, m) && k <= m
    ensures Reach(s, k)
    decreases k
  {
    if k > 0 {
      ReachLess(Next(s), k - 1, m - 1);
    }
  }

  /** With the table in place and the pages unmapped, each page costs one frame and nothing else is needed. */
  lemma {:induction false} ReachPlain(s: Site, k: nat, limit: int)
    requires 0 <= s.page && s.page + k <= limit
    requires forall p :: s.page <= p < limit ==> p !in s.mapped && p / ENTRIES in s.open
    ensures Reach(s, k) <==> k <= s.free
    ensures k <= s.free ==> After(s, k).free == s.free - k
    decreases k
  {
    if k > 0 && CanMap(s) {
      ReachPlain(Next(s), k - 1, limit);
    }
  }

  // One page

  /** Mapping the next page leads to the next site. */
  lemma SiteNext(m: Mem, d: int, free: set<int>, end: int, t: int, phys: int, flags: int, free': set<int>)
    requires IsTable(m, d) && 0 <= end < U32_LIMIT && end % PAGE_SIZE == 0 && t != d
    requires (LinkFlags(flags) || Present(flags)) && flags == KERNEL_FLAGS
    requires phys in free && end / PAGE_SIZE !in View(m, d) && t % PAGE_SIZE == 0
    requires var word := m[d][end / PAGE_SIZE / ENTRIES];
             if Present(word) then IsTable(m, t) && free' == free - {phys}
             else t in free - {phys} && free' == free - {phys} - {t}
    requires var m' := Mapped(m, d, end / PAGE_SIZE, t, phys, flags);
             IsTable(m', d) && View(m', d) == View(m, d)[end / PAGE_SIZE := phys + flags]
    ensures CanMap(SiteOf(m, d, free, end))
    ensures SiteOf(Mapped(m, d, end / PAGE_SIZE, t, phys, flags), d, free', end + PAGE_SIZE)
            == Next(SiteOf(m, d, free, end))
  {
    hide View;
    var i, m' := end / PAGE_SIZE / ENTRIES, Mapped(m, d, end / PAGE_SIZE, t, phys, flags);
    MappedRow(m, d, end / PAGE_SIZE, t, phys, flags);
    FlaggedWord(t, KERNEL_FLAGS);
    assert Present(m'[d][i]);
    assert OpenEntries(m', d) == OpenEntries(m, d) + {i};
    assert |free'| == |free| - if Present(m[d][i]) then 1 else 2;
  }

  /** When mapping fails one frame is gone, or there was none. */
  lemma SiteStuck(m: Mem, d: int, free: set<int>, end: int, free': set<int>)
    requires IsTable(m, d) && 0 <= end < U32_LIMIT
    requires free == {} || (exists f :: f in free && free' == free - {f})
    requires free == {} ==> free' == {}
    requires free != {} ==> end / PAGE_SIZE in View(m, d) || (!Present(m[d][end / PAGE_SIZE / ENTRIES]) && free' == {})
    ensures !CanMap(SiteOf(m, d, free, end)) && |free'| == Left(SiteOf(m, d, free, end))
  {
    hide View;
    if free != {} {
      var f :| f in free && free' == free - {f};
      assert |free'| == |free| - 1;
    }
  }

  // Requests

  ghost predicate HasFit(bs: seq<Block>, want: int) {
    exists i :: 0 <= i < |bs| && Fits(bs[i], want)
  }

  /** After `r` rounds of growth some block fits. */
  ghost predicate FitsAfter(bs: seq<Block>, r: nat, want: int)
    requires |bs| > 0
  {
    HasFit(GrowN(bs, r * GROW_PAGES), want)
  }

  /** The heap can meet the request: some number of whole rounds can be had, and then a block fits. */
  ghost predicate Obtainable(bs: seq<Block>, s: Site, want: int)
    requires |bs| > 0
  {
    exists r: nat :: FitsAfter(bs, r, want) && Reach(s, r * GROW_PAGES)
  }

  /** The same where every page costs one frame. */
  ghost predicate Affordable(bs: seq<Block>, free: int, want: int)
    requires |bs| > 0
  {
    exists r: nat :: FitsAfter(bs, r, want) && r * GROW_PAGES <= free
  }

  /** A free tail of the wanted size and a header fits. */
  lemma TailFits(bs: seq<Block>, want: int)
    requires |bs| > 0 && TailFree(bs) >= want + HEADER && want > 0
    ensures HasFit(bs, want)
  {
    assert Fits(bs[|bs| - 1], want);
  }

  /** Any request up to a round less a header: a block that fits now, or eight frames. */
  lemma SmallRequest(bs: seq<Block>, start: int, end: int, free: nat, want: int)
    requires |bs| > 0 && Tiled(bs, start, end) && NoFreePair(bs) && Small(want)
    ensures Affordable(bs, free, want) <==> CanHave(bs, free, want)
    ensures CanHave(bs, free, want) <==> HasFit(bs, want) || free >= 8
  {
    hide Tiled, NoFreePair, HasFit, GrowN;
    OneRound(bs, start, end, want);
    if HasFit(bs, want) {
      assert FitsAfter(bs, 0, want);
    }
    if Affordable(bs, free, want) {
      var r: nat :| FitsAfter(bs, r, want) && r * GROW_PAGES <= free;
      assert r == 0 || r * GROW_PAGES >= GROW_PAGES;
    }
  }

  lemma TailZero(bs: seq<Block>, start: int, end: int)
    requires Tiled(bs, start, end)
    ensures TailFree(bs) >= 0
  {
  }

  /**
   The leak: the heap ends at a table boundary, the next entry of the directory is absent, and one
   frame is free. The page's frame is taken, no frame is left for the table, and it is lost.
   */
  lemma LeakExample(mapped: set<int>)
    requires 0xD0400 !in mapped
    ensures var s := Site({0, 832}, mapped, 1, 0xD0400);
            !CanMap(s) && s.page !in s.mapped && Left(s) == 0 < s.free
  {
  }

  // Rounds of growth

  lemma ReachStep(s: Site, n: nat, pages: nat)
    requires Reach(s, n) && n < pages
    ensures Reach(s, n + 1) <==> CanMap(After(s, n))
    ensures Reach(s, n + 1) ==> After(s, n + 1) == Next(After(s, n))
    ensures !CanMap(After(s, n)) ==> !Reach(s, pages)
  {
    ReachAdd(s, n, 1);
    ReachAdd(s, n, pages - n);
  }

  /**
   How a search for `want` bytes ended: after the first round at which a block fits, with the frames of
   that many pages gone; or at a page that could not be had, after rounds in which nothing fitted.
   */
  ghost predicate Grown(bs: seq<Block>, s: Site, want: int, n: nat, found: bool, free: int)
    requires |bs| > 0
  {
    && Reach(s, n) && (forall j: nat :: j * GROW_PAGES < n ==> !FitsAfter(bs, j, want))
    && (if found then n % GROW_PAGES == 0 && HasFit(GrowN(bs, n), want) && free == After(s, n).free
        else !CanMap(After(s, n)) && !FitsAfter(bs, n / GROW_PAGES, want) && free == Left(After(s, n)))
  }

  /** Nothing fitted before any of the first `r` rounds. */
  ghost predicate NoneYet(bs: seq<Block>, want: int, r: nat)
    requires |bs| > 0
  {
    forall j :: 0 <= j < r ==> !FitsAfter(bs, j, want)
  }

  lemma RoundSearched(bs: seq<Block>, s: Site, r: nat, n: nat, want: int, found: bool, k: int, free: int)
    requires |bs| > 0 && n == r * GROW_PAGES && Reach(s, n) && free == After(s, n).free && NoneYet(bs, want, r)
    requires var grown := GrowN(bs, n);
             if found then 0 <= k < |grown| && Fits(grown[k], want) else NoFit(grown, |grown|, want)
    ensures if found then Obtainable(bs, s, want) && Grown(bs, s, want, n, true, free) else NoneYet(bs, want, r + 1)
  {
    hide GrowN, Reach, After;
    if found {
      assert FitsAfter(bs, r, want);
      forall j: nat | j * GROW_PAGES < n
        ensures !FitsAfter(bs, j, want)
      {
        assert j < r;
      }
    } else {
      assert !HasFit(GrowN(bs, r * GROW_PAGES), want);
    }
  }

  lemma RoundRefused(bs: seq<Block>, s: Site, r: nat, m: nat, want: int, free: int)
    requires |bs| > 0 && m < GROW_PAGES && Reach(s, r * GROW_PAGES + m)
    requires !CanMap(After(s, r * GROW_PAGES + m)) && free == Left(After(s, r * GROW_PAGES + m))
    requires NoneYet(bs, want, r + 1)
    ensures !Obtainable(bs, s, want) && Grown(bs, s, want, r * GROW_PAGES + m, false, free)
  {
    hide GrowN, HasFit, After, Left;
    var n := r * GROW_PAGES + m;
    if Obtainable(bs, s, want) {
      var q: nat :| FitsAfter(bs, q, want) && Reach(s, q * GROW_PAGES);
      ReachLess(s, n + 1, q * GROW_PAGES);
      ReachStep(s, n, n + 1);
    }
    assert n / GROW_PAGES == r;
    forall j: nat | j * GROW_PAGES < n
      ensures !FitsAfter(bs, j, want)
    {
      assert j <= r;
    }
  }

  /** A round of `m` pages after `r` whole ones: the next round begins, or the search has failed. */
  lemma RoundMapped(bs: seq<Block>, s: Site, r: nat, n: nat, m: nat, want: int, ok: bool, free: int)
    requires |bs| > 0 && n == r * GROW_PAGES && Reach(s, n) && NoneYet(bs, want, r + 1)
    requires m <= GROW_PAGES && (ok <==> m == GROW_PAGES) && Reach(After(s, n), m)
    requires var t := After(After(s, n), m); !ok ==> !CanMap(t) && free == Left(t)
    ensures Reach(s, n + m) && After(s, n + m) == After(After(s, n), m)
    ensures GrowN(bs, n + m) == GrowN(GrowN(bs, n), m) && (ok ==> n + m == (r + 1) * GROW_PAGES)
    ensures !ok ==> !Obtainable(bs, s, want) && Grown(bs, s, want, n + m, false, free)
  {
    hide GrowN, Reach, After, NoneYet, CanMap, Left, Obtainable, Grown;
    ReachAdd(s, n, m);
    GrowNAdd(bs, n, m);
    if !ok {
      RoundRefused(bs, s, r, m, want, free);
    }
  }

  /**
   Where every page up to `limit` costs one frame: the search succeeds exactly when it is affordable, uses
   one frame a page, and fails only with no frame left.
   */
  lemma PlainSearch(bs: seq<Block>, s: Site, want: int, n: nat, found: bool, free: int, limit: int)
    requires |bs| > 0 && Grown(bs, s, want, n, found, free) && 0 <= s.page
    requires forall p :: s.page <= p < limit ==> p !in s.mapped && p / ENTRIES in s.open
    requires s.page + n < limit || (s.page + n == limit && n >= s.free)
    ensures free == s.free - n && (!found ==> free == 0)
    ensures found <==> Affordable(bs, s.free, want)
  {
    hide GrowN, HasFit, CanMap;
    ReachPlain(s, n, limit);
    if found {
      assert n == n / GROW_PAGES * GROW_PAGES;
      assert FitsAfter(bs, n / GROW_PAGES, want);
    } else {
      ReachStep(s, n, n + 1);
      if s.page + n < limit {
        ReachPlain(s, n + 1, limit);
      }
      assert n == s.free;
    }
  }

  /** Every page costs at least a frame. */
  lemma {:induction false} ReachCost(s: Site, k: nat)
    requires Reach(s, k)
    ensures k <= s.free
    decreases k
  {
    if k > 0 {
      ReachCost(Next(s), k - 1);
    }
  }

  /** If some round of growth makes a block fit, the first such round is at most one beyond the request. */
  lemma {:induction false} FirstRound(bs: seq<Block>, start: int, end: int, r: nat, want: int) returns (q: nat)
    requires |bs| > 0 && Tiled(bs, start, end) && NoFreePair(bs) && want > 0 && FitsAfter(bs, r, want)
    ensures q <= r && FitsAfter(bs, q, want)
    ensures q * GROW_PAGES * PAGE_SIZE < want + HEADER + GROW_PAGES * PAGE_SIZE
  {
    hide Tiled, NoFreePair, GrowN, UsedBytes, Live;
    q := r;
    if r > 0 {
      if FitsAfter(bs, r - 1, want) {
        q := FirstRound(bs, start, end, r - 1, want);
      } else {
        var n := (r - 1) * GROW_PAGES;
        GrowNKeeps(bs, start, end, n);
        TailZero(bs, start, end);
        if TailFree(GrowN(bs, n)) >= want + HEADER {
          TailFits(GrowN(bs, n), want);
        }
      }
    }
  }

  /** Frames for the request, a header and a round are always enough. */
  lemma EnoughFrames(bs: seq<Block>, start: int, end: int, free: nat, want: int)
    requires |bs| > 0 && Tiled(bs, start, end) && NoFreePair(bs) && want > 0
    requires free * PAGE_SIZE >= want + HEADER + GROW_PAGES * PAGE_SIZE
    ensures Affordable(bs, free, want)
  {
    hide Tiled, NoFreePair, UsedBytes, Live, GrowN;
    var round := GROW_PAGES * PAGE_SIZE;
    var r: nat := (want + HEADER + round - 1) / round;
    assert r * round >= want + HEADER && r * round < want + HEADER + round;
    GrowNKeeps(bs, start, end, r * GROW_PAGES);
    TailZero(bs, start, end);
    TailFits(GrowN(bs, r * GROW_PAGES), want);
    assert FitsAfter(bs, r, want);
  }

  /** Where every page up to the limit costs one frame, what can be obtained is what can be afforded. */
  lemma PlainObtainable(bs: seq<Block>, start: int, end: int, s: Site, want: int, limit: int)
    requires |bs| > 0 && Tiled(bs, start, end) && NoFreePair(bs) && want > 0 && 0 <= s.page
    requires forall p :: s.page <= p < limit ==> p !in s.mapped && p / ENTRIES in s.open
    requires s.page * PAGE_SIZE + want + HEADER + GROW_PAGES * PAGE_SIZE <= limit * PAGE_SIZE
    ensures Obtainable(bs, s, want) <==> Affordable(bs, s.free, want)
  {
    hide Tiled, NoFreePair, FitsAfter, CanMap;
    if Obtainable(bs, s, want) {
      var r: nat :| FitsAfter(bs, r, want) && Reach(s, r * GROW_PAGES);
      ReachCost(s, r * GROW_PAGES);
    }
    if Affordable(bs, s.free, want) {
      var r: nat :| FitsAfter(bs, r, want) && r * GROW_PAGES <= s.free;
      var q := FirstRound(bs, start, end, r, want);
      ReachPlain(s, q * GROW_PAGES, limit);
    }
  }

  /** How an allocation went where every page costs one frame: `n` pages of growth, and whether a block was found. */
  ghost predicate Searched(bs: seq<Block>, free: int, want: int, n: nat, found: bool)
    requires |bs| > 0
  {
    && (found <==> Affordable(bs, free, want)) && n <= free && (!found ==> n == free)
    && (found ==> n % GROW_PAGES == 0 && HasFit(GrowN(bs, n), want))
    && (forall j: nat :: j * GROW_PAGES < n ==> !FitsAfter(bs, j, want))
  }

  lemma PlainSearched(bs: seq<Block>, s: Site, want: int, n: nat, found: bool, free: int, limit: int)
    requires |bs| > 0 && Grown(bs, s, want, n, found, free) && 0 <= s.page && s.page + n < limit
    requires forall p :: s.page <= p < limit ==> p !in s.mapped && p / ENTRIES in s.open
    ensures Searched(bs, s.free, want, n, found) && free == s.free - n
  {
    hide Affordable, FitsAfter, HasFit, CanMap, Left;
    PlainSearch(bs, s, want, n, found, free, limit);
  }

  ghost predicate Small(want: int) { 0 < want && want + HEADER <= GROW_PAGES * PAGE_SIZE }

  /** A small request can be met with what is there or with one round of growth. */
  ghost predicate CanHave(bs: seq<Block>, free: int, want: int) {
    HasFit(bs, want) || free >= GROW_PAGES
  }

  /** The pages by which a small request makes the heap grow; in vain when there are fewer frames than a round takes. */
  ghost function PagesFor(bs: seq<Block>, free: nat, want: int): nat {
    if HasFit(bs, want) then 0 else if free >= GROW_PAGES then GROW_PAGES else free
  }

  lemma SmallSearch(bs: seq<Block>, start: int, end: int, free: nat, want: int, n: nat, found: bool)
    requires |bs| > 0 && Tiled(bs, start, end) && NoFreePair(bs) && Small(want) && Searched(bs, free, want, n, found)
    ensures n == PagesFor(bs, free, want) && (found <==> CanHave(bs, free, want))
  {
    hide Tiled, NoFreePair, HasFit, GrowN, Affordable;
    SmallRequest(bs, start, end, free, want);
    OneRound(bs, start, end, want);
    if found && n > 0 {
      assert !FitsAfter(bs, 0, want);
      assert n >= GROW_PAGES && !(1 * GROW_PAGES < n);
    }
  }

  lemma OneRound(bs: seq<Block>, start: int, end: int, want: int)
    requires Tiled(bs, start, end) && NoFreePair(bs) && Small(want)
    ensures FitsAfter(bs, 1, want) && (FitsAfter(bs, 0, want) <==> HasFit(bs, want))
  {
    hide NoFreePair, UsedBytes;
    GrowNKeeps(bs, start, end, GROW_PAGES);
    TailZero(bs, start, end);
    hide Tiled;
    TailFits(GrowN(bs, GROW_PAGES), want);
    assert GrowN(bs, 0) == bs;
  }

  lemma Start(bs: seq<Block>, s: Site, want: int)
    requires |bs| > 0
    ensures GrowN(bs, 0) == bs && Reach(s, 0) && After(s, 0) == s && NoneYet(bs, want, 0)
  {
  }

  lemma TailTooSmall(bs: seq<Block>, want: int)
    requires |bs| > 0 && want > 0 && NoFit(bs, |bs|, want)
    ensures TailFree(bs) < want + HEADER
  {
    assert !Fits(bs[|bs| - 1], want);
  }
}
