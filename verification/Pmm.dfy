/**
 The physical frame allocator: a bitmap with one bit per 4 KiB frame (set = not
 available), the usable regions, two counters and a search hint. It refines a plain
 set of free frames. A frame is named by its physical address.
 */
module PmmSpec {
  import opened Words

  const MAX_REGIONS := 32
  const MAX_FRAMES := 1024 * 1024
  const BITMAP_WORDS := 32768
  const LOW_LIMIT := 0x10_0000

  /** An entry of the Multiboot memory map. */
  datatype MmapEntry = MmapEntry(addr: u64, len: u64, kind: u32)

  datatype Region = Region(start: u32, end: u32)

  predicate InRegion(r: Region, frame: int) {
    r.start <= frame < r.end
  }

  predicate InRegions(rs: seq<Region>, frame: int) {
    exists i :: 0 <= i < |rs| && InRegion(rs[i], frame)
  }

  ghost function FramesIn(lo: int, hi: int): set<int> {
    set f | lo <= f < hi && f % PAGE_SIZE == 0
  }

  /** The frames that a list of regions makes available. */
  ghost function Managed(rs: seq<Region>): set<int> {
    set f | 0 <= f < U32_LIMIT && f % PAGE_SIZE == 0 && InRegions(rs, f)
  }

  /** The frames touched by a list of reserved byte ranges. */
  ghost function Reserved(ranges: seq<Region>): set<int> {
    if ranges == [] then {}
    else
      var last := ranges[|ranges| - 1];
      Reserved(ranges[..|ranges| - 1]) + FramesIn(AlignDown4k(last.start), AlignUp4k(last.end))
  }

  /** What one memory-map entry contributes, with `required` the end of the kernel image. */
  function Clip(e: MmapEntry, required: u32): (r: Option<Region>)
  {
    var start64 := if e.addr < LOW_LIMIT then LOW_LIMIT else e.addr;
    var end64 := if Wrap64(e.addr + e.len) > U32_MAX then U32_MAX else Wrap64(e.addr + e.len);
    if e.kind != 1 || start64 >= end64 then None
    else
      var aligned := AlignUp4k(start64);
      var start := if aligned < required then AlignUp4k(required) else aligned;
      var end := AlignDown4k(end64);
      if start < end then Some(Region(start, end)) else None
  }

  /** The regions kept from the memory map: the first 32 contributions. */
  function UsableRegions(es: seq<MmapEntry>, required: u32): (rs: seq<Region>)
    ensures |rs| <= MAX_REGIONS
  {
    if es == [] then []
    else
      var rs := UsableRegions(es[..|es| - 1], required);
      match Clip(es[|es| - 1], required)
      case Some(r) => if |rs| < MAX_REGIONS then rs + [r] else rs
      case None => rs
  }

  /** The whole pages an entry really offers above the low megabyte and the kernel, up to 4 GiB. */
  ghost function Offered(e: MmapEntry, required: u32): set<int> {
    set f | 0 <= f < U32_LIMIT && f % PAGE_SIZE == 0 && LOW_LIMIT <= f && required <= f
            && e.addr <= f && f + PAGE_SIZE <= e.addr + e.len
  }

  ghost function ClipFrames(e: MmapEntry, required: u32): set<int> {
    match Clip(e, required)
    case Some(r) => FramesIn(r.start, r.end)
    case None => {}
  }

  /** A start inside the last page of the 32-bit space wraps to 0 when it is rounded up. */
  predicate StartWraps(e: MmapEntry, required: u32) {
    0xFFFF_F000 < e.addr < U32_MAX && e.len > 0 && required < 0xFFFF_F000 && e.addr + e.len < U64_LIMIT
  }

  /** An entry that reaches 4 GiB loses its last page there, and all its pages if its end wraps past 64 bits. */
  predicate TopLost(e: MmapEntry) {
    e.addr <= 0xFFFF_F000 && e.addr + e.len >= U32_LIMIT
  }

  /** An entry contributes exactly the pages it offers, unless its start wraps or it reaches 4 GiB. */
  lemma ClipExact(e: MmapEntry, required: u32)
    requires e.kind == 1 && required % PAGE_SIZE == 0
    ensures ClipFrames(e, required) == Offered(e, required) <==> !StartWraps(e, required) && !TopLost(e)
  {
    if TopLost(e) {
      assert 0xFFFF_F000 in Offered(e, required);
      assert 0xFFFF_F000 !in ClipFrames(e, required);
    } else if StartWraps(e, required) {
      var end64 := if e.addr + e.len > U32_MAX then U32_MAX else e.addr + e.len;
      assert AlignUp4k(e.addr) == 0;
      assert AlignDown4k(end64) == 0xFFFF_F000;
      assert AlignUp4k(required) == required;
      assert 0xFFFF_E000 in ClipFrames(e, required);
      assert 0xFFFF_E000 !in Offered(e, required);
    } else {
      forall f
        ensures f in ClipFrames(e, required) <==> f in Offered(e, required)
      {
        ClipMember(e, required, f);
      }
    }
  }

  lemma ClipMember(e: MmapEntry, required: u32, f: int)
    requires e.kind == 1 && required % PAGE_SIZE == 0 && !StartWraps(e, required) && !TopLost(e)
    ensures f in ClipFrames(e, required) <==> f in Offered(e, required)
  {
    if e.addr > 0xFFFF_F000 {
      LastPageStart(e, required);
    } else {
      ClipBelow(e, required, f);
    }
  }

  /** A start in the last page that does not wrap offers and contributes nothing. */
  lemma LastPageStart(e: MmapEntry, required: u32)
    requires e.kind == 1 && required % PAGE_SIZE == 0 && !StartWraps(e, required) && e.addr > 0xFFFF_F000
    ensures ClipFrames(e, required) == {} && Offered(e, required) == {}
  {
    assert AlignUp4k(required) == required;
    assert e.addr < U32_MAX ==> AlignUp4k(e.addr) == 0;
  }

  lemma ClipBelow(e: MmapEntry, required: u32, f: int)
    requires e.kind == 1 && required % PAGE_SIZE == 0 && e.addr <= 0xFFFF_F000 && e.addr + e.len < U32_LIMIT
    ensures f in ClipFrames(e, required) <==> f in Offered(e, required)
  {
    var start, end := if e.addr < LOW_LIMIT then LOW_LIMIT else e.addr, e.addr + e.len;
    hide AlignUp4k, AlignDown4k;
    UpTo(required, required);
    UpTo(start, f);
    DownTo(end, f);
  }

  lemma UpTo(v: u32, f: int)
    requires v <= 0xFFFF_F000
    ensures f % PAGE_SIZE == 0 ==> (AlignUp4k(v) <= f <==> v <= f)
    ensures v % PAGE_SIZE == 0 ==> AlignUp4k(v) == v
  {
    hide AlignUp4k;
    if f % PAGE_SIZE == 0 && v <= f {
      assert AlignUp4k(v) / PAGE_SIZE <= f / PAGE_SIZE;
    }
    if v % PAGE_SIZE == 0 {
      assert AlignUp4k(v) / PAGE_SIZE == v / PAGE_SIZE;
    }
  }

  lemma DownTo(v: u32, f: int)
    ensures f % PAGE_SIZE == 0 ==> (f < AlignDown4k(v) <==> f + PAGE_SIZE <= v)
  {
    hide AlignDown4k;
    if f % PAGE_SIZE == 0 && f < AlignDown4k(v) {
      assert f / PAGE_SIZE + 1 <= AlignDown4k(v) / PAGE_SIZE;
    }
  }

  /** The last page below 4 GiB is offered and dropped. */
  lemma TopPageExample()
    ensures var e := MmapEntry(0xFFFF_0000, 0x1_0000, 1);
            0xFFFF_F000 in Offered(e, 0x20_0000) && 0xFFFF_F000 !in ClipFrames(e, 0x20_0000)
  {
    assert AlignDown4k(0xFFFF_FFFF) == 0xFFFF_F000;
  }

  /** An entry whose end wraps past 64 bits offers all memory above the kernel and contributes nothing. */
  lemma EndWrapExample()
    ensures var e := MmapEntry(LOW_LIMIT, U64_LIMIT - 1, 1);
            0x20_0000 in Offered(e, 0x20_0000) && ClipFrames(e, 0x20_0000) == {}
  {
  }

  /** A type-1 entry that starts in the last page makes all memory above the kernel usable. */
  lemma ClipWrapExample()
    ensures Clip(MmapEntry(0xFFFF_F800, 0x800, 1), 0x20_0000) == Some(Region(0x20_0000, 0xFFFF_F000))
  {
    assert AlignUp4k(0xFFFF_F800) == 0;
    assert AlignUp4k(0x20_0000) == 0x20_0000;
    assert AlignDown4k(0xFFFF_FFFF) == 0xFFFF_F000;
  }

  /** Some entry of available memory offers the frame. */
  ghost predicate OfferedBy(es: seq<MmapEntry>, required: u32, f: int) {
    exists i :: 0 <= i < |es| && es[i].kind == 1 && f in Offered(es[i], required)
  }

  /** No entry of available memory is clipped wrongly. */
  ghost predicate PlainMap(es: seq<MmapEntry>, required: u32) {
    forall i :: 0 <= i < |es| && es[i].kind == 1 ==> !StartWraps(es[i], required) && !TopLost(es[i])
  }

  /** How many entries of available memory offer some frame. */
  ghost function Offering(es: seq<MmapEntry>, required: u32): (n: nat) {
    if es == [] then 0
    else
      var e := es[|es| - 1];
      Offering(es[..|es| - 1], required) + if e.kind == 1 && Offered(e, required) != {} then 1 else 0
  }

  lemma ClipIs(e: MmapEntry, required: u32)
    requires required % PAGE_SIZE == 0 && (e.kind == 1 ==> !StartWraps(e, required) && !TopLost(e))
    ensures Clip(e, required).Some? <==> e.kind == 1 && Offered(e, required) != {}
    ensures Clip(e, required).Some? ==> ClipFrames(e, required) == Offered(e, required)
  {
    if e.kind == 1 {
      ClipExact(e, required);
      ClipGood(e, required);
      var c := Clip(e, required);
      assert c.Some? ==> c.value.start in ClipFrames(e, required);
    }
  }

  /** The regions hold exactly the frames that entries of available memory offer; beyond 32 such entries, no others. */
  lemma {:induction false} RegionsOffered(es: seq<MmapEntry>, required: u32, f: int)
    requires required % PAGE_SIZE == 0 && PlainMap(es, required) && f % PAGE_SIZE == 0
    ensures InRegions(UsableRegions(es, required), f) ==> OfferedBy(es, required, f)
    ensures Offering(es, required) <= MAX_REGIONS ==>
              |UsableRegions(es, required)| == Offering(es, required)
              && (OfferedBy(es, required, f) ==> InRegions(UsableRegions(es, required), f))
  {
    hide Clip, Offered, StartWraps, TopLost;
    if es != [] {
      var front, e := es[..|es| - 1], es[|es| - 1];
      RegionsOffered(front, required, f);
      ClipIs(e, required);
      var before, rs := UsableRegions(front, required), UsableRegions(es, required);
      OfferedSplit(es, required, f);
      RegionsSplit(before, rs, Clip(e, required), f);
    }
  }

  lemma OfferedSplit(es: seq<MmapEntry>, required: u32, f: int)
    requires es != []
    ensures OfferedBy(es, required, f) <==>
            OfferedBy(es[..|es| - 1], required, f) || (es[|es| - 1].kind == 1 && f in Offered(es[|es| - 1], required))
  {
    hide Offered;
    var front := es[..|es| - 1];
    if i :| 0 <= i < |front| && front[i].kind == 1 && f in Offered(front[i], required) {
      assert es[i].kind == 1 && f in Offered(es[i], required);
    }
    if i :| 0 <= i < |es| && es[i].kind == 1 && f in Offered(es[i], required) {
      assert i < |front| ==> front[i].kind == 1 && f in Offered(front[i], required);
    }
  }

  lemma RegionsSplit(rs: seq<Region>, rs': seq<Region>, c: Option<Region>, f: int)
    requires rs' == rs || (c.Some? && rs' == rs + [c.value])
    ensures InRegions(rs', f) <==> InRegions(rs, f) || (rs' != rs && InRegion(c.value, f))
  {
    if i :| 0 <= i < |rs| && InRegion(rs[i], f) {
      assert InRegion(rs'[i], f);
    }
    if rs' != rs && InRegion(c.value, f) {
      assert InRegion(rs'[|rs|], f);
    }
  }

  /** The managed frames over the map's entries: only what is offered, and with at most 32 such entries all of it. */
  lemma ManagedExact(es: seq<MmapEntry>, required: u32)
    requires required % PAGE_SIZE == 0 && PlainMap(es, required)
    ensures forall f :: f in Managed(UsableRegions(es, required)) ==> OfferedBy(es, required, f)
    ensures Offering(es, required) <= 32 ==>
              forall f :: f in Managed(UsableRegions(es, required)) <==> OfferedBy(es, required, f)
  {
    hide UsableRegions, Offering, PlainMap, InRegions;
    forall f | 0 <= f < U32_LIMIT && f % PAGE_SIZE == 0
      ensures f in Managed(UsableRegions(es, required)) ==> OfferedBy(es, required, f)
      ensures Offering(es, required) <= MAX_REGIONS && OfferedBy(es, required, f) ==>
                f in Managed(UsableRegions(es, required))
    {
      RegionsOffered(es, required, f);
    }
  }

  // Reserved ranges

  predicate SharedByte(r: Region, f: int, b: int) {
    r.start <= b < r.end && f <= b < f + PAGE_SIZE
  }

  /** The frames that share a byte with a range. */
  ghost function Touched(r: Region): set<int> {
    set f | 0 <= f < U32_LIMIT && f % PAGE_SIZE == 0 && exists b :: SharedByte(r, f, b)
  }

  lemma TouchedIs(r: Region, f: int)
    ensures f in Touched(r) <==>
            0 <= f < U32_LIMIT && f % PAGE_SIZE == 0 && r.start < r.end && r.start < f + PAGE_SIZE && f < r.end
  {
    if 0 <= f < U32_LIMIT && f % PAGE_SIZE == 0 && r.start < r.end && r.start < f + PAGE_SIZE && f < r.end {
      assert SharedByte(r, f, if r.start < f then f else r.start);
    }
  }

  /**
   A range reserves exactly the frames it touches, unless it ends in the last page below 4 GiB, where nothing is
   reserved, or is empty but for its rounding, where one frame is.
   */
  lemma ReserveExact(r: Region)
    ensures FramesIn(AlignDown4k(r.start), AlignUp4k(r.end)) == Touched(r) <==>
            if r.start < r.end then r.end <= 0xFFFF_F000 else AlignDown4k(r.start) >= AlignUp4k(r.end)
  {
    var lo, hi := AlignDown4k(r.start), AlignUp4k(r.end);
    TouchedIs(r, lo);
    if r.start < r.end && r.end <= 0xFFFF_F000 {
      forall f
        ensures f in FramesIn(lo, hi) <==> f in Touched(r)
      {
        TouchedIs(r, f);
      }
    } else if r.start >= r.end {
      assert lo < hi ==> lo in FramesIn(lo, hi);
    }
  }

  /** A frame is reserved exactly when some listed range reserves it. */
  lemma {:induction false} ReservedIs(ranges: seq<Region>, f: int)
    ensures f in Reserved(ranges) <==>
            exists i :: 0 <= i < |ranges| && f in FramesIn(AlignDown4k(ranges[i].start), AlignUp4k(ranges[i].end))
  {
    hide FramesIn;
    if ranges != [] {
      var front := ranges[..|ranges| - 1];
      ReservedIs(front, f);
      if i :| 0 <= i < |front| && f in FramesIn(AlignDown4k(front[i].start), AlignUp4k(front[i].end)) {
        assert f in FramesIn(AlignDown4k(ranges[i].start), AlignUp4k(ranges[i].end));
      }
      if i :| 0 <= i < |ranges| && f in FramesIn(AlignDown4k(ranges[i].start), AlignUp4k(ranges[i].end)) {
        assert i < |front| ==> f in FramesIn(AlignDown4k(front[i].start), AlignUp4k(front[i].end));
      }
    }
  }

  /** The highest end of the regions. */
  function Top(regions: seq<Region>): (r: int) {
    if regions == [] then 0
    else
      var rest, last := Top(regions[..|regions| - 1]), regions[|regions| - 1].end;
      if last > rest then last else rest
  }

  lemma {:induction false} TopIs(regions: seq<Region>)
    ensures forall i :: 0 <= i < |regions| ==> regions[i].end <= Top(regions)
    ensures Top(regions) == 0 || exists i :: 0 <= i < |regions| && regions[i].end == Top(regions)
  {
    if regions != [] {
      var front := regions[..|regions| - 1];
      TopIs(front);
      assert forall i :: 0 <= i < |front| ==> front[i] == regions[i];
      if Top(regions) == Top(front) && Top(front) != 0 {
        var i :| 0 <= i < |front| && front[i].end == Top(front);
        assert regions[i].end == Top(regions);
      } else {
        assert regions[|regions| - 1].end == Top(regions) || Top(regions) == 0;
      }
    }
  }

  predicate GoodRegion(r: Region) {
    r.start % PAGE_SIZE == 0 && r.end % PAGE_SIZE == 0 && r.start < r.end
  }

  lemma ClipGood(e: MmapEntry, required: u32)
    requires required % PAGE_SIZE == 0
    ensures var r := Clip(e, required); r.Some? ==> GoodRegion(r.value) && r.value.start >= required
  {
  }

  lemma {:induction false} UsableRegionsGood(es: seq<MmapEntry>, required: u32)
    requires required % PAGE_SIZE == 0
    ensures forall i :: 0 <= i < |UsableRegions(es, required)| ==>
              GoodRegion(UsableRegions(es, required)[i]) && UsableRegions(es, required)[i].start >= required
  {
    hide Clip, GoodRegion;
    if es != [] {
      UsableRegionsGood(es[..|es| - 1], required);
      ClipGood(es[|es| - 1], required);
    }
  }

  /** Every managed frame lies above the kernel image and below the highest region end. */
  lemma RegionFrames(es: seq<MmapEntry>, required: u32, top: int)
    requires required % PAGE_SIZE == 0
    requires forall i :: 0 <= i < |UsableRegions(es, required)| ==> UsableRegions(es, required)[i].end <= top
    ensures forall f :: f in Managed(UsableRegions(es, required)) ==> required <= f < top && f % PAGE_SIZE == 0
  {
    hide Clip;
    UsableRegionsGood(es, required);
  }
}

module PmmModel {
  import opened Words
  import opened PmmSpec

  class Pmm {
    const bitmap: array<bv32>
    var regions: seq<Region>
    var total: nat
    var used: nat
    var hint: nat
    var highestEnd: u32
    var initialized: bool

    /** Every frame of the usable regions, and those of them that nobody holds. */
    ghost var managed: set<int>
    ghost var free: set<int>

    predicate BitSet(i: int)
      requires bitmap.Length == BITMAP_WORDS && 0 <= i < MAX_FRAMES
      reads bitmap
    {
      Hits(bitmap[i / 32], Mask(i % 32))
    }

    /** The bitmap is the complement of the free set and the counters are true cardinalities. */
    ghost predicate Tracks()
      reads this, bitmap
    {
      && bitmap.Length == BITMAP_WORDS
      && (forall i :: 0 <= i < MAX_FRAMES ==> (BitSet(i) <==> i * PAGE_SIZE !in free))
      && free <= managed
      && total == |managed|
      && used == |managed| - |free|
    }

    /** The bitmap, the counters and the regions all describe the same sets. */
    ghost predicate Consistent()
      reads this, bitmap
    {
      Tracks() && managed == Managed(regions)
    }

    /** A ready allocator: consistent, no free frame below the hint, frame 0 never handed out. */
    ghost predicate Valid()
      reads this, bitmap
    {
      && initialized
      && Consistent()
      && free <= managed
      && hint < MAX_FRAMES
      && (forall f :: f in free ==> hint * PAGE_SIZE <= f)
      && (forall f :: f in managed ==> LOW_LIMIT <= f < U32_LIMIT && f % PAGE_SIZE == 0 && f < highestEnd)
    }

    constructor ()
      ensures !initialized && bitmap.Length == BITMAP_WORDS && fresh(bitmap)
    {
      bitmap := new bv32[BITMAP_WORDS](_ => 0);
      regions, total, used, hint, highestEnd, initialized := [], 0, 0, 0, 0, false;
      managed, free := {}, {};
    }

    method SetBit(i: int)
      requires bitmap.Length == BITMAP_WORDS && 0 <= i < MAX_FRAMES
      modifies bitmap
      ensures forall j :: 0 <= j < MAX_FRAMES ==> (BitSet(j) <==> j == i || old(BitSet(j)))
    {
      ghost var w := bitmap[i / 32];
      bitmap[i / 32] := WithMask(bitmap[i / 32], Mask(i % 32));
      forall j | 0 <= j < MAX_FRAMES
        ensures BitSet(j) <==> j == i || old(BitSet(j))
      {
        UpdateBit(w, i % 32, j % 32);
      }
    }

    method ClearBit(i: int)
      requires bitmap.Length == BITMAP_WORDS && 0 <= i < MAX_FRAMES
      modifies bitmap
      ensures forall j :: 0 <= j < MAX_FRAMES ==> (BitSet(j) <==> j != i && old(BitSet(j)))
    {
      ghost var w := bitmap[i / 32];
      bitmap[i / 32] := WithoutMask(bitmap[i / 32], Mask(i % 32));
      forall j | 0 <= j < MAX_FRAMES
        ensures BitSet(j) <==> j != i && old(BitSet(j))
      {
        UpdateBit(w, i % 32, j % 32);
      }
    }

    method FrameInRegions(frame: u32) returns (inside: bool)
      ensures inside <==> InRegions(regions, frame)
    {
      for i := 0 to |regions|
        invariant forall j :: 0 <= j < i ==> !InRegion(regions[j], frame)
      {
        if InRegion(regions[i], frame) {
          return true;
        }
      }
      return false;
    }

    /** Takes the lowest free frame; 0 means that every frame is in use, or that there is no allocator. */
    method AllocFrame() returns (frame: u32)
      requires initialized ==> Valid()
      modifies this, bitmap
      ensures initialized == old(initialized) && (initialized ==> Valid())
      ensures regions == old(regions) && managed == old(managed) && total == old(total) && highestEnd == old(highestEnd)
      ensures frame == 0 <==> !initialized || old(free) == {}
      ensures frame == 0 <==> !initialized || old(used) == total
      ensures frame == 0 ==> free == old(free)
      ensures frame != 0 ==> frame in old(free) && free == old(free) - {frame}
      ensures frame != 0 ==> forall f :: f in old(free) ==> frame <= f
    {
      hide BitSet, Managed;
      frame := 0;
      if !initialized {
        return;
      }
      if used >= total {
        assert |free| == 0;
        return;
      }
      var index := Search();
      Take(index);
      frame := index * PAGE_SIZE;
    }

    /** The scan from the hint: it never has to wrap, and never fails. */
    method Search() returns (index: int)
      requires Valid() && free != {}
      ensures 0 <= index < MAX_FRAMES && index * PAGE_SIZE in free
      ensures forall f :: f in free ==> index * PAGE_SIZE <= f
    {
      hide Hits, Mask;
      var checked := 0;
      index := hint;
      while checked < MAX_FRAMES
        invariant 0 <= checked <= MAX_FRAMES && index == hint + checked
        invariant 0 <= index < MAX_FRAMES
        invariant forall f :: f in free ==> index * PAGE_SIZE <= f
      {
        if !BitSet(index) {
          var inside := FrameInRegions(index * PAGE_SIZE);
          if inside {
            return;
          }
        }
        NextCandidate(index, free);
        index := index + 1;
        if index >= MAX_FRAMES {
          index := 0;
        }
        checked := checked + 1;
      }
      assert false;
    }

    method Take(index: int)
      requires Consistent() && initialized && 0 <= index < MAX_FRAMES && index * PAGE_SIZE in free
      requires forall f :: f in free ==> index * PAGE_SIZE <= f
      modifies this, bitmap
      ensures Consistent() && free == old(free) - {index * PAGE_SIZE}
      ensures initialized && regions == old(regions) && managed == old(managed)
      ensures total == old(total) && highestEnd == old(highestEnd)
      ensures hint < MAX_FRAMES && hint == (index + 1) % MAX_FRAMES && used == old(used) + 1
    {
      hide Hits, Mask;
      SetBit(index);
      hint := (index + 1) % MAX_FRAMES;
      used := used + 1;
      free := free - {index * PAGE_SIZE};
    }

    /** Gives a frame back; refused unless it is a managed frame that is in use. */
    method FreeFrame(frame: u32) returns (ok: bool)
      requires initialized ==> Valid()
      modifies this, bitmap
      ensures initialized == old(initialized) && (initialized ==> Valid())
      ensures regions == old(regions) && managed == old(managed) && total == old(total) && highestEnd == old(highestEnd)
      ensures ok <==> initialized && frame in managed && frame !in old(free)
      ensures free == if ok then old(free) + {frame} else old(free)
    {
      hide Hits, Mask;
      if !initialized {
        return false;
      }
      var index := AlignDown4k(frame) / PAGE_SIZE;
      if frame % PAGE_SIZE != 0 {
        return false;
      }
      var inside := FrameInRegions(AlignDown4k(frame));
      if !inside {
        return false;
      }
      if !BitSet(index) {
        return false;
      }
      assert frame == index * PAGE_SIZE;
      GiveBack(index);
      return true;
    }

    method GiveBack(index: int)
      requires Valid() && 0 <= index < MAX_FRAMES
      requires index * PAGE_SIZE in managed && index * PAGE_SIZE !in free
      modifies this, bitmap
      ensures Valid()
      ensures regions == old(regions) && managed == old(managed) && total == old(total) && highestEnd == old(highestEnd)
      ensures free == old(free) + {index * PAGE_SIZE} && used == old(used) - 1
    {
      hide Hits, Mask, Managed;
      ClearBit(index);
      if index < hint {
        hint := index;
      }
      StrictSubset(free, managed, index * PAGE_SIZE);
      if used > 0 {
        used := used - 1;
      }
      free := free + {index * PAGE_SIZE};
    }

    method MarkFrame(frame: u32)
      requires Tracks() && free == managed && frame % PAGE_SIZE == 0
      modifies this, bitmap
      ensures Tracks() && free == managed == old(managed) + {frame}
      ensures regions == old(regions) && hint == old(hint) && highestEnd == old(highestEnd)
      ensures initialized == old(initialized)
    {
      hide Hits, Mask;
      var index := frame / PAGE_SIZE;
      if BitSet(index) {
        ClearBit(index);
        total := total + 1;
        managed, free := managed + {frame}, free + {frame};
      }
    }

    /** Makes the whole pages of a range available; pages already available are not counted twice. */
    method MarkRegionUsable(start: u32, end: u32)
      requires Tracks() && free == managed && start <= 0xFFFF_F000
      modifies this, bitmap
      ensures Tracks() && free == managed == old(managed) + FramesIn(start, AlignDown4k(end))
      ensures regions == old(regions) && hint == old(hint) && highestEnd == old(highestEnd)
      ensures initialized == old(initialized)
    {
      hide BitSet, Tracks, FramesIn;
      var frame: int := AlignUp4k(start);
      var limit := AlignDown4k(end);
      ghost var lo := frame;
      FramesFrom(start, lo, limit);
      while frame < limit
        invariant frame % PAGE_SIZE == 0 && lo <= frame && (frame <= limit || frame == lo)
        invariant Tracks() && free == managed == old(managed) + FramesIn(lo, frame)
        invariant regions == old(regions) && hint == old(hint) && highestEnd == old(highestEnd)
        invariant initialized == old(initialized)
      {
        MarkFrame(frame);
        FramesStep(lo, frame);
        frame := frame + PAGE_SIZE;
      }
    }

    method ReserveFrame(frame: u32)
      requires Consistent() && frame % PAGE_SIZE == 0
      modifies this, bitmap
      ensures Consistent() && managed == old(managed) && free == old(free) - {frame}
      ensures regions == old(regions) && hint == old(hint) && highestEnd == old(highestEnd)
      ensures initialized == old(initialized)
    {
      hide Hits, Mask;
      var index := frame / PAGE_SIZE;
      var inside := FrameInRegions(frame);
      if inside && !BitSet(index) {
        SetBit(index);
        used := used + 1;
        free := free - {frame};
      }
    }

    /** Takes every available page that a byte range touches out of circulation. */
    method ReserveRange(start: u32, end: u32)
      requires Consistent()
      modifies this, bitmap
      ensures Consistent() && managed == old(managed)
      ensures free == old(free) - FramesIn(AlignDown4k(start), AlignUp4k(end))
      ensures regions == old(regions) && hint == old(hint) && highestEnd == old(highestEnd)
      ensures initialized == old(initialized)
    {
      hide BitSet, Tracks, Consistent, FramesIn;
      var lo, limit := AlignDown4k(start), AlignUp4k(end);
      FramesFrom(lo, lo, limit);
      if lo >= limit {
        return;
      }
      var frame: int := lo;
      while frame < limit
        invariant frame % PAGE_SIZE == 0 && lo <= frame <= limit
        invariant Consistent() && managed == old(managed)
        invariant free == old(free) - FramesIn(lo, frame)
        invariant regions == old(regions) && hint == old(hint) && highestEnd == old(highestEnd)
        invariant initialized == old(initialized)
      {
        ReserveFrame(frame);
        FramesStep(lo, frame);
        frame := frame + PAGE_SIZE;
      }
    }

    method AddRegion(r: Region)
      requires Consistent() && free == managed && GoodRegion(r)
      modifies this, bitmap
      ensures Consistent() && free == managed && regions == old(regions) + [r]
      ensures hint == old(hint) && initialized == old(initialized)
      ensures highestEnd == if r.end > old(highestEnd) then r.end else old(highestEnd)
    {
      hide BitSet, Managed, FramesIn;
      ManagedGrows(regions, r);
      regions := regions + [r];
      if r.end > highestEnd {
        highestEnd := r.end;
      }
      MarkRegionUsable(r.start, r.end);
    }

    /**
     Builds the allocator from the memory map. `reserved` lists the byte ranges of the
     boot information, its strings and its modules.
     */
    method Init(hasMmap: bool, entries: seq<MmapEntry>, kernelEnd: u32, reserved: seq<Region>)
      requires bitmap.Length == BITMAP_WORDS
      requires LOW_LIMIT <= kernelEnd <= 0xFFFF_F000
      modifies this, bitmap
      ensures initialized <==> hasMmap && UsableRegions(entries, AlignUp4k(kernelEnd)) != []
      ensures initialized ==> Valid() && regions == UsableRegions(entries, AlignUp4k(kernelEnd))
      ensures initialized ==> managed == Managed(regions) && free == managed - Reserved(reserved)
      ensures initialized ==> highestEnd == Top(regions) && forall f :: f in managed ==> kernelEnd <= f
      // over the map's own entries
      ensures initialized && PlainMap(entries, AlignUp4k(kernelEnd)) ==>
                && (forall f :: f in managed ==> OfferedBy(entries, AlignUp4k(kernelEnd), f))
                && (Offering(entries, AlignUp4k(kernelEnd)) <= 32 ==>
                      forall f :: OfferedBy(entries, AlignUp4k(kernelEnd), f) ==> f in managed)
    {
      hide BitSet, Managed, Reserved, UsableRegions, OfferedBy, PlainMap, Offering;
      initialized := false;
      if !hasMmap {
        return;
      }
      var required := AlignUp4k(kernelEnd);
      Reset();
      AddEntries(entries, required);
      if regions == [] {
        return;
      }
      ReserveAll(reserved);
      RegionFrames(entries, required, highestEnd);
      if PlainMap(entries, required) {
        ManagedExact(entries, required);
      }
      initialized := true;
    }

    method AddEntries(entries: seq<MmapEntry>, required: u32)
      requires Consistent() && free == managed && regions == [] && highestEnd == 0 && required % PAGE_SIZE == 0
      modifies this, bitmap
      ensures Consistent() && free == managed && regions == UsableRegions(entries, required)
      ensures highestEnd == Top(regions) && forall i :: 0 <= i < |regions| ==> regions[i].end <= highestEnd
      ensures hint == old(hint) && initialized == old(initialized)
    {
      hide Consistent, Clip;
      var k := 0;
      while k < |entries|
        invariant 0 <= k <= |entries| && hint == old(hint) && initialized == old(initialized)
        invariant Consistent() && free == managed
        invariant regions == UsableRegions(entries[..k], required) && highestEnd == Top(regions)
        invariant forall i :: 0 <= i < |regions| ==> regions[i].end <= highestEnd
      {
        assert entries[..k + 1][..k] == entries[..k];
        var clipped := Clip(entries[k], required);
        ClipGood(entries[k], required);
        if clipped.Some? && |regions| < MAX_REGIONS {
          AddRegion(clipped.value);
        }
        k := k + 1;
      }
      assert entries[..k] == entries;
    }

    method Reset()
      requires bitmap.Length == BITMAP_WORDS
      modifies this, bitmap
      ensures Consistent() && free == managed == {} && regions == [] && hint == 0 && highestEnd == 0
      ensures initialized == old(initialized)
    {
      for i := 0 to BITMAP_WORDS
        modifies bitmap
        invariant forall j :: 0 <= j < i ==> bitmap[j] == 0xFFFF_FFFF
      {
        bitmap[i] := 0xFFFF_FFFF;
      }
      regions, total, used, hint, highestEnd := [], 0, 0, 0, 0;
      managed, free := {}, {};
      forall j | 0 <= j < MAX_FRAMES
        ensures BitSet(j)
      {
        FullWord(j % 32);
      }
    }

    method ReserveAll(reserved: seq<Region>)
      requires Consistent() && free == managed
      modifies this, bitmap
      ensures Consistent() && managed == old(managed) && free == managed - Reserved(reserved)
      ensures regions == old(regions) && hint == old(hint) && highestEnd == old(highestEnd)
      ensures initialized == old(initialized)
    {
      hide Consistent;
      var k := 0;
      while k < |reserved|
        invariant 0 <= k <= |reserved|
        invariant Consistent() && managed == old(managed) && free == managed - Reserved(reserved[..k])
        invariant regions == old(regions) && hint == old(hint) && highestEnd == old(highestEnd)
        invariant initialized == old(initialized)
      {
        assert reserved[..k + 1][..k] == reserved[..k];
        ReserveRange(reserved[k].start, reserved[k].end);
        k := k + 1;
      }
      assert reserved[..k] == reserved;
    }
  }

  /** When the candidate is not free, every free frame lies beyond it. */
  lemma NextCandidate(index: int, free: set<int>)
    requires 0 <= index < MAX_FRAMES && index * PAGE_SIZE !in free
    requires forall f :: f in free ==> index * PAGE_SIZE <= f < U32_LIMIT && f % PAGE_SIZE == 0
    ensures forall f :: f in free ==> (index + 1) * PAGE_SIZE <= f
    ensures free != {} ==> index + 1 < MAX_FRAMES
  {
  }

  lemma StrictSubset(a: set<int>, b: set<int>, x: int)
    requires a <= b && x in b && x !in a
    ensures |a| < |b|
  {
    assert b == a + (b - a);
  }

  lemma FramesFrom(start: int, lo: int, hi: int)
    requires lo % PAGE_SIZE == 0 && start <= lo < start + PAGE_SIZE
    ensures FramesIn(start, hi) == FramesIn(lo, hi)
    ensures FramesIn(lo, lo) == {}
    ensures lo >= hi ==> FramesIn(lo, hi) == {}
  {
  }

  lemma FramesStep(lo: int, frame: int)
    requires lo <= frame && frame % PAGE_SIZE == 0
    ensures FramesIn(lo, frame + PAGE_SIZE) == FramesIn(lo, frame) + {frame}
  {
  }

  lemma ManagedGrows(rs: seq<Region>, r: Region)
    ensures Managed(rs + [r]) == Managed(rs) + FramesIn(r.start, r.end)
  {
    forall f | f in Managed(rs)
      ensures f in Managed(rs + [r])
    {
      var i :| 0 <= i < |rs| && InRegion(rs[i], f);
      assert InRegion((rs + [r])[i], f);
    }
    assert InRegion(r, r.start) ==> (rs + [r])[|rs|] == r;
  }
}
