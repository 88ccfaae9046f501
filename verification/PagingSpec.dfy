/**
 Two-level page tables in simulated physical memory, as pure functions. A directory or
 table is a frame holding 1024 words; a word is a frame address plus flag bits
 (present = 1, writable = 2, user = 4), as in 32-bit paging.
 */
module PagingSpec {
  import opened Words

  const ENTRIES := 1024
  const PAGES := 1024 * 1024
  const KERNEL_FLAGS := 3
  const USER_FLAGS := 7

  type Mem = map<int, seq<int>>

  predicate Present(e: int) { e % 2 == 1 }

  predicate WriteBit(e: int) { e % 4 >= 2 }

  predicate UserBit(e: int) { e % 8 >= 4 }

  function Base(e: int): (b: int) { e / PAGE_SIZE * PAGE_SIZE }

  lemma PageParts(x: int, b: int, c: int)
    requires x == PAGE_SIZE * b + c && 0 <= c < PAGE_SIZE
    ensures x / PAGE_SIZE == b
  {
  }

  lemma QuadParts(x: int, q: int, m: int)
    requires x == 4 * q + m && 0 <= m < 4
    ensures x % 4 == m
  {
  }

  lemma PairParts(x: int, q: int, m: int)
    requires x == 2 * q + m && 0 <= m < 2
    ensures x % 2 == m
  {
  }

  lemma OctalParts(x: int, q: int, m: int)
    requires x == 8 * q + m && 0 <= m < 8
    ensures x % 8 == m && x % 4 == m % 4 && x % 2 == m % 2
  {
    QuadParts(x, 2 * q + m / 4, m % 4);
    PairParts(x, 4 * q + m / 2, m % 2);
  }

  /** The user bit lies inside the flag bits: setting it does not carry into the frame address. */
  lemma UserBitFits(e: int)
    requires !UserBit(e)
    ensures UserBit(e + 4) && Base(e + 4) == Base(e) && Present(e + 4) == Present(e) && WriteBit(e + 4) == WriteBit(e)
  {
    var b, c := e / PAGE_SIZE, e % PAGE_SIZE;
    var k, m := c / 8, c % 8;
    assert e == PAGE_SIZE * b + c && c == 8 * k + m;
    OctalParts(e, 512 * b + k, m);
    OctalParts(e + 4, 512 * b + k, m + 4);
    PageParts(e + 4, b, c + 4);
  }

  function WithUser(e: int): (r: int)
    ensures UserBit(r) && Base(r) == Base(e) && Present(r) == Present(e) && WriteBit(r) == WriteBit(e)
  {
    if UserBit(e) then e else UserBitFits(e); e + 4
  }

  function Zeros(): (s: seq<int>) { seq(ENTRIES, _ => 0) }

  predicate IsTable(mem: Mem, f: int) { f in mem && |mem[f]| == ENTRIES }

  /**
   The shape of the page tables. `dirs` are the live directories; `home` gives, for every
   live table, the one directory index under which directories may refer to it. Tables are
   shared between directories only at the same index.
   */
  ghost predicate WellFormed(mem: Mem, dirs: set<int>, home: map<int, int>) {
    && (forall d :: d in dirs ==> IsTable(mem, d) && d !in home)
    && (forall t :: t in home ==> IsTable(mem, t) && 0 <= home[t] < ENTRIES)
    && (forall d, i :: d in dirs && 0 <= i < ENTRIES && Present(mem[d][i]) ==>
          Base(mem[d][i]) in home && home[Base(mem[d][i])] == i)
  }

  /** The table entry that directory `d` holds for page `p`; 0 when there is no table. */
  function Pte(mem: Mem, d: int, p: int): int
    requires IsTable(mem, d) && 0 <= p < PAGES
  {
    var pde := mem[d][p / ENTRIES];
    if Present(pde) && IsTable(mem, Base(pde)) then mem[Base(pde)][p % ENTRIES] else 0
  }

  /** The flat map a directory stands for: from page to entry. */
  ghost function View(mem: Mem, d: int): map<int, int>
    requires IsTable(mem, d)
  {
    map p | 0 <= p < PAGES && Present(Pte(mem, d, p)) :: Pte(mem, d, p)
  }

  lemma ViewMember(mem: Mem, d: int, p: int)
    requires IsTable(mem, d) && 0 <= p < PAGES
    ensures p in View(mem, d) <==> Present(Pte(mem, d, p))
    ensures p in View(mem, d) ==> View(mem, d)[p] == Pte(mem, d, p)
  {
  }

  /** Directory `d` refers to table `t`. */
  ghost predicate Reaches(mem: Mem, home: map<int, int>, d: int, t: int)
    requires IsTable(mem, d) && t in home && 0 <= home[t] < ENTRIES
  {
    Present(mem[d][home[t]]) && Base(mem[d][home[t]]) == t
  }

  function Store(mem: Mem, f: int, i: int, w: int): (m: Mem)
    requires IsTable(mem, f) && 0 <= i < ENTRIES
    ensures IsTable(m, f)
  {
    mem[f := mem[f][i := w]]
  }

  // Writing one entry of a table

  lemma StoreWellFormed(mem: Mem, dirs: set<int>, home: map<int, int>, t: int, j: int, w: int)
    requires WellFormed(mem, dirs, home) && t in home && 0 <= j < ENTRIES
    ensures WellFormed(Store(mem, t, j, w), dirs, home)
  {
  }

  /** A table entry is seen at one page, in exactly the directories that refer to the table. */
  lemma StorePte(mem: Mem, dirs: set<int>, home: map<int, int>, t: int, j: int, w: int, d: int, p: int)
    requires WellFormed(mem, dirs, home) && t in home && 0 <= j < ENTRIES
    requires d in dirs && 0 <= p < PAGES
    ensures Pte(Store(mem, t, j, w), d, p) ==
            if Reaches(mem, home, d, t) && p == home[t] * ENTRIES + j then w else Pte(mem, d, p)
  {
  }

  lemma StoreView(mem: Mem, dirs: set<int>, home: map<int, int>, t: int, j: int, w: int, d: int)
    requires WellFormed(mem, dirs, home) && t in home && 0 <= j < ENTRIES && d in dirs
    ensures Reaches(mem, home, d, t) && Present(w) ==>
              View(Store(mem, t, j, w), d) == View(mem, d)[home[t] * ENTRIES + j := w]
    ensures Reaches(mem, home, d, t) && !Present(w) ==>
              View(Store(mem, t, j, w), d) == View(mem, d) - {home[t] * ENTRIES + j}
    ensures !Reaches(mem, home, d, t) ==> View(Store(mem, t, j, w), d) == View(mem, d)
  {
    hide Pte, Reaches;
    forall p | 0 <= p < PAGES
      ensures Pte(Store(mem, t, j, w), d, p) ==
              if Reaches(mem, home, d, t) && p == home[t] * ENTRIES + j then w else Pte(mem, d, p)
    {
      StorePte(mem, dirs, home, t, j, w, d, p);
    }
  }

  // Changing a directory entry without changing any translation

  /** Directory entry `i` now refers to the empty table `t`. */
  function Linked(mem: Mem, d: int, i: int, t: int, flags: int): (m: Mem)
    requires IsTable(mem, d) && 0 <= i < ENTRIES && t != d
    ensures IsTable(m, d) && IsTable(m, t)
  {
    mem[t := Zeros()][d := mem[d][i := t + flags]]
  }

  predicate LinkFlags(flags: int) { flags == KERNEL_FLAGS || flags == USER_FLAGS }

  lemma FlaggedWord(t: int, flags: int)
    requires t % PAGE_SIZE == 0 && 0 <= flags < PAGE_SIZE
    ensures Base(t + flags) == t
    ensures Present(t + flags) == Present(flags) && UserBit(t + flags) == UserBit(flags)
    ensures WriteBit(t + flags) == WriteBit(flags)
  {
    var b, k, m := t / PAGE_SIZE, flags / 8, flags % 8;
    PageParts(t + flags, b, flags);
    OctalParts(t + flags, 512 * b + k, m);
    OctalParts(flags, k, m);
  }

  /** Installing a fresh, empty table changes no translation in any directory. */
  lemma LinkWellFormed(mem: Mem, dirs: set<int>, home: map<int, int>, d: int, i: int, t: int, flags: int)
    requires WellFormed(mem, dirs, home) && d in dirs && 0 <= i < ENTRIES && !Present(mem[d][i])
    requires t !in dirs && t !in home && t % PAGE_SIZE == 0 && LinkFlags(flags)
    ensures WellFormed(Linked(mem, d, i, t, flags), dirs, home[t := i])
  {
    FlaggedWord(t, flags);
  }

  lemma LinkView(mem: Mem, dirs: set<int>, home: map<int, int>, d: int, i: int, t: int, flags: int, e: int)
    requires WellFormed(mem, dirs, home) && d in dirs && 0 <= i < ENTRIES && !Present(mem[d][i])
    requires t !in dirs && t !in home && t % PAGE_SIZE == 0 && LinkFlags(flags)
    requires e in dirs
    ensures IsTable(Linked(mem, d, i, t, flags), e)
    ensures View(Linked(mem, d, i, t, flags), e) == View(mem, e)
  {
    FlaggedWord(t, flags);
    var m := Linked(mem, d, i, t, flags);
    forall p | 0 <= p < PAGES
      ensures Pte(m, e, p) == Pte(mem, e, p)
    {
      assert Zeros()[p % ENTRIES] == 0;
    }
  }

  /** Marking a directory entry as user-accessible changes no translation in any directory. */
  lemma MarkView(mem: Mem, dirs: set<int>, home: map<int, int>, d: int, i: int, e: int)
    requires WellFormed(mem, dirs, home) && d in dirs && 0 <= i < ENTRIES && e in dirs
    ensures WellFormed(Store(mem, d, i, WithUser(mem[d][i])), dirs, home)
    ensures View(Store(mem, d, i, WithUser(mem[d][i])), e) == View(mem, e)
  {
    var m := Store(mem, d, i, WithUser(mem[d][i]));
    forall p | 0 <= p < PAGES
      ensures Pte(m, e, p) == Pte(mem, e, p)
    {
    }
  }

  predicate EmptyTable(s: seq<int>) {
    forall j :: 0 <= j < |s| ==> !Present(s[j])
  }

  /** Entry `i` of directory `d` is a user entry whose table maps nothing. */
  predicate Releasable(mem: Mem, d: int, i: int)
    requires IsTable(mem, d) && 0 <= i < ENTRIES
  {
    && Present(mem[d][i]) && UserBit(mem[d][i])
    && IsTable(mem, Base(mem[d][i])) && EmptyTable(mem[Base(mem[d][i])])
  }

  /** Cutting off a table that holds nothing and that no other directory uses. */
  lemma UnlinkView(mem: Mem, dirs: set<int>, home: map<int, int>, d: int, i: int, e: int)
    requires WellFormed(mem, dirs, home) && d in dirs && 0 <= i < ENTRIES && e in dirs
    requires Present(mem[d][i]) && EmptyTable(mem[Base(mem[d][i])])
    requires forall x :: x in dirs && x != d ==> !Reaches(mem, home, x, Base(mem[d][i]))
    ensures WellFormed(Store(mem, d, i, 0), dirs, home - {Base(mem[d][i])})
    ensures View(Store(mem, d, i, 0), e) == View(mem, e)
  {
    var m := Store(mem, d, i, 0);
    forall p | 0 <= p < PAGES
      ensures Present(Pte(m, e, p)) == Present(Pte(mem, e, p))
      ensures Present(Pte(m, e, p)) ==> Pte(m, e, p) == Pte(mem, e, p)
    {
    }
  }

  // Cloning

  /** A copy of a directory without its user entries. */
  function CloneOf(dir: seq<int>): (c: seq<int>)
    requires |dir| == ENTRIES
    ensures |c| == ENTRIES
  {
    seq(ENTRIES, i requires 0 <= i < ENTRIES => if UserBit(dir[i]) then 0 else dir[i])
  }

  lemma CloneWellFormed(mem: Mem, dirs: set<int>, home: map<int, int>, k: int, f: int)
    requires WellFormed(mem, dirs, home) && k in dirs && f !in dirs && f !in home
    ensures WellFormed(mem[f := CloneOf(mem[k])], dirs + {f}, home)
  {
    assert !Present(0);
  }

  /** Making a clone changes no translation in any directory. */
  lemma CloneKeepsView(mem: Mem, dirs: set<int>, home: map<int, int>, k: int, f: int, d: int)
    requires WellFormed(mem, dirs, home) && k in dirs && f !in dirs && f !in home && d in dirs
    ensures View(mem[f := CloneOf(mem[k])], d) == View(mem, d)
  {
    var m := mem[f := CloneOf(mem[k])];
    forall p | 0 <= p < PAGES
      ensures Pte(m, d, p) == Pte(mem, d, p)
    {
    }
  }

  /** A clone shares the kernel tables and leaves the user entries unmapped. */
  lemma CloneView(mem: Mem, dirs: set<int>, home: map<int, int>, k: int, f: int)
    requires WellFormed(mem, dirs, home) && k in dirs && f !in dirs && f !in home
    ensures var v := View(mem, k);
            View(mem[f := CloneOf(mem[k])], f) == map p | p in v && !UserBit(mem[k][p / ENTRIES]) :: v[p]
  {
    var m := mem[f := CloneOf(mem[k])];
    forall p | 0 <= p < PAGES
      ensures Pte(m, f, p) == if UserBit(mem[k][p / ENTRIES]) then 0 else Pte(mem, k, p)
    {
    }
    hide Pte, CloneOf;
  }

  // The effect of mapping a page

  /** Memory once entry `i` of directory `d` refers to a table; `t` is the fresh table, if one is needed. */
  function Prepared(mem: Mem, d: int, i: int, t: int, user: bool): Mem
    requires IsTable(mem, d) && 0 <= i < ENTRIES && t != d
  {
    if !Present(mem[d][i]) then Linked(mem, d, i, t, if user then USER_FLAGS else KERNEL_FLAGS)
    else if user then Store(mem, d, i, WithUser(mem[d][i]))
    else mem
  }

  /** The frame is fresh: neither a directory nor a table. */
  predicate Unused(dirs: set<int>, home: map<int, int>, t: int) {
    t !in dirs && t !in home && t % PAGE_SIZE == 0
  }

  /** Preparing a directory entry changes no translation in any directory. */
  lemma PreparedView(mem: Mem, dirs: set<int>, home: map<int, int>, d: int, i: int, t: int, user: bool, e: int)
    requires WellFormed(mem, dirs, home) && d in dirs && e in dirs && 0 <= i < ENTRIES
    requires if Present(mem[d][i]) then t == Base(mem[d][i]) else Unused(dirs, home, t)
    ensures t != d && IsTable(mem, e)
    ensures WellFormed(Prepared(mem, d, i, t, user), dirs, home[t := i])
    ensures IsTable(Prepared(mem, d, i, t, user), e)
    ensures View(Prepared(mem, d, i, t, user), e) == View(mem, e)
    ensures Reaches(Prepared(mem, d, i, t, user), home[t := i], d, t)
  {
    if !Present(mem[d][i]) {
      var flags := if user then USER_FLAGS else KERNEL_FLAGS;
      LinkWellFormed(mem, dirs, home, d, i, t, flags);
      LinkView(mem, dirs, home, d, i, t, flags, e);
      FlaggedWord(t, flags);
    } else {
      assert home[t := i] == home;
      if user {
        MarkView(mem, dirs, home, d, i, e);
      }
    }
  }

  /** The flag bits written to a table entry: the low twelve bits, with present forced on. */
  function MapFlags(flags: u32): (f: int)
    ensures 0 <= f < PAGE_SIZE && Present(f)
  {
    if flags % 2 == 0 then (flags + 1) % PAGE_SIZE else flags % PAGE_SIZE
  }

  /** Memory after page `p` of directory `d` is mapped to `phys`, by way of table `t`. */
  function Mapped(mem: Mem, d: int, p: int, t: int, phys: int, flags: int): Mem
    requires IsTable(mem, d) && 0 <= p < PAGES && t != d
    requires Present(mem[d][p / ENTRIES]) ==> IsTable(mem, t)
  {
    Store(Prepared(mem, d, p / ENTRIES, t, UserBit(flags)), t, p % ENTRIES, phys + flags)
  }

  /** Page `p` may be written: it is mapped, and both the directory entry and the table entry allow it. */
  predicate WritablePage(mem: Mem, d: int, p: int)
    requires IsTable(mem, d) && 0 <= p < PAGES
  {
    && Present(mem[d][p / ENTRIES]) && WriteBit(mem[d][p / ENTRIES])
    && Present(Pte(mem, d, p)) && WriteBit(Pte(mem, d, p))
  }

  /** User code may touch page `p`: both the directory entry and the table entry allow it. */
  predicate UserPage(mem: Mem, d: int, p: int)
    requires IsTable(mem, d) && 0 <= p < PAGES
  {
    && Present(mem[d][p / ENTRIES]) && UserBit(mem[d][p / ENTRIES])
    && Present(Pte(mem, d, p)) && UserBit(Pte(mem, d, p))
  }

  lemma BitOf(x: int)
    ensures (x / 2 % 2 == 1 <==> WriteBit(x)) && (x / 4 % 2 == 1 <==> UserBit(x))
  {
    var k, m := x / 8, x % 8;
    OctalParts(x, k, m);
    assert x / 2 == 4 * k + m / 2 && x / 4 == 2 * k + m / 4;
  }

  lemma LowBits(x: int, q: int, r: int)
    requires x == PAGE_SIZE * q + r && 0 <= r < PAGE_SIZE
    ensures x % PAGE_SIZE == r && x % 8 == r % 8 && x % 4 == r % 4 && x % 2 == r % 2
  {
    OctalParts(x, 512 * q + r / 8, r % 8);
    OctalParts(r, r / 8, r % 8);
  }

  lemma MapFlagsIs(flags: u32)
    ensures var r := flags % PAGE_SIZE; MapFlags(flags) == if r % 2 == 0 then r + 1 else r
  {
    var q, r := flags / PAGE_SIZE, flags % PAGE_SIZE;
    LowBits(flags, q, r);
    if r % 2 == 0 {
      LowBits(flags + 1, q, r + 1);
    }
  }

  lemma FlagBits(flags: u32)
    ensures WriteBit(MapFlags(flags)) <==> flags / 2 % 2 == 1
    ensures UserBit(MapFlags(flags)) <==> flags / 4 % 2 == 1
  {
    hide MapFlags;
    BitOf(flags);
    MapFlagsIs(flags);
    var r := flags % PAGE_SIZE;
    LowBits(flags, flags / PAGE_SIZE, r);
    OctalParts(r, r / 8, r % 8);
    if r % 2 == 0 {
      OctalParts(r + 1, r / 8, r % 8 + 1);
    }
  }

  lemma EntryFirst(mem: Mem, d: int, p: int)
    requires IsTable(mem, d) && 0 <= p < PAGES && Present(Pte(mem, d, p))
    ensures Present(mem[d][p / ENTRIES])
  {
    assert !Present(0);
  }

  /**
   What a mapped page allows: it leads to its frame, may be written exactly when bit 1 of the flags is set and the
   directory entry allows it, and touched by user code exactly when bit 2 is set.
   */
  lemma MappedAccess(mem: Mem, dirs: set<int>, home: map<int, int>, d: int, p: int, t: int, phys: int, flags: u32)
    requires WellFormed(mem, dirs, home) && d in dirs && 0 <= p < PAGES && phys % PAGE_SIZE == 0
    requires if Present(mem[d][p / ENTRIES]) then t == Base(mem[d][p / ENTRIES]) else Unused(dirs, home, t)
    ensures t != d && var m := Mapped(mem, d, p, t, phys, MapFlags(flags));
            && IsTable(m, d) && Present(Pte(m, d, p)) && Base(Pte(m, d, p)) == phys
            && (WritablePage(m, d, p) <==>
                  flags / 2 % 2 == 1 && (Present(mem[d][p / ENTRIES]) ==> WriteBit(mem[d][p / ENTRIES])))
            && (UserPage(m, d, p) <==> flags / 4 % 2 == 1)
  {
    hide MapFlags;
    var f := MapFlags(flags);
    FlagBits(flags);
    FlaggedWord(phys, f);
    if !Present(mem[d][p / ENTRIES]) {
      FlaggedWord(t, if UserBit(f) then USER_FLAGS else KERNEL_FLAGS);
    }
    var m := Mapped(mem, d, p, t, phys, f);
    assert Present(m[d][p / ENTRIES]) && Base(m[d][p / ENTRIES]) == t;
    assert Pte(m, d, p) == phys + f;
  }

  ghost function UserPages(mem: Mem, d: int): set<int>
    requires IsTable(mem, d)
  {
    set p | 0 <= p < PAGES && UserPage(mem, d, p)
  }

  lemma UserPagesHas(mem: Mem, d: int, p: int)
    requires IsTable(mem, d) && 0 <= p < PAGES
    ensures p in UserPages(mem, d) <==> UserPage(mem, d, p)
  {
  }

  /** Every byte of a range lies on one of the pages. */
  ghost predicate AllBytes(start: int, size: int, pages: set<int>) {
    forall a :: start <= a < start + size ==> a / PAGE_SIZE in pages
  }

  /** Checking one page at a time checks every byte. */
  lemma PagesCoverBytes(start: int, size: int, pages: set<int>)
    requires 0 <= start && 0 < size
    ensures AllBytes(start, size, pages) <==>
            forall p :: start / PAGE_SIZE <= p <= (start + size - 1) / PAGE_SIZE ==> p in pages
  {
    var first, last := start / PAGE_SIZE, (start + size - 1) / PAGE_SIZE;
    if AllBytes(start, size, pages) {
      forall p | first <= p <= last
        ensures p in pages
      {
        var a := if p == first then start else p * PAGE_SIZE;
        assert start <= a < start + size && a / PAGE_SIZE == p;
      }
    }
    if forall p :: first <= p <= last ==> p in pages {
      forall a | start <= a < start + size
        ensures a / PAGE_SIZE in pages
      {
        assert first <= a / PAGE_SIZE <= last;
      }
    }
  }

  // The identity map set up at boot

  const DIR_SPAN := 0x40_0000

  /** The end of the memory to map: at least 4 MiB. */
  function IdentityEnd(highest: u32): (end: u32) {
    var end := AlignUp4k(highest);
    if end < DIR_SPAN then DIR_SPAN else end
  }

  /** How many directory entries the boot code fills; the rounding addition can wrap. */
  function DirCount(end: u32): (n: int)
    ensures 0 <= n < ENTRIES
  {
    Wrap32(end + 0x3F_FFFF) / DIR_SPAN
  }

  function IdentityWord(pd: int, e: int, end: int): int {
    var phys := pd * DIR_SPAN + e * PAGE_SIZE;
    if phys < end then phys + KERNEL_FLAGS else 0
  }

  function IdentityTable(pd: int, end: int): (t: seq<int>) {
    seq(ENTRIES, e => IdentityWord(pd, e, end))
  }

  ghost function IdentityView(end: int): map<int, int> {
    map p | 0 <= p < PAGES && p * PAGE_SIZE < end :: p * PAGE_SIZE + KERNEL_FLAGS
  }

  /** The wrap happens exactly when memory reaches above the last 4 MiB, and then nothing is mapped. */
  lemma DirCountExact(highest: u32)
    ensures highest <= 0xFFC0_0000 ==>
              var end := IdentityEnd(highest);
              && end <= DirCount(end) * DIR_SPAN < end + DIR_SPAN && end % PAGE_SIZE == 0
              && highest <= end && 0x40_0000 <= end && (end < highest + PAGE_SIZE || end == 0x40_0000)
    ensures 0xFFC0_0000 < highest <= 0xFFFF_F000 ==> DirCount(IdentityEnd(highest)) == 0
  {
  }

  /** A kernel directory under construction: the first `|tables|` entries hold identity tables. */
  ghost predicate Building(mem: Mem, home: map<int, int>, k: int, tables: seq<int>, end: int) {
    && IsTable(mem, k) && |tables| <= ENTRIES && k !in home
    && (forall i :: 0 <= i < |tables| ==>
          && mem[k][i] == tables[i] + KERNEL_FLAGS && tables[i] % PAGE_SIZE == 0
          && tables[i] in home && home[tables[i]] == i
          && tables[i] in mem && mem[tables[i]] == IdentityTable(i, end))
    && (forall i :: |tables| <= i < ENTRIES ==> mem[k][i] == 0)
    && (forall t :: t in home ==> 0 <= home[t] < |tables| && tables[home[t]] == t)
  }

  lemma BuildStep(mem: Mem, home: map<int, int>, k: int, tables: seq<int>, end: int, t: int)
    requires Building(mem, home, k, tables, end) && |tables| < ENTRIES
    requires t != k && t !in home && t % PAGE_SIZE == 0
    ensures Building(mem[t := IdentityTable(|tables|, end)][k := mem[k][|tables| := t + KERNEL_FLAGS]],
                     home[t := |tables|], k, tables + [t], end)
  {
  }

  lemma BuiltWellFormed(mem: Mem, home: map<int, int>, k: int, tables: seq<int>, end: int)
    requires Building(mem, home, k, tables, end)
    ensures WellFormed(mem, {k}, home)
  {
    forall i | 0 <= i < |tables|
      ensures Base(mem[k][i]) == tables[i]
    {
      FlaggedWord(tables[i], KERNEL_FLAGS);
    }
    assert !Present(0);
  }

  lemma BuiltPte(mem: Mem, home: map<int, int>, k: int, tables: seq<int>, end: int, p: int)
    requires Building(mem, home, k, tables, end) && 0 <= p < PAGES
    ensures Pte(mem, k, p) ==
            if p / ENTRIES < |tables| && p * PAGE_SIZE < end then p * PAGE_SIZE + KERNEL_FLAGS else 0
  {
    var i := p / ENTRIES;
    if i < |tables| {
      FlaggedWord(tables[i], KERNEL_FLAGS);
      assert i * DIR_SPAN + p % ENTRIES * PAGE_SIZE == p * PAGE_SIZE;
    } else {
      assert mem[k][i] == 0;
    }
  }

  /** The finished directory maps every page below the end to itself. */
  lemma BuiltView(mem: Mem, home: map<int, int>, k: int, tables: seq<int>, end: int)
    requires Building(mem, home, k, tables, end)
    ensures View(mem, k) == map p | p in IdentityView(end) && p / ENTRIES < |tables| :: p * PAGE_SIZE + KERNEL_FLAGS
  {
    assert IsTable(mem, k);
    hide Pte, Building;
    forall p | 0 <= p < PAGES
      ensures Pte(mem, k, p) ==
              if p / ENTRIES < |tables| && p * PAGE_SIZE < end then p * PAGE_SIZE + KERNEL_FLAGS else 0
    {
      BuiltPte(mem, home, k, tables, end, p);
    }
    forall q | 0 <= q < PAGES
      ensures Present(q * PAGE_SIZE + KERNEL_FLAGS)
    {
      FlaggedWord(q * PAGE_SIZE, KERNEL_FLAGS);
    }
  }

  /** Directories with the same entry translate the pages under it alike. */
  lemma SharedPte(mem: Mem, d: int, e: int, p: int)
    requires IsTable(mem, d) && IsTable(mem, e) && 0 <= p < PAGES && mem[d][p / ENTRIES] == mem[e][p / ENTRIES]
    ensures p in View(mem, d) <==> p in View(mem, e)
    ensures p in View(mem, d) ==> View(mem, d)[p] == View(mem, e)[p]
  {
  }

  /** Only the words of table `t` may differ. */
  ghost predicate OnlyTable(m: Mem, m': Mem, t: int) {
    && m'.Keys == m.Keys
    && forall f :: f in m && f != t ==> m'[f] == m[f]
  }

  /** A write to a table that serves entry `i` shows only in pages under that entry. */
  lemma OtherPages(m: Mem, m': Mem, dirs: set<int>, home: map<int, int>, t: int, d: int, p: int)
    requires WellFormed(m, dirs, home) && WellFormed(m', dirs, home) && OnlyTable(m, m', t)
    requires t in home && d in dirs && 0 <= p < PAGES && p / ENTRIES != home[t]
    ensures Pte(m', d, p) == Pte(m, d, p)
    ensures p in View(m', d) <==> p in View(m, d)
  {
  }

  lemma AbsentEntry(mem: Mem, d: int, i: int)
    requires IsTable(mem, d) && 0 <= i < ENTRIES && !Present(mem[d][i])
    ensures forall p :: i * ENTRIES <= p < (i + 1) * ENTRIES ==> p !in View(mem, d)
  {
  }

  // The kernel directory at boot

  /** No entry is for user code, and the entries from `n` on are empty. */
  ghost predicate PlainDirectory(mem: Mem, k: int, n: int) {
    && IsTable(mem, k)
    && forall i :: 0 <= i < ENTRIES ==>
         !UserBit(mem[k][i]) && (i >= n ==> mem[k][i] == 0) && (Present(mem[k][i]) ==> WriteBit(mem[k][i]))
  }

  lemma BuiltPlain(mem: Mem, home: map<int, int>, k: int, tables: seq<int>, end: int)
    requires Building(mem, home, k, tables, end)
    ensures PlainDirectory(mem, k, |tables|)
  {
    forall i | 0 <= i < |tables|
      ensures !UserBit(mem[k][i]) && WriteBit(mem[k][i])
    {
      FlaggedWord(tables[i], KERNEL_FLAGS);
    }
  }

  /** A directory kept every entry but one. */
  ghost predicate RowKept(mem: Mem, mem': Mem, d: int, i: int) {
    IsTable(mem, d) && IsTable(mem', d) && forall j :: 0 <= j < ENTRIES && j != i ==> mem'[d][j] == mem[d][j]
  }

  lemma MappedRow(mem: Mem, d: int, p: int, t: int, phys: int, flags: int)
    requires IsTable(mem, d) && 0 <= p < PAGES && t != d && (Present(mem[d][p / ENTRIES]) ==> IsTable(mem, t))
    ensures RowKept(mem, Mapped(mem, d, p, t, phys, flags), d, p / ENTRIES)
  {
  }
}
