/** The page-table manager: directories and tables live in frames taken from the frame allocator. */
module PagingModel {
  import opened Words
  import opened PagingSpec
  import opened PmmModel

  class Paging {
    const pmm: Pmm
    /** The address of the statically allocated kernel directory. */
    const kernelPage: u32

    var mem: Mem
    var enabled: bool
    var kernelDir: u32
    var currentDir: u32

    /** The live directories, and for each live table the index it serves. */
    ghost var dirs: set<int>
    ghost var home: map<int, int>

    constructor (pmm: Pmm, kernelPage: u32)
      requires kernelPage % PAGE_SIZE == 0 && kernelPage != 0
      ensures this.pmm == pmm && this.kernelPage == kernelPage && !enabled
    {
      this.pmm, this.kernelPage := pmm, kernelPage;
      mem, enabled, kernelDir, currentDir := map[], false, 0, 0;
      dirs, home := {}, map[];
    }

    /** Every directory and table sits in a frame that the allocator counts as used. */
    ghost predicate Backed()
      reads this, pmm
    {
      forall f :: f in dirs || f in home ==>
        f == kernelPage || (f in pmm.managed && f !in pmm.free)
    }

    ghost predicate Valid()
      reads this, pmm, pmm.bitmap
    {
      && pmm.Valid()
      && enabled
      && kernelPage % PAGE_SIZE == 0 && kernelPage != 0 && kernelPage !in pmm.managed
      && kernelDir == kernelPage
      && kernelDir in dirs && currentDir in dirs
      && WellFormed(mem, dirs, home)
      && Backed()
    }

    function ActiveDirectory(): u32
      reads this
    {
      if currentDir == 0 then kernelPage else currentDir
    }

    /** A zeroed table in a fresh frame; 0 when there is no frame left. */
    method AllocTable() returns (t: u32)
      requires Valid()
      modifies this, pmm, pmm.bitmap
      ensures Valid()
      ensures enabled == old(enabled) && kernelDir == old(kernelDir) && currentDir == old(currentDir)
      ensures dirs == old(dirs) && home == old(home) && pmm.managed == old(pmm.managed)
      ensures t == 0 <==> old(pmm.free) == {}
      ensures t == 0 ==> mem == old(mem) && pmm.free == old(pmm.free)
      ensures t != 0 ==> t in old(pmm.free) && pmm.free == old(pmm.free) - {t}
      ensures t != 0 ==> t !in dirs && t !in home && t % PAGE_SIZE == 0
      ensures t != 0 ==> mem == old(mem)[t := Zeros()]
    {
      hide Pmm.Consistent;
      t := pmm.AllocFrame();
      if t == 0 {
        return;
      }
      mem := mem[t := Zeros()];
    }

    /**
     Makes sure that entry `i` of the active directory refers to a table, and marks the entry
     as user-accessible when asked. No translation changes in any directory.
     */
    method InstallTable(i: int, user: bool) returns (ok: bool, ghost t: int)
      requires Valid() && 0 <= i < ENTRIES
      modifies this, pmm, pmm.bitmap
      ensures Valid()
      ensures kernelDir == old(kernelDir) && currentDir == old(currentDir)
      ensures dirs == old(dirs) && pmm.managed == old(pmm.managed)
      ensures ok <==> Present(old(mem)[currentDir][i]) || old(pmm.free) != {}
      ensures !ok ==> mem == old(mem) && home == old(home) && pmm.free == old(pmm.free)
      ensures ok && Present(old(mem)[currentDir][i]) ==>
                t == Base(old(mem)[currentDir][i]) && home == old(home) && pmm.free == old(pmm.free)
      ensures ok && !Present(old(mem)[currentDir][i]) ==>
                t in old(pmm.free) && Unused(dirs, old(home), t) && home == old(home)[t := i]
                && pmm.free == old(pmm.free) - {t}
      ensures ok ==> t != currentDir && mem == Prepared(old(mem), currentDir, i, t, user)
      ensures ok ==> t in home && home[t] == i && Reaches(mem, home, currentDir, t)
      ensures forall d :: d in dirs ==> View(mem, d) == View(old(mem), d)
    {
      hide Pmm.Consistent, View;
      var d := ActiveDirectory();
      ok := true;
      if !Present(mem[d][i]) {
        var frame := AllocTable();
        t := frame;
        if frame == 0 {
          ok := false;
          return;
        }
        var flags := if user then USER_FLAGS else KERNEL_FLAGS;
        mem := mem[d := mem[d][i := frame + flags]];
        home := home[t := i];
      } else {
        t := Base(mem[d][i]);
        if user {
          mem := Store(mem, d, i, WithUser(mem[d][i]));
        }
      }
      assert mem == Prepared(old(mem), d, i, t, user);
      forall e | e in dirs
        ensures WellFormed(Prepared(old(mem), d, i, t, user), dirs, old(home)[t := i])
        ensures Reaches(Prepared(old(mem), d, i, t, user), old(home)[t := i], d, t)
        ensures IsTable(old(mem), e) && IsTable(mem, e) && View(mem, e) == View(old(mem), e)
      {
        PreparedView(old(mem), dirs, old(home), d, i, t, user, e);
      }
    }

    /** What the active directory held in entry `i`. */
    function ActiveEntry(i: int): int
      requires IsTable(mem, currentDir) && 0 <= i < ENTRIES
      reads this
    {
      mem[currentDir][i]
    }

    /**
     Maps one page in the active directory. Every directory that shares the table sees the
     new page and nothing else; a refused call changes no translation at all, but a refused user
     mapping under a present entry has opened that entry to user code.
     */
    method MapPage(virt: u32, phys: u32, flags: u32) returns (ok: bool, ghost t: int)
      requires enabled ==> Valid()
      modifies this, pmm, pmm.bitmap
      ensures enabled == old(enabled) && (enabled ==> Valid())
      ensures kernelDir == old(kernelDir) && currentDir == old(currentDir)
      ensures dirs == old(dirs) && pmm.managed == old(pmm.managed)
      ensures ok <==> enabled && virt % PAGE_SIZE == 0 && phys % PAGE_SIZE == 0
                      && virt / PAGE_SIZE !in View(old(mem), old(currentDir))
                      && (Present(old(ActiveEntry(virt / PAGE_SIZE / ENTRIES))) || old(pmm.free) != {})
      // every directory gains this one page, or nothing
      ensures enabled && !ok ==> forall d :: d in dirs ==> View(mem, d) == View(old(mem), d)
      ensures ok ==> t in home && Reaches(mem, home, currentDir, t) && forall d :: d in dirs ==>
                View(mem, d) == if Reaches(mem, home, d, t)
                                then View(old(mem), d)[virt / PAGE_SIZE := phys + MapFlags(flags)]
                                else View(old(mem), d)
      // the memory and frames behind it
      ensures !ok ==> home == old(home) && pmm.free == old(pmm.free)
      ensures enabled && !ok && !Present(old(ActiveEntry(virt / PAGE_SIZE / ENTRIES))) ==> mem == old(mem)
      ensures enabled && !ok && (virt % PAGE_SIZE != 0 || phys % PAGE_SIZE != 0) ==> mem == old(mem)
      ensures enabled && !ok && virt % PAGE_SIZE == 0 && phys % PAGE_SIZE == 0 ==>
                Present(old(ActiveEntry(virt / PAGE_SIZE / ENTRIES))) ==>
                && t != currentDir
                && mem == Prepared(old(mem), currentDir, virt / PAGE_SIZE / ENTRIES, t, UserBit(MapFlags(flags)))
      ensures ok && Present(old(ActiveEntry(virt / PAGE_SIZE / ENTRIES))) ==>
                && t == Base(old(ActiveEntry(virt / PAGE_SIZE / ENTRIES)))
                && home == old(home) && pmm.free == old(pmm.free)
      ensures ok && !Present(old(ActiveEntry(virt / PAGE_SIZE / ENTRIES))) ==>
                t in old(pmm.free) && Unused(dirs, old(home), t) && pmm.free == old(pmm.free) - {t}
                && home == old(home)[t := virt / PAGE_SIZE / ENTRIES]
      ensures ok ==> t != currentDir && t in mem
                     && mem == Mapped(old(mem), currentDir, virt / PAGE_SIZE, t, phys, MapFlags(flags))
    {
      hide Pmm.Consistent, View;
      ok, t := false, 0;
      if !enabled {
        return;
      }
      if virt % PAGE_SIZE != 0 || phys % PAGE_SIZE != 0 {
        return;
      }
      var p, f := virt / PAGE_SIZE, MapFlags(flags);
      ok, t := InstallTable(p / ENTRIES, UserBit(f));
      if !ok {
        return;
      }
      var table := Base(mem[ActiveDirectory()][p / ENTRIES]);
      assert table == t;
      ViewMember(mem, currentDir, p);
      if Present(mem[table][p % ENTRIES]) {
        ok := false;
        return;
      }
      WriteEntry(table, p % ENTRIES, phys + f);
      FlaggedWord(phys, f);
    }

    /** Writes one table entry: directories that share the table see the change, others do not. */
    method WriteEntry(t: int, j: int, w: int)
      requires Valid() && t in home && 0 <= j < ENTRIES
      modifies this
      ensures Valid()
      ensures enabled == old(enabled) && kernelDir == old(kernelDir) && currentDir == old(currentDir)
      ensures dirs == old(dirs) && home == old(home) && mem == Store(old(mem), t, j, w)
      ensures forall d :: d in dirs ==> Reaches(mem, home, d, t) == old(Reaches(mem, home, d, t))
      ensures forall d :: d in dirs ==>
                View(mem, d) == if !Reaches(mem, home, d, t) then View(old(mem), d)
                             else if Present(w) then View(old(mem), d)[home[t] * ENTRIES + j := w]
                             else View(old(mem), d) - {home[t] * ENTRIES + j}
    {
      hide Pmm.Consistent, View;
      StoreWellFormed(mem, dirs, home, t, j, w);
      forall d | d in dirs
        ensures IsTable(mem, d)
        ensures View(Store(mem, t, j, w), d) ==
                if !Reaches(mem, home, d, t) then View(mem, d)
                else if Present(w) then View(mem, d)[home[t] * ENTRIES + j := w]
                else View(mem, d) - {home[t] * ENTRIES + j}
      {
        StoreView(mem, dirs, home, t, j, w, d);
      }
      mem := Store(mem, t, j, w);
    }

    /** Removes one page from the active directory, and from every directory that shares the table. */
    method UnmapPage(virt: u32) returns (ok: bool)
      requires enabled ==> Valid()
      modifies this
      ensures enabled == old(enabled) && (enabled ==> Valid())
      ensures kernelDir == old(kernelDir) && currentDir == old(currentDir)
      ensures dirs == old(dirs) && home == old(home)
      ensures ok <==> enabled && virt % PAGE_SIZE == 0 && virt / PAGE_SIZE in View(old(mem), old(currentDir))
      ensures !ok ==> mem == old(mem)
      ensures ok ==>
                var t := Base(old(ActiveEntry(virt / PAGE_SIZE / ENTRIES)));
                && t in home && Reaches(mem, home, currentDir, t) && IsTable(old(mem), t)
                && mem == Store(old(mem), t, virt / PAGE_SIZE % ENTRIES, 0)
                && forall d :: d in dirs ==>
                     View(mem, d) == if Reaches(mem, home, d, t) then View(old(mem), d) - {virt / PAGE_SIZE}
                                  else View(old(mem), d)
    {
      hide Pmm.Consistent, View;
      if !enabled {
        return false;
      }
      if virt % PAGE_SIZE != 0 {
        return false;
      }
      var d, p := ActiveDirectory(), virt / PAGE_SIZE;
      ViewMember(mem, d, p);
      if !Present(mem[d][p / ENTRIES]) {
        return false;
      }
      var table := Base(mem[d][p / ENTRIES]);
      if !Present(mem[table][p % ENTRIES]) {
        return false;
      }
      WriteEntry(table, p % ENTRIES, 0);
      ok := true;
    }

    ghost predicate Shape()
      reads this
    {
      WellFormed(mem, dirs, home) && currentDir in dirs && currentDir != 0
    }

    /** Looks an address up in the active directory: the frame of its page plus the offset. */
    function Translate(virt: u32): (r: Option<int>)
      requires enabled ==> Shape()
      reads this
      ensures r.Some? <==> enabled && virt / PAGE_SIZE in View(mem, currentDir)
      ensures r.Some? ==> r.value == Base(View(mem, currentDir)[virt / PAGE_SIZE]) + virt % PAGE_SIZE
    {
      if !enabled then None
      else
        assert IsTable(mem, currentDir);
        var pde := mem[currentDir][virt / PAGE_SIZE / ENTRIES];
        if !Present(pde) then None
        else
          var pte := mem[Base(pde)][virt / PAGE_SIZE % ENTRIES];
          if !Present(pte) then None else Some(Base(pte) + virt % PAGE_SIZE)
    }

    /** Accepts a byte range exactly when it does not wrap and every byte is user-accessible. */
    method UserAccessible(virt: u32, size: u32) returns (ok: bool)
      requires enabled ==> Shape()
      ensures ok <==> enabled && size > 0 && virt + size <= U32_LIMIT
                      && AllBytes(virt, size, UserPages(mem, currentDir))
    {
      hide Pmm.Consistent, UserPages, UserPage, AllBytes, WellFormed;
      if !enabled || size == 0 {
        return false;
      }
      if virt > U32_MAX - (size - 1) {
        return false;
      }
      DirIsTable();
      var last := AlignDown4k(virt + size - 1);
      var page: int := AlignDown4k(virt);
      ghost var pages := UserPages(mem, currentDir);
      PagesCoverBytes(virt, size, pages);
      var d := ActiveDirectory();
      while true
        invariant page % PAGE_SIZE == 0 && AlignDown4k(virt) <= page <= last
        invariant forall p :: virt / PAGE_SIZE <= p < page / PAGE_SIZE ==> p in pages
        decreases last - page
      {
        UserPagesHas(mem, d, page / PAGE_SIZE);
        ok := PageIsUser(d, page / PAGE_SIZE);
        if !ok {
          return;
        }
        if page >= last {
          return;
        }
        assert (page + PAGE_SIZE) / PAGE_SIZE == page / PAGE_SIZE + 1;
        page := page + PAGE_SIZE;
      }
    }

    lemma DirIsTable()
      requires Shape()
      ensures IsTable(mem, currentDir)
    {
    }

    predicate PageIsUser(d: int, p: int)
      requires WellFormed(mem, dirs, home) && d in dirs && 0 <= p < PAGES
      reads this
      ensures PageIsUser(d, p) == UserPage(mem, d, p)
    {
      var pde := mem[d][p / ENTRIES];
      if !(Present(pde) && UserBit(pde)) then false
      else
        var pte := mem[Base(pde)][p % ENTRIES];
        Present(pte) && UserBit(pte)
    }

    /** A new directory that shares the kernel tables and holds no user entry. */
    method CloneKernelDirectory() returns (ok: bool, frame: u32)
      requires enabled ==> Valid()
      modifies this, pmm, pmm.bitmap
      ensures enabled == old(enabled) && (enabled ==> Valid())
      ensures kernelDir == old(kernelDir) && currentDir == old(currentDir) && pmm.managed == old(pmm.managed)
      ensures home == old(home)
      ensures ok <==> enabled && old(pmm.free) != {}
      ensures !ok ==> mem == old(mem) && dirs == old(dirs) && pmm.free == old(pmm.free)
      ensures ok ==> frame in old(pmm.free) && pmm.free == old(pmm.free) - {frame}
      ensures ok ==> frame !in old(dirs) && frame !in home && dirs == old(dirs) + {frame}
      ensures ok ==> mem == old(mem)[frame := CloneOf(old(mem)[kernelDir])]
      ensures ok ==> forall d :: d in old(dirs) ==> View(mem, d) == View(old(mem), d)
      ensures ok ==> View(mem, frame) ==
                     map p | p in View(old(mem), old(kernelDir)) && !UserBit(old(mem)[kernelDir][p / ENTRIES])
                     :: View(old(mem), old(kernelDir))[p]
    {
      hide Pmm.Consistent, View;
      ok, frame := false, 0;
      if !enabled {
        return;
      }
      frame := pmm.AllocFrame();
      if frame == 0 {
        return;
      }
      var copy := CopyKernelEntries(mem[kernelDir]);
      CloneWellFormed(mem, dirs, home, kernelDir, frame);
      CloneView(mem, dirs, home, kernelDir, frame);
      forall d | d in dirs
        ensures IsTable(mem, d) && View(mem[frame := copy], d) == View(mem, d)
      {
        CloneKeepsView(mem, dirs, home, kernelDir, frame, d);
      }
      mem, dirs := mem[frame := copy], dirs + {frame};
      ok := true;
    }

    static method CopyKernelEntries(dir: seq<int>) returns (copy: seq<int>)
      requires |dir| == ENTRIES
      ensures copy == CloneOf(dir)
    {
      copy := [];
      for i := 0 to ENTRIES
        invariant |copy| == i && forall k :: 0 <= k < i ==> copy[k] == if UserBit(dir[k]) then 0 else dir[k]
      {
        copy := copy + [if UserBit(dir[i]) then 0 else dir[i]];
      }
    }

    method SwitchDirectory(dir: u32)
      modifies this
      ensures mem == old(mem) && enabled == old(enabled) && kernelDir == old(kernelDir)
      ensures dirs == old(dirs) && home == old(home)
      ensures currentDir == if enabled && dir != 0 && dir % PAGE_SIZE == 0 then dir else old(currentDir)
      ensures old(Valid()) && currentDir in dirs ==> Valid()
    {
      hide Pmm.Consistent;
      if !enabled || dir == 0 {
        return;
      }
      if dir % PAGE_SIZE != 0 {
        return;
      }
      currentDir := dir;
    }

    // Frames handed out and taken back while page tables are live

    method TakeFrame() returns (frame: u32)
      requires Valid()
      modifies pmm, pmm.bitmap
      ensures Valid() && pmm.managed == old(pmm.managed)
      ensures frame == 0 <==> old(pmm.free) == {}
      ensures frame == 0 ==> pmm.free == old(pmm.free)
      ensures frame != 0 ==> frame in old(pmm.free) && pmm.free == old(pmm.free) - {frame}
      ensures frame != 0 ==> Unused(dirs, home, frame) && frame in pmm.managed
    {
      hide Pmm.Consistent;
      frame := pmm.AllocFrame();
    }

    method ReturnFrame(frame: u32)
      requires Valid() && frame !in dirs && frame !in home
      modifies pmm, pmm.bitmap
      ensures Valid() && pmm.managed == old(pmm.managed)
      ensures pmm.free == if frame in pmm.managed then old(pmm.free) + {frame} else old(pmm.free)
    {
      hide Pmm.Consistent;
      var ok := pmm.FreeFrame(frame);
    }

    /** Retires a directory that is neither the kernel's nor loaded. */
    method ReturnDirectory(d: u32)
      requires Valid() && d in dirs && d != kernelDir && d != currentDir
      modifies this, pmm, pmm.bitmap
      ensures Valid() && pmm.managed == old(pmm.managed)
      ensures kernelDir == old(kernelDir) && currentDir == old(currentDir)
      ensures mem == old(mem) && home == old(home) && dirs == old(dirs) - {d}
      ensures pmm.free == old(pmm.free) + {d}
    {
      hide Pmm.Consistent;
      dirs := dirs - {d};
      ReturnFrame(d);
    }

    static method TableIsEmpty(table: seq<int>) returns (empty: bool)
      requires |table| == ENTRIES
      ensures empty <==> EmptyTable(table)
    {
      for i := 0 to ENTRIES
        invariant forall j :: 0 <= j < i ==> !Present(table[j])
      {
        if Present(table[i]) {
          return false;
        }
      }
      return true;
    }

    /** No other directory uses the table behind entry `i` of `d`. */
    ghost predicate PrivateTable(d: int, i: int)
      requires WellFormed(mem, dirs, home) && d in dirs && 0 <= i < ENTRIES
      reads this
    {
      Present(mem[d][i]) ==>
        forall x :: x in dirs && x != d ==> !Reaches(mem, home, x, Base(mem[d][i]))
    }

    /** Gives back the table behind a user entry once it maps nothing; no translation changes. */
    method ReleaseUserTable(cr3: u32, virt: u32) returns (ghost freed: bool)
      requires Valid() && (cr3 != 0 ==> cr3 in dirs && PrivateTable(cr3, virt / PAGE_SIZE / ENTRIES))
      modifies this, pmm, pmm.bitmap
      ensures Valid() && pmm.managed == old(pmm.managed)
      ensures kernelDir == old(kernelDir) && currentDir == old(currentDir) && dirs == old(dirs)
      ensures freed <==> cr3 != 0 && Releasable(old(mem), cr3, virt / PAGE_SIZE / ENTRIES)
      ensures !freed ==> mem == old(mem) && home == old(home) && pmm.free == old(pmm.free)
      ensures freed ==>
                var t := Base(old(mem)[cr3][virt / PAGE_SIZE / ENTRIES]);
                && mem == Store(old(mem), cr3, virt / PAGE_SIZE / ENTRIES, 0)
                && home == old(home) - {t} && pmm.free == old(pmm.free) + {t}
      ensures forall d :: d in dirs ==> View(mem, d) == View(old(mem), d)
    {
      hide Pmm.Consistent, View;
      freed := false;
      if cr3 == 0 {
        return;
      }
      var i := virt / PAGE_SIZE / ENTRIES;
      if !Present(mem[cr3][i]) {
        return;
      }
      if !UserBit(mem[cr3][i]) {
        return;
      }
      var table := Base(mem[cr3][i]);
      var empty := TableIsEmpty(mem[table]);
      if empty {
        freed := true;
        forall e | e in dirs
          ensures WellFormed(Store(mem, cr3, i, 0), dirs, home - {table})
          ensures IsTable(mem, e) && View(Store(mem, cr3, i, 0), e) == View(mem, e)
        {
          UnlinkView(mem, dirs, home, cr3, i, e);
        }
        mem := Store(mem, cr3, i, 0);
        home := home - {table};
        ReturnFrame(table);
      }
    }

    // Boot

    static method FillIdentity(pd: int, end: int) returns (table: seq<int>)
      ensures table == IdentityTable(pd, end)
    {
      table := [];
      for e := 0 to ENTRIES
        invariant |table| == e && forall k :: 0 <= k < e ==> table[k] == IdentityWord(pd, k, end)
      {
        table := table + [IdentityWord(pd, e, end)];
      }
    }

    /**
     Builds the identity map and turns paging on. Memory above 0xFFC00000 makes the entry count
     wrap to 0: then paging is turned on over an empty directory.
     */
    method Init()
      requires !enabled && (pmm.initialized ==> pmm.Valid())
      requires kernelPage % PAGE_SIZE == 0 && kernelPage != 0 && kernelPage !in pmm.managed
      modifies this, pmm, pmm.bitmap
      ensures pmm.initialized == old(pmm.initialized) && (pmm.initialized ==> pmm.Valid())
      ensures pmm.highestEnd == old(pmm.highestEnd)
      ensures enabled <==> pmm.initialized && DirCount(IdentityEnd(pmm.highestEnd)) <= |old(pmm.free)|
      ensures enabled ==> Valid() && dirs == {kernelDir} && currentDir == kernelDir && pmm.managed == old(pmm.managed)
      ensures enabled ==> PlainDirectory(mem, kernelDir, DirCount(IdentityEnd(pmm.highestEnd)))
      ensures enabled ==> |pmm.free| == |old(pmm.free)| - DirCount(IdentityEnd(pmm.highestEnd))
      ensures enabled && pmm.highestEnd <= 0xFFC0_0000 ==>
              View(mem, kernelDir) == IdentityView(IdentityEnd(pmm.highestEnd))
      ensures enabled && 0xFFC0_0000 < pmm.highestEnd <= 0xFFFF_F000 ==> View(mem, kernelDir) == map[]
    {
      hide Pmm.Consistent, View, Pte, Building, IdentityEnd, DirCount;
      mem := mem[kernelPage := Zeros()];
      if !pmm.initialized {
        return;
      }
      var end := IdentityEnd(pmm.highestEnd);
      var count := DirCount(end);
      var ok, tables := BuildTables(end, count);
      if !ok {
        return;
      }
      BuiltWellFormed(mem, home, kernelPage, tables, end);
      BuiltView(mem, home, kernelPage, tables, end);
      BuiltPlain(mem, home, kernelPage, tables, end);
      DirCountExact(pmm.highestEnd);
      kernelDir, currentDir, enabled := kernelPage, kernelPage, true;
    }

    method BuildTables(end: int, count: int) returns (ok: bool, ghost tables: seq<int>)
      requires !enabled && pmm.Valid() && 0 <= count < ENTRIES && kernelPage !in pmm.managed
      requires kernelPage in mem && mem[kernelPage] == Zeros()
      modifies this, pmm, pmm.bitmap
      ensures !enabled && pmm.Valid() && pmm.managed == old(pmm.managed) && pmm.highestEnd == old(pmm.highestEnd)
      ensures ok <==> count <= |old(pmm.free)|
      ensures ok ==> |pmm.free| == |old(pmm.free)| - count
      ensures ok ==>
              Building(mem, home, kernelPage, tables, end) && |tables| == count && dirs == {kernelPage} && Backed()
    {
      hide Pmm.Consistent, IdentityTable;
      tables := [];
      dirs, home := {kernelPage}, map[];
      ok := true;
      var pd := 0;
      while pd < count
        invariant 0 <= pd <= count && pd == |tables| && !enabled
        invariant pmm.Valid() && pmm.managed == old(pmm.managed) && pmm.highestEnd == old(pmm.highestEnd)
        invariant |pmm.free| == |old(pmm.free)| - pd
        invariant Building(mem, home, kernelPage, tables, end) && dirs == {kernelPage} && Backed()
      {
        var t := pmm.AllocFrame();
        if t == 0 {
          ok := false;
          return;
        }
        var table := FillIdentity(pd, end);
        BuildStep(mem, home, kernelPage, tables, end, t);
        mem := mem[t := table];
        mem := mem[kernelPage := mem[kernelPage][pd := t + KERNEL_FLAGS]];
        home, tables := home[t := pd], tables + [t];
        pd := pd + 1;
      }
    }
  }
}
