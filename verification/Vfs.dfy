/** The RAM file system over the kernel heap. */
module VfsModel {
  import opened Words
  import opened PagingModel
  import opened HeapSpec
  import opened GrowSpec
  import opened HeapModel
  import opened Marshex
  import opened VfsSpec

  class FileTable {
    const heap: Heap
    var files: seq<File>
    var ready: bool

    ghost var buffers: map<int, Block>
    ghost var contents: map<Str, Str>

    /** An empty table. */
    constructor (heap: Heap)
      requires heap.Valid()
      ensures this.heap == heap && ready && contents == map[] && buffers == map[] && Valid()
    {
      this.heap := heap;
      files := seq(MAX_FILES, _ => NO_FILE);
      ready := true;
      buffers, contents := map[], map[];
    }

    ghost predicate Valid()
      reads this, heap, heap.paging, heap.paging.pmm, heap.paging.pmm.bitmap
    {
      heap.Valid() && FilesOk(files, buffers, contents, Live(heap.blocks), heap.mem)
    }

    method FindFile(name: Str) returns (idx: int)
      requires |files| == MAX_FILES
      ensures idx < 0 ==> !HasFile(files, name)
      ensures idx >= 0 ==> idx < MAX_FILES && files[idx].used && files[idx].name == name
    {
      for i := 0 to MAX_FILES
        invariant forall j :: 0 <= j < i ==> !(files[j].used && files[j].name == name)
      {
        if files[i].used && files[i].name == name {
          return i;
        }
      }
      return -1;
    }

    method FindFreeSlot() returns (idx: int)
      requires |files| == MAX_FILES
      ensures idx < 0 ==> forall j :: 0 <= j < MAX_FILES ==> files[j].used
      ensures idx >= 0 ==> idx < MAX_FILES && !files[idx].used
    {
      for i := 0 to MAX_FILES
        invariant forall j :: 0 <= j < i ==> files[j].used
      {
        if !files[i].used {
          return i;
        }
      }
      return -1;
    }

    /** Copies a text and its terminator into a fresh allocation. */
    method Fill(p: int, text: Str, ghost b: Block)
      requires heap.Valid() && b in Live(heap.blocks) && p == Payload(b) && |text| < b.size
      modifies heap`mem
      ensures heap.Valid() && Holds(heap.mem, p, text)
      ensures SamePayloads(old(heap.mem), heap.mem, Live(heap.blocks) - {b})
    {
      hide Heap.Valid, Live, SamePayloads;
      AgreesPayloads(heap.mem, Live(heap.blocks) - {b});
      for i := 0 to |text|
        invariant heap.Valid()
        invariant Begun(heap.mem, p, text, i)
        invariant SamePayloads(old(heap.mem), heap.mem, Live(heap.blocks) - {b})
      {
        ghost var was := heap.mem;
        heap.Poke(b, p + i, text[i]);
        OneMore(was, p, text, i);
        PayloadsTrans(old(heap.mem), was, heap.mem, Live(heap.blocks) - {b});
      }
      ghost var was := heap.mem;
      heap.Poke(b, p + |text|, 0);
      Ended(was, p, text);
      PayloadsTrans(old(heap.mem), was, heap.mem, Live(heap.blocks) - {b});
    }

    /** Gives back the buffer of a file that is about to be replaced. */
    method DropBuffer(p: int, ghost b: Block)
      requires heap.Valid() && b in Live(heap.blocks) && p == Payload(b)
      modifies heap
      ensures heap.Valid() && Live(heap.blocks) == old(Live(heap.blocks)) - {b}
      ensures heap.frames == old(heap.frames) && heap.end == old(heap.end)
      ensures SamePayloads(old(heap.mem), heap.mem, Live(heap.blocks))
    {
      hide SamePayloads;
      OnePayload(heap.blocks, HEAP_START, heap.end, b);
      hide Heap.Valid;
      ghost var freed, k := heap.Kfree(p);
    }

    /**
     Stores a text under a name. It succeeds exactly when the table is ready, both strings are there,
     the name has 1 to 31 bytes, the heap can meet the request, and the name is known or a slot is free;
     then one key changes. Otherwise no file changes, and the buffer is given back. No other allocation
     is touched, in any case.
     */
    method WriteFile(name: Option<Str>, text: Option<Str>, ghost limit: int) returns (ok: bool, ghost n: nat)
      requires Valid() && (text.Some? ==> |text.value| < U32_MAX)
      requires text.Some? ==> heap.Room(WriteBytes(text.value), limit)
      modifies this, heap, heap.paging, heap.paging.pmm, heap.paging.pmm.bitmap
      ensures Valid() && ready == old(ready) && |old(heap.blocks)| > 0
      ensures ok <==>
                && ready && Asks(name, text)
                && Obtainable(old(heap.blocks), old(heap.Place()), AlignUp8(|text.value| + 1))
                && (name.value in old(contents) || |old(contents)| < 64)
      ensures contents == if ok then old(contents)[name.value := text.value] else old(contents)
      // the rest of the heap, and the memory behind it
      ensures OnlyFiles(old(buffers), buffers, old(Live(heap.blocks)), Live(heap.blocks))
      ensures SamePayloads(old(heap.mem), heap.mem, old(Live(heap.blocks)) * Live(heap.blocks))
      ensures heap.SameWorld() && (limit <= HEAP_LIMIT && old(heap.Shared()) ==> heap.Shared() && heap.SharedEffect())
      ensures heap.end == old(heap.end) + n * PAGE_SIZE
      ensures text.Some? ==> heap.end < old(heap.end) + WriteBytes(text.value)
      ensures if ready && Asks(name, text)
              then Grown(old(heap.blocks), old(heap.Place()), AlignUp8(|text.value| + 1), n,
                         Obtainable(old(heap.blocks), old(heap.Place()), AlignUp8(|text.value| + 1)),
                         |heap.paging.pmm.free|)
              else n == 0
    {
      hide Heap.Valid, Live, SamePayloads, SlotOk, Take, GrowN, Fits, FilesOk, Growth, SharedTables;
      hide Obtainable, Grown, Heap.Place, OnlyFiles;
      n := 0;
      HeapReady();
      AgreesPayloads(heap.mem, Live(heap.blocks) * Live(heap.blocks));
      heap.GrowthStart();
      NoChange(buffers, Live(heap.blocks));
      if !ready || text.None? {
        return false, n;
      }
      if name.None? || !NameValid(name.value) {
        return false, n;
      }
      ghost var b, k;
      var buf;
      TableSize();
      buf, b, k, n := heap.Kmalloc(|text.value| + 1, limit);
      ghost var live0, live1, m0, m1 := old(Live(heap.blocks)), Live(heap.blocks), old(heap.mem), heap.mem;
      assert live0 * live1 == live0;
      Survives(files, buffers, contents, live0, m0, live1, m1);
      if buf == 0 {
        return false, n;
      }
      ok := Store(name.value, text.value, buf, b);
      Composed(m0, m1, heap.mem, live0, live1, Live(heap.blocks), b, old(buffers), buffers);
    }

    /** Enters a filled buffer into the table, or gives it back when the table is full. */
    method Store(name: Str, text: Str, buf: int, ghost b: Block) returns (ok: bool)
      requires Valid() && b in Live(heap.blocks) && buf == Payload(b) && |text| < b.size && NameValid(name)
      requires forall i :: i in buffers ==> buffers[i] != b
      modifies `files, `buffers, `contents, heap
      ensures Valid() && (ok <==> name in old(contents) || |old(contents)| < MAX_FILES)
      ensures contents == if ok then old(contents)[name := text] else old(contents)
      ensures heap.frames == old(heap.frames) && heap.end == old(heap.end)
      ensures Placed(b, old(buffers), buffers, old(Live(heap.blocks)), Live(heap.blocks))
      ensures SamePayloads(old(heap.mem), heap.mem, Live(heap.blocks) - {b})
    {
      hide Heap.Valid, Live, SamePayloads, SlotOk, FilesOk, Placed;
      ghost var live, m0 := Live(heap.blocks), heap.mem;
      Fill(buf, text, b);
      FilledOk(live, m0, b);
      IsSlot(File(true, name, buf, |text|), b, text, heap.mem);
      ghost var m1 := heap.mem;
      ok := Place(File(true, name, buf, |text|), text, b);
      Shrunk(b, old(buffers), buffers, live, Live(heap.blocks));
      SamePart(m0, m1, live - {b}, Live(heap.blocks) - {b});
      SamePart(m1, heap.mem, Live(heap.blocks), Live(heap.blocks) - {b});
      PayloadsTrans(m0, m1, heap.mem, Live(heap.blocks) - {b});
    }

    method Place(f: File, ghost text: Str, ghost b: Block) returns (ok: bool)
      requires Valid() && b in Live(heap.blocks) && SlotOk(f, b, text, heap.mem) && f.used && NameValid(f.name)
      requires f.data == Payload(b) && forall i :: i in buffers ==> buffers[i] != b
      modifies `files, `buffers, `contents, heap
      ensures Valid() && (ok <==> f.name in old(contents) || |old(contents)| < MAX_FILES)
      ensures contents == if ok then old(contents)[f.name := text] else old(contents)
      ensures heap.frames == old(heap.frames) && heap.end == old(heap.end)
      ensures Placed(b, old(buffers), buffers, old(Live(heap.blocks)), Live(heap.blocks))
      ensures SamePayloads(old(heap.mem), heap.mem, Live(heap.blocks))
    {
      hide Heap.Valid, Live, SamePayloads, SlotOk, FilesOk, Placed;
      ghost var live, m := Live(heap.blocks), heap.mem;
      Enumeration(files, buffers, contents, live, m);
      TableSize();
      AgreesPayloads(m, live);
      var idx := FindFile(f.name);
      if idx < 0 {
        NameUnknown(f.name);
        idx := FindFreeSlot();
        if idx < 0 {
          AllUsed(files);
          DropBuffer(f.data, b);
          assert live * (live - {b}) == live - {b};
          Survives(files, buffers, contents, live, m, live - {b}, heap.mem);
          PlacedNowhere(b, buffers, live);
          return false;
        }
        SomeUnused(files, idx);
        UnusedHasNone(idx);
        PutNew(files, buffers, contents, live, m, idx, f, b, text);
      } else {
        DropOld(idx, f, text, b);
      }
      PlacedAt(b, buffers, idx, live);
      files := files[idx := f];
      buffers := buffers[idx := b];
      contents := contents[f.name := text];
      ok := true;
    }

    /** Gives back the buffer that a new text replaces. */
    method DropOld(idx: int, ghost f: File, ghost text: Str, ghost b: Block)
      requires Valid() && 0 <= idx < MAX_FILES && files[idx].used && f.used && f.name == files[idx].name
      requires b in Live(heap.blocks) && SlotOk(f, b, text, heap.mem) && forall i :: i in buffers ==> buffers[i] != b
      modifies heap
      ensures heap.Valid() && f.name in contents && idx in buffers
      ensures FilesOk(files[idx := f], buffers[idx := b], contents[f.name := text], Live(heap.blocks), heap.mem)
      ensures Live(heap.blocks) == old(Live(heap.blocks)) - {buffers[idx]}
      ensures heap.frames == old(heap.frames) && heap.end == old(heap.end)
      ensures SamePayloads(old(heap.mem), heap.mem, Live(heap.blocks))
    {
      hide Heap.Valid, Live, SamePayloads, SlotOk, FilesOk;
      ghost var live, m := Live(heap.blocks), heap.mem;
      TableSize();
      SlotFacts(idx);
      if files[idx].data != 0 {
        DropBuffer(files[idx].data, buffers[idx]);
      }
      SlotStays(f, b, text, m, heap.mem, live - {buffers[idx]});
      PutOver(files, buffers, contents, live, m, heap.mem, idx, f, b, text);
    }

    lemma UnusedHasNone(idx: int)
      requires Valid() && 0 <= idx < MAX_FILES && !files[idx].used
      ensures idx !in buffers
    {
      hide Heap.Valid, SlotOk;
    }

    lemma TableSize()
      requires Valid()
      ensures |files| == MAX_FILES && (forall i :: i in buffers ==> buffers[i] in Live(heap.blocks))
      ensures forall i, j :: i in buffers && j in buffers && i != j ==> buffers[i] != buffers[j]
    {
      hide Heap.Valid, SlotOk;
      forall i | i in buffers
        ensures buffers[i] in Live(heap.blocks)
      {
        assert files[i].used;
      }
    }

    lemma HeapReady()
      requires heap.Valid()
      ensures heap.ready && |heap.blocks| > 0
    {
    }

    /** Filling a new buffer disturbs no file. */
    lemma FilledOk(live: set<Block>, m: Cells, b: Block)
      requires FilesOk(files, buffers, contents, live, m) && SamePayloads(m, heap.mem, live - {b})
      requires forall i :: i in buffers ==> buffers[i] != b
      ensures FilesOk(files, buffers, contents, live, heap.mem)
    {
      hide SamePayloads, SlotOk;
      assert live * (live - {b}) == live - {b} == (live - {b}) * live;
      forall i | i in buffers
        ensures buffers[i] in live
      {
        assert files[i].used;
      }
      Survives(files, buffers, contents, live, m, live - {b}, heap.mem);
      AgreesPayloads(heap.mem, live - {b});
      Survives(files, buffers, contents, live - {b}, heap.mem, live, heap.mem);
    }

    lemma NameUnknown(name: Str)
      requires Valid() && !HasFile(files, name)
      ensures name !in contents
    {
      hide Heap.Valid;
    }

    lemma SlotFacts(idx: int)
      requires Valid() && 0 <= idx < MAX_FILES && files[idx].used
      ensures idx in buffers && buffers[idx] in Live(heap.blocks) && Payload(buffers[idx]) == files[idx].data != 0
      ensures files[idx].name in contents && SlotOk(files[idx], buffers[idx], contents[files[idx].name], heap.mem)
    {
      hide NoFreePair, Chained, UsedBytes, Paging.Valid, Heap.Owns, Heap.SeenIn;
      LivePointers(heap.blocks, HEAP_START, heap.end);
    }

    // Reading

    /** The address of a file's text; 0 when there is no such file. */
    method ReadFile(name: Option<Str>) returns (p: int)
      requires Valid()
      ensures p != 0 <==> ready && name.Some? && name.value in contents
      ensures p != 0 ==> Holds(heap.mem, p, contents[name.value])
    {
      hide Heap.Valid, Holds;
      if !ready || name.None? || !NameValid(name.value) {
        NamesValid();
        return 0;
      }
      var idx := FindFile(name.value);
      if idx < 0 {
        NameUnknown(name.value);
        return 0;
      }
      SlotFacts(idx);
      return files[idx].data;
    }

    lemma NamesValid()
      requires Valid()
      ensures forall name :: name in contents ==> NameValid(name)
    {
      hide Heap.Valid, SlotOk;
    }

    /** Copies a file's text out, cut to the buffer's size, and terminates it; -1 when there is no such file. */
    method ReadFileInto(name: Option<Str>, out: array?<u8>) returns (n: int)
      requires Valid()
      modifies out
      ensures n >= 0 <==> ready && name.Some? && name.value in contents && out != null && out.Length > 0
      ensures n >= 0 ==>
                var text := contents[name.value];
                && n == (if |text| < out.Length then |text| else out.Length - 1)
                && out[..n] == text[..n] && out[n] == 0
    {
      hide Heap.Valid;
      NamesValid();
      if !ready || name.None? || !NameValid(name.value) || out == null || out.Length == 0 {
        return -1;
      }
      var idx := FindFile(name.value);
      if idx < 0 {
        NameUnknown(name.value);
        return -1;
      }
      SlotFacts(idx);
      if files[idx].data == 0 {
        // a used slot always has a buffer
        assert false;
      }
      ghost var text := contents[name.value];
      var i := 0;
      var data := files[idx].data;
      while i + 1 < out.Length && CellAt(heap.mem, data + i) != Some(Byte(0))
        invariant 0 <= i < out.Length && i <= |text| && Holds(heap.mem, data, text)
        invariant forall j :: 0 <= j < i ==> out[j] == text[j]
        decreases out.Length - i
      {
        var cell := CellAt(heap.mem, data + i);
        assert i < |text|;
        out[i] := cell.value.value;
        i := i + 1;
      }
      out[i] := 0;
      n := i;
    }

    /** The text at an address, read byte by byte up to its end. */
    method TextAt(p: int, ghost text: Str) returns (r: CText)
      requires Holds(heap.mem, p, text)
      ensures r == Chars(text)
    {
      r := "";
      var i := 0;
      while CellAt(heap.mem, p + i) != Some(Byte(0))
        invariant 0 <= i <= |text| && r == Chars(text)[..i]
        decreases |text| - i
      {
        assert i < |text| && CellAt(heap.mem, p + i) == Some(Byte(text[i]));
        r := r + [CellAt(heap.mem, p + i).value.value as char];
        i := i + 1;
      }
      assert Chars(text)[..|text|] == Chars(text);
    }

    /** The text of a program, looked up by name and then by name with the prefix, in a buffer of 40 bytes. */
    method ProgramText(name: Option<Str>) returns (text: Option<CText>)
      requires Valid()
      ensures text == if ready && name.Some? then ProgramOf(contents, name.value) else None
    {
      hide Heap.Valid, Holds;
      NamesValid();
      if name.None? || name.value == [] {
        return None;
      }
      var p := ReadFile(name);
      var found := name.value;
      if p == 0 {
        if |APP| + |name.value| >= 40 {
          return None;
        }
        found := APP + name.value;
        p := ReadFile(Some(found));
        if p == 0 {
          return None;
        }
      }
      var r := TextAt(p, contents[found]);
      return Some(r);
    }

    /** The number of files. */
    method FileCount() returns (count: nat)
      requires Valid()
      ensures count == if ready then |contents| else 0
    {
      hide Heap.Valid, SlotOk;
      count := 0;
      if !ready {
        return;
      }
      Enumeration(files, buffers, contents, Live(heap.blocks), heap.mem);
      for i := 0 to MAX_FILES
        invariant count == |Names(files[..i])|
      {
        NamesStep(files, i);
        if files[i].used {
          count := count + 1;
        }
      }
      assert files[..MAX_FILES] == files;
    }

    /** The names by slot: together with the count, a listing that shows every file once. */
    method FileNameAt(index: u32) returns (name: Option<Str>)
      requires Valid()
      ensures name.Some? <==> ready && index < |contents|
      ensures name.Some? ==>
              |Names(files)| == |contents| && NoneTwice(Names(files)) && name.value == Names(files)[index]
      ensures name.Some? ==> name.value in contents
    {
      hide Heap.Valid, SlotOk;
      if !ready {
        return None;
      }
      Enumeration(files, buffers, contents, Live(heap.blocks), heap.mem);
      var seen := 0;
      for i := 0 to MAX_FILES
        invariant seen == |Names(files[..i])| && seen <= index
      {
        NamesStep(files, i);
        if files[i].used {
          if seen == index {
            NamesPrefix(files, i + 1);
            return Some(files[i].name);
          }
          seen := seen + 1;
        }
      }
      assert files[..MAX_FILES] == files;
      return None;
    }
  }

  /** The arguments with which a write asks the heap for a buffer that it may get. */
  predicate Asks(name: Option<Str>, text: Option<Str>) {
    text.Some? && name.Some? && 1 <= |name.value| <= 31 && |text.value| + 1 <= 0x7FFF_FFFF
  }

  /** The bytes by which storing a text may make the heap grow. */
  function WriteBytes(text: Str): (n: int)
    ensures n > 0
  {
    AlignUp8(|text| + 1) + HEADER + GROW_PAGES * PAGE_SIZE
  }

  /** A buffer went into the table, perhaps in place of another, or back to the heap. */
  ghost predicate Placed(b: Block, buffers: map<int, Block>, buffers': map<int, Block>,
                         live: set<Block>, live': set<Block>) {
    || (buffers' == buffers && live' == live - {b})
    || exists i :: buffers' == buffers[i := b] && live' == if i in buffers then live - {buffers[i]} else live
  }

  lemma PlacedNowhere(b: Block, buffers: map<int, Block>, live: set<Block>)
    ensures Placed(b, buffers, buffers, live, live - {b})
  {
  }

  lemma PlacedAt(b: Block, buffers: map<int, Block>, i: int, live: set<Block>)
    ensures Placed(b, buffers, buffers[i := b], live, if i in buffers then live - {buffers[i]} else live)
  {
  }

  lemma Shrunk(b: Block, buffers: map<int, Block>, buffers': map<int, Block>, live: set<Block>, live': set<Block>)
    requires Placed(b, buffers, buffers', live, live')
    ensures live' <= live
  {
  }

  lemma SamePart(m: Cells, m': Cells, live: set<Block>, part: set<Block>)
    requires SamePayloads(m, m', live) && part <= live
    ensures SamePayloads(m, m', part)
  {
  }

  lemma NoChange(buffers: map<int, Block>, live: set<Block>)
    ensures OnlyFiles(buffers, buffers, live, live)
  {
  }

  /** Having a buffer and placing it: the other allocations are as before. */
  lemma Composed(m0: Cells, m1: Cells, m2: Cells, live0: set<Block>, live1: set<Block>, live2: set<Block>, b: Block,
                 buffers: map<int, Block>, buffers': map<int, Block>)
    requires b !in live0 && live1 == live0 + {b} && Placed(b, buffers, buffers', live1, live2)
    requires (forall i :: i in buffers ==> buffers[i] in live0)
    requires forall i, j :: i in buffers && j in buffers && i != j ==> buffers[i] != buffers[j]
    requires SamePayloads(m0, m1, live0) && SamePayloads(m1, m2, live2 - {b})
    ensures OnlyFiles(buffers, buffers', live0, live2) && SamePayloads(m0, m2, live0 * live2)
  {
    hide SamePayloads;
    Shrunk(b, buffers, buffers', live1, live2);
    SamePart(m0, m1, live0, live0 * live2);
    SamePart(m1, m2, live2 - {b}, live0 * live2);
    PayloadsTrans(m0, m1, m2, live0 * live2);
    if buffers' != buffers {
      var i :| buffers' == buffers[i := b] && live2 == if i in buffers then live1 - {buffers[i]} else live1;
      PlacedFiles(buffers, i, b);
    }
  }

  lemma PlacedFiles(buffers: map<int, Block>, i: int, b: Block)
    requires forall i, j :: i in buffers && j in buffers && i != j ==> buffers[i] != buffers[j]
    requires forall i :: i in buffers ==> buffers[i] != b
    ensures FileBlocks(buffers[i := b]) == FileBlocks(buffers) - (if i in buffers then {buffers[i]} else {}) + {b}
  {
    var gone := if i in buffers then {buffers[i]} else {};
    forall x | x in FileBlocks(buffers) - gone
      ensures x in FileBlocks(buffers[i := b])
    {
      var j :| j in buffers && buffers[j] == x;
      assert buffers[i := b][j] == x;
    }
    assert buffers[i := b][i] == b;
  }

  lemma IsSlot(f: File, b: Block, text: Str, m: Cells)
    requires f.data == Payload(b) && f.len == |text| < b.size && Holds(m, f.data, text)
    ensures SlotOk(f, b, text, m)
  {
  }
}
