/** The file table as a map from names to texts, and where the texts lie in the heap. */
module VfsSpec {
  import opened Words
  import opened HeapSpec
  import opened Marshex

  const MAX_FILES := 64
  const NAME_MAX := 32

  datatype File = File(used: bool, name: Str, data: int, len: int)

  const NO_FILE := File(false, [], 0, 0)

  predicate NameValid(name: Str) { 0 < |name| < NAME_MAX }

  /** The text and its terminator lie at address `p`. */
  ghost predicate Holds(m: Cells, p: int, text: Str) {
    Begun(m, p, text, |text|) && CellAt(m, p + |text|) == Some(Byte(0))
  }

  /** The first `n` bytes of the text lie at address `p`. */
  ghost predicate Begun(m: Cells, p: int, text: Str, n: int) {
    n <= |text| && forall a :: p <= a < p + n ==> CellAt(m, a) == Some(Byte(text[a - p]))
  }

  lemma OneMore(m: Cells, p: int, text: Str, n: int)
    requires 0 <= n < |text| && Begun(m, p, text, n)
    ensures Begun(m[p + n := Byte(text[n])], p, text, n + 1)
  {
    var m' := m[p + n := Byte(text[n])];
    forall a | p <= a < p + n
      ensures CellAt(m', a) == Some(Byte(text[a - p]))
    {
      assert CellAt(m', a) == CellAt(m, a);
    }
  }

  lemma Ended(m: Cells, p: int, text: Str)
    requires Begun(m, p, text, |text|)
    ensures Holds(m[p + |text| := Byte(0)], p, text)
  {
    var m' := m[p + |text| := Byte(0)];
    forall a | p <= a < p + |text|
      ensures CellAt(m', a) == Some(Byte(text[a - p]))
    {
      assert CellAt(m', a) == CellAt(m, a);
    }
  }

  /** One file: its buffer is an allocation that holds its text. */
  ghost predicate SlotOk(f: File, b: Block, text: Str, m: Cells) {
    Payload(b) == f.data && f.len == |text| < b.size && Holds(m, f.data, text)
  }

  ghost function FileBlocks(buffers: map<int, Block>): set<Block> {
    set i | i in buffers :: buffers[i]
  }

  /**
   What a file operation does to the heap's allocations: those that are not buffers stay, and a new buffer
   was no allocation before.
   */
  ghost predicate OnlyFiles(buffers: map<int, Block>, buffers': map<int, Block>, live: set<Block>, live': set<Block>) {
    && live' - FileBlocks(buffers') == live - FileBlocks(buffers)
    && (forall i :: i in buffers' && buffers'[i] !in FileBlocks(buffers) ==> buffers'[i] !in live)
  }

  ghost predicate HasFile(files: seq<File>, name: Str) {
    exists i :: 0 <= i < |files| && files[i].used && files[i].name == name
  }

  /** The table stands for the map `contents`; each file has a live buffer of its own. */
  ghost predicate FilesOk(files: seq<File>, buffers: map<int, Block>, contents: map<Str, Str>,
                          live: set<Block>, m: Cells) {
    && |files| == MAX_FILES
    && (forall i :: 0 <= i < |files| && files[i].used ==>
          && files[i].name in contents && NameValid(files[i].name)
          && i in buffers && buffers[i] in live && SlotOk(files[i], buffers[i], contents[files[i].name], m))
    && (forall i :: i in buffers ==> 0 <= i < |files| && files[i].used)
    && (forall i, j :: i in buffers && j in buffers && i != j ==> buffers[i] != buffers[j])
    && (forall i, j :: 0 <= i < j < |files| && files[i].used && files[j].used ==> files[i].name != files[j].name)
    && (forall name :: name in contents ==> HasFile(files, name))
  }

  lemma SlotStays(f: File, b: Block, text: Str, m: Cells, m': Cells, blocks: set<Block>)
    requires SlotOk(f, b, text, m) && b in blocks && SamePayloads(m, m', blocks)
    ensures SlotOk(f, b, text, m')
  {
  }

  /** Files survive whatever else happens in the heap: it is enough that their buffers stay live and unwritten. */
  lemma Survives(files: seq<File>, buffers: map<int, Block>, contents: map<Str, Str>,
                 live: set<Block>, m: Cells, live': set<Block>, m': Cells)
    requires FilesOk(files, buffers, contents, live, m) && SamePayloads(m, m', live * live')
    requires forall i :: i in buffers ==> buffers[i] in live'
    ensures FilesOk(files, buffers, contents, live', m')
  {
    hide SlotOk, SamePayloads;
    forall i | 0 <= i < |files| && files[i].used
      ensures SlotOk(files[i], buffers[i], contents[files[i].name], m')
    {
      SlotStays(files[i], buffers[i], contents[files[i].name], m, m', live * live');
    }
  }

  /** A new file in a free slot. */
  lemma PutNew(files: seq<File>, buffers: map<int, Block>, contents: map<Str, Str>, live: set<Block>, m: Cells,
               idx: int, f: File, b: Block, text: Str)
    requires FilesOk(files, buffers, contents, live, m) && 0 <= idx < MAX_FILES && !files[idx].used
    requires f.used && NameValid(f.name) && f.name !in contents && SlotOk(f, b, text, m)
    requires b in live && forall i :: i in buffers ==> buffers[i] != b
    ensures FilesOk(files[idx := f], buffers[idx := b], contents[f.name := text], live, m)
  {
    hide SlotOk;
    var files', contents' := files[idx := f], contents[f.name := text];
    forall name | name in contents'
      ensures HasFile(files', name)
    {
      if name == f.name {
        assert files'[idx].name == name;
      } else {
        var i :| 0 <= i < |files| && files[i].used && files[i].name == name;
        assert files'[i] == files[i];
      }
    }
  }

  /** A new text for an existing file, whose old buffer was given back. */
  lemma PutOver(files: seq<File>, buffers: map<int, Block>, contents: map<Str, Str>, live: set<Block>, m: Cells,
                m': Cells, idx: int, f: File, b: Block, text: Str)
    requires FilesOk(files, buffers, contents, live, m) && 0 <= idx < MAX_FILES && files[idx].used
    requires f.used && f.name == files[idx].name && SlotOk(f, b, text, m')
    requires b in live && (forall i :: i in buffers ==> buffers[i] != b) && SamePayloads(m, m', live - {buffers[idx]})
    ensures FilesOk(files[idx := f], buffers[idx := b], contents[f.name := text], live - {buffers[idx]}, m')
  {
    hide SlotOk, SamePayloads;
    var files', contents', live' := files[idx := f], contents[f.name := text], live - {buffers[idx]};
    forall i | 0 <= i < |files'| && files'[i].used
      ensures files'[i].name in contents' && SlotOk(files'[i], buffers[idx := b][i], contents'[files'[i].name], m')
    {
      if i != idx {
        assert files[i].name != f.name;
        SlotStays(files[i], buffers[i], contents[files[i].name], m, m', live');
      }
    }
    forall name | name in contents'
      ensures HasFile(files', name)
    {
      var i :| 0 <= i < |files| && files[i].used && files[i].name == name;
      assert files'[i].name == files[i].name;
    }
  }

  // Programs

  function Ascii(s: string): (r: Str)
    requires forall i :: 0 <= i < |s| ==> 0 < s[i] as int < 128
    ensures |r| == |s|
  {
    seq(|s|, i requires 0 <= i < |s| => s[i] as int)
  }

  /** A text as characters. */
  function Chars(s: Str): (r: CText)
    ensures |r| == |s|
  {
    seq(|s|, i requires 0 <= i < |s| => s[i] as char)
  }

  /** A stored text is the characters it was written with. */
  lemma CharsBack(s: string)
    requires forall i :: 0 <= i < |s| ==> 0 < s[i] as int < 128
    ensures Chars(Ascii(s)) == s
  {
    assert forall i :: 0 <= i < |s| ==> Chars(Ascii(s))[i] == s[i];
  }

  const APP := Ascii("app.")

  /** A name with the bytes of "app." before it. */
  function AppName(name: Str): (r: Str)
  {
    [97, 112, 112, 46] + name
  }

  /** The program of a name: the file with that name, else the file with "app." before it. */
  function ProgramOf(contents: map<Str, Str>, name: Str): (text: Option<CText>) {
    if name in contents then Some(Chars(contents[name]))
    else if name != [] && APP + name in contents then Some(Chars(contents[APP + name]))
    else None
  }

  // Enumeration

  /** The names in the table, by slot. */
  function Names(files: seq<File>): (names: seq<Str>)
  {
    if files == [] then []
    else
      var last := files[|files| - 1];
      Names(files[..|files| - 1]) + if last.used then [last.name] else []
  }

  lemma {:induction false} NamesPrefix(files: seq<File>, n: int)
    requires 0 <= n <= |files|
    ensures Names(files[..n]) <= Names(files)
  {
    if n < |files| {
      NamesPrefix(files[..|files| - 1], n);
      assert files[..|files| - 1][..n] == files[..n];
    } else {
      assert files[..n] == files;
    }
  }

  lemma {:induction false} NamesHas(files: seq<File>, name: Str)
    ensures name in Names(files) <==> HasFile(files, name)
  {
    if files != [] {
      var front := files[..|files| - 1];
      NamesHas(front, name);
      if i :| 0 <= i < |files| - 1 && files[i].used && files[i].name == name {
        assert front[i] == files[i];
      }
    }
  }

  ghost predicate NoneTwice(names: seq<Str>) {
    forall i, j :: 0 <= i < j < |names| ==> names[i] != names[j]
  }

  lemma {:induction false} NamesOnce(files: seq<File>)
    requires forall i, j :: 0 <= i < j < |files| && files[i].used && files[j].used ==> files[i].name != files[j].name
    ensures NoneTwice(Names(files))
  {
    if files != [] {
      var front, last := files[..|files| - 1], files[|files| - 1];
      NamesOnce(front);
      if last.used {
        NamesHas(front, last.name);
      }
    }
  }

  lemma {:induction false} CountOnce(names: seq<Str>, keys: set<Str>)
    requires NoneTwice(names) && forall name :: name in names <==> name in keys
    ensures |names| == |keys|
  {
    if names == [] {
      assert keys == {};
    } else {
      var front, last := names[..|names| - 1], names[|names| - 1];
      assert names == front + [last];
      forall name
        ensures name in front <==> name in keys - {last}
      {
      }
      CountOnce(front, keys - {last});
    }
  }

  /** Listing the table gives every file of the map, once. */
  lemma Enumeration(files: seq<File>, buffers: map<int, Block>, contents: map<Str, Str>, live: set<Block>, m: Cells)
    requires FilesOk(files, buffers, contents, live, m)
    ensures NoneTwice(Names(files)) && |Names(files)| == |contents|
    ensures forall name :: name in Names(files) <==> name in contents
  {
    hide SlotOk;
    NamesOnce(files);
    forall name: Str
      ensures name in Names(files) <==> name in contents
    {
      NamesHas(files, name);
    }
    CountOnce(Names(files), contents.Keys);
  }

  lemma NamesStep(files: seq<File>, i: int)
    requires 0 <= i < |files|
    ensures Names(files[..i + 1]) == Names(files[..i]) + if files[i].used then [files[i].name] else []
  {
    assert files[..i + 1][..i] == files[..i];
  }

  /** How many of the slots are used. */
  function UsedCount(files: seq<File>): (n: nat) {
    if files == [] then 0 else UsedCount(files[1..]) + if files[0].used then 1 else 0
  }

  lemma {:induction false} UsedCountMore(files: seq<File>, f: File)
    ensures UsedCount(files + [f]) == UsedCount(files) + if f.used then 1 else 0
  {
    if files != [] {
      assert (files + [f])[1..] == files[1..] + [f];
      UsedCountMore(files[1..], f);
    }
  }

  /** The listing is in slot order: a file comes after as many names as there are used slots before its own. */
  lemma {:induction false} NamesInOrder(files: seq<File>, i: int)
    requires 0 <= i < |files| && files[i].used
    ensures UsedCount(files[..i]) < |Names(files)| == UsedCount(files)
    ensures Names(files)[UsedCount(files[..i])] == files[i].name
  {
    var front, last := files[..|files| - 1], files[|files| - 1];
    assert files == front + [last];
    UsedCountMore(front, last);
    CountNames(front);
    if i < |files| - 1 {
      NamesInOrder(front, i);
      assert front[..i] == files[..i];
    } else {
      assert files[..i] == front;
    }
  }

  lemma {:induction false} CountNames(files: seq<File>)
    ensures |Names(files)| == UsedCount(files)
  {
    if files != [] {
      var front, last := files[..|files| - 1], files[|files| - 1];
      assert files == front + [last];
      UsedCountMore(front, last);
      CountNames(front);
    }
  }

  lemma {:induction false} NamesBound(files: seq<File>)
    ensures |Names(files)| <= |files|
  {
    if files != [] {
      NamesBound(files[..|files| - 1]);
    }
  }

  lemma {:induction false} AllUsed(files: seq<File>)
    requires forall i :: 0 <= i < |files| ==> files[i].used
    ensures |Names(files)| == |files|
  {
    if files != [] {
      AllUsed(files[..|files| - 1]);
    }
  }

  lemma {:induction false} SomeUnused(files: seq<File>, idx: int)
    requires 0 <= idx < |files| && !files[idx].used
    ensures |Names(files)| < |files|
  {
    if idx < |files| - 1 {
      SomeUnused(files[..|files| - 1], idx);
    } else {
      NamesBound(files[..|files| - 1]);
    }
  }
}
