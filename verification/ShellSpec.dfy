/** What the shell's prompt shows: a text with a cursor, and the lines it remembers. */
module ShellSpec {
  import opened Marshex

  const LINE_MAX := 128
  const HISTORY_MAX := 8

  datatype Key = Up | Down | Left | Right | Delete | Backspace | Plain(c: char)

  /** `recall` is the remembered line on display, -1 for none. */
  datatype Prompt = Prompt(text: CText, cursor: int, recall: int, lines: seq<CText>)

  predicate Shown(p: Prompt) {
    && 0 <= p.cursor <= |p.text| < LINE_MAX && |p.lines| <= HISTORY_MAX && -1 <= p.recall < |p.lines|
    && forall i :: 0 <= i < |p.lines| ==> |p.lines[i]| < LINE_MAX
  }

  /** One key. A line holds at most 127 characters; a character typed beyond that is lost. */
  function Press(p: Prompt, key: Key): (r: Prompt)
    requires Shown(p) && key != Plain('\0')
    ensures Shown(r) && r.lines == p.lines
  {
    match key
    case Up =>
      if p.lines == [] then p
      else Recalled(p, if p.recall < 0 then |p.lines| - 1 else if p.recall > 0 then p.recall - 1 else 0)
    case Down =>
      if p.lines == [] || p.recall < 0 then p
      else if p.recall + 1 >= |p.lines| then p.(recall := -1, text := "", cursor := 0)
      else Recalled(p, p.recall + 1)
    case Left => if p.cursor > 0 then p.(cursor := p.cursor - 1) else p
    case Right => if p.cursor < |p.text| then p.(cursor := p.cursor + 1) else p
    case Delete => if p.cursor < |p.text| then p.(text := Without(p.text, p.cursor)) else p
    case Backspace => if p.cursor > 0 then p.(text := Without(p.text, p.cursor - 1), cursor := p.cursor - 1) else p
    case Plain(c) =>
      if |p.text| < LINE_MAX - 1 then p.(text := With(p.text, p.cursor, c), cursor := p.cursor + 1) else p
  }

  function Recalled(p: Prompt, i: int): (r: Prompt)
    requires Shown(p) && 0 <= i < |p.lines|
  {
    p.(recall := i, text := p.lines[i], cursor := |p.lines[i]|)
  }

  function Without(s: CText, i: int): (r: CText)
    requires 0 <= i < |s|
    ensures |r| == |s| - 1
  {
    s[..i] + s[i + 1..]
  }

  function With(s: CText, i: int, c: char): (r: CText)
    requires 0 <= i <= |s| && c != '\0'
    ensures |r| == |s| + 1
  {
    s[..i] + [c] + s[i..]
  }

  function Type(p: Prompt, keys: seq<Key>): (r: Prompt)
    requires Shown(p) && Plain('\0') !in keys
    ensures Shown(r) && r.lines == p.lines
    decreases |keys|
  {
    if keys == [] then p else Type(Press(p, keys[0]), keys[1..])
  }

  /** Backspace takes back a typed character, and so do Left and Delete. */
  lemma TypeAndErase(p: Prompt, c: char)
    requires Shown(p) && c != '\0' && |p.text| < LINE_MAX - 1
    ensures Type(p, [Plain(c), Backspace]) == p && Type(p, [Plain(c), Left, Delete]) == p
  {
    var q := Press(p, Plain(c));
    assert Without(q.text, p.cursor) == p.text;
    assert Type(p, [Plain(c), Backspace]) == Type(q, [Backspace]) == Press(q, Backspace);
    assert Type(p, [Plain(c), Left, Delete]) == Type(q, [Left, Delete]) == Type(Press(q, Left), [Delete])
           == Press(Press(q, Left), Delete);
  }

  function Plains(s: CText): (keys: seq<Key>) {
    seq(|s|, i requires 0 <= i < |s| => Plain(s[i]))
  }

  /** Typing the first character and then the rest is typing the whole. */
  lemma AroundCursor(text: CText, cursor: int, s: CText)
    requires 0 <= cursor <= |text| && s != ""
    ensures var t := With(text, cursor, s[0]);
            t[..cursor + 1] + s[1..] + t[cursor + 1..] == text[..cursor] + s + text[cursor..]
  {
    var t := With(text, cursor, s[0]);
    assert t[..cursor + 1] == text[..cursor] + [s[0]] && t[cursor + 1..] == text[cursor..];
    assert s == [s[0]] + s[1..];
  }

  /** A line typed at the cursor appears there, whole. */
  lemma {:induction false} TypedLine(p: Prompt, s: CText)
    requires Shown(p) && |p.text| + |s| < 128
    ensures Plain('\0') !in Plains(s)
    ensures Type(p, Plains(s)) == p.(text := p.text[..p.cursor] + s + p.text[p.cursor..], cursor := p.cursor + |s|)
    decreases |s|
  {
    if s == "" {
      assert p.text[..p.cursor] + s + p.text[p.cursor..] == p.text;
    } else {
      var q := Press(p, Plain(s[0]));
      AroundCursor(p.text, p.cursor, s);
      TypedLine(q, s[1..]);
      assert Plains(s)[1..] == Plains(s[1..]);
    }
  }

  /** The cursor moves one place each way and no further than the ends; what it passes stays. */
  lemma CursorMoves(p: Prompt)
    requires Shown(p)
    ensures Press(p, Left) == p.(cursor := if p.cursor > 0 then p.cursor - 1 else 0)
    ensures Press(p, Right) == p.(cursor := if p.cursor < |p.text| then p.cursor + 1 else |p.text|)
    ensures p.cursor > 0 ==> Type(p, [Left, Right]) == p
    ensures p.cursor < |p.text| ==> Type(p, [Right, Left]) == p
  {
    assert Type(p, [Left, Right]) == Type(Press(p, Left), [Right]) == Press(Press(p, Left), Right);
    assert Type(p, [Right, Left]) == Type(Press(p, Right), [Left]) == Press(Press(p, Right), Left);
  }

  function Times(key: Key, n: nat): (keys: seq<Key>)
    ensures key != Plain('\0') ==> Plain('\0') !in keys
  {
    seq(n, _ => key)
  }

  lemma {:induction false} TypeMore(p: Prompt, keys: seq<Key>, key: Key)
    requires Shown(p) && Plain('\0') !in keys && key != Plain('\0')
    ensures Type(p, keys + [key]) == Press(Type(p, keys), key)
    decreases |keys|
  {
    if keys == [] {
      assert Type(p, [key]) == Type(Press(p, key), [key][1..]);
    } else {
      TypeMore(Press(p, keys[0]), keys[1..], key);
      assert (keys + [key])[1..] == keys[1..] + [key];
    }
  }

  /** From a fresh prompt, n times Up shows the nth last remembered line, and the oldest one from there on. */
  lemma {:induction false} UpShows(p: Prompt, n: nat)
    requires Shown(p) && p.recall == -1 && n > 0 && p.lines != []
    ensures var line := p.lines[if n <= |p.lines| then |p.lines| - n else 0]; var q := Type(p, Times(Up, n));
            q.text == line && q.cursor == |line| && q.recall == if n <= |p.lines| then |p.lines| - n else 0
  {
    if n == 1 {
      assert Times(Up, 1) == [Up];
      assert Type(p, [Up]) == Type(Press(p, Up), [Up][1..]);
    } else {
      UpShows(p, n - 1);
      assert Times(Up, n) == Times(Up, n - 1) + [Up];
      TypeMore(p, Times(Up, n - 1), Up);
    }
  }

  /** Down undoes Up: on a remembered line that is not the oldest; and from an empty fresh prompt. */
  lemma DownUndoesUp(p: Prompt)
    requires Shown(p)
    ensures p.recall > 0 && p.text == p.lines[p.recall] && p.cursor == |p.text| ==> Type(p, [Up, Down]) == p
    ensures p.recall == -1 ==> Type(p, [Up, Down]) == if p.lines == [] then p else p.(text := "", cursor := 0)
  {
    assert Type(p, [Up, Down]) == Type(Press(p, Up), [Down]) == Press(Press(p, Up), Down);
  }

  /** A line just entered is what Up shows. */
  lemma UpShowsEntered(lines: seq<CText>, line: CText)
    requires |lines| <= HISTORY_MAX && line != "" && |line| < LINE_MAX
    requires forall i :: 0 <= i < |lines| ==> |lines[i]| < LINE_MAX
    ensures Shown(Prompt("", 0, -1, Remember(lines, line)))
    ensures Press(Prompt("", 0, -1, Remember(lines, line)), Up).text == line
  {
  }

  // History

  function Remember(lines: seq<CText>, line: CText): (r: seq<CText>)
    ensures |lines| <= HISTORY_MAX ==> |r| <= HISTORY_MAX
  {
    if line == "" || (lines != [] && lines[|lines| - 1] == line) then lines
    else if |lines| < HISTORY_MAX then lines + [line]
    else lines[1..] + [line]
  }

  function RememberAll(entered: seq<CText>): (lines: seq<CText>) {
    if entered == [] then [] else Remember(RememberAll(entered[..|entered| - 1]), entered[|entered| - 1])
  }

  function Keep(kept: seq<CText>, line: CText): (r: seq<CText>) {
    if line == "" || (kept != [] && kept[|kept| - 1] == line) then kept else kept + [line]
  }

  /** The entered lines without empty ones and without repetitions of the line before. */
  function Kept(entered: seq<CText>): (r: seq<CText>) {
    if entered == [] then [] else Keep(Kept(entered[..|entered| - 1]), entered[|entered| - 1])
  }

  function LastEight(s: seq<CText>): (r: seq<CText>) {
    if |s| <= HISTORY_MAX then s else s[|s| - HISTORY_MAX..]
  }

  lemma RememberStep(kept: seq<CText>, line: CText)
    ensures Remember(LastEight(kept), line) == LastEight(Keep(kept, line))
  {
    var last := LastEight(kept);
    if kept != [] {
      assert last[|last| - 1] == kept[|kept| - 1];
    }
    if |kept| >= HISTORY_MAX {
      assert last[1..] + [line] == (kept + [line])[|kept| + 1 - HISTORY_MAX..];
    }
  }

  /** After any session the history is the last eight kept lines. */
  lemma {:induction false} HistoryIs(entered: seq<CText>)
    ensures RememberAll(entered) == LastEight(Kept(entered))
    ensures |RememberAll(entered)| == if |Kept(entered)| < 8 then |Kept(entered)| else 8
  {
    hide Remember, Keep;
    if entered != [] {
      HistoryIs(entered[..|entered| - 1]);
      RememberStep(Kept(entered[..|entered| - 1]), entered[|entered| - 1]);
    }
  }

  /** No kept line is empty, and no two neighbours are equal. */
  lemma {:induction false} KeptClean(entered: seq<CText>)
    ensures forall i :: 0 <= i < |Kept(entered)| ==> Kept(entered)[i] != ""
    ensures forall i, j :: 0 <= i && j == i + 1 < |Kept(entered)| ==> Kept(entered)[i] != Kept(entered)[j]
  {
    if entered != [] {
      KeptClean(entered[..|entered| - 1]);
    }
  }
}
