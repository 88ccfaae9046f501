/** The shell's line editor and history, in the fixed buffers that hold them. */
module ShellModel {
  import opened Marshex
  import opened ShellSpec

  /** A buffer holds a terminated text. */
  ghost predicate LineIs(line: array<char>, s: CText)
    reads line
  {
    |s| < LINE_MAX == line.Length && line[..|s|] == s && line[|s|] == '\0'
  }

  ghost predicate RowIs(rows: array2<char>, r: int, s: CText)
    requires rows.Length0 == HISTORY_MAX && rows.Length1 == LINE_MAX && 0 <= r < HISTORY_MAX
    reads rows
  {
    |s| < LINE_MAX && (forall j :: 0 <= j < |s| ==> rows[r, j] == s[j]) && rows[r, |s|] == '\0'
  }

  class Shell {
    const line: array<char>
    const rows: array2<char>
    var len: int
    var cursor: int
    var count: int
    var recall: int

    ghost var text: CText
    ghost var lines: seq<CText>

    constructor ()
      ensures Valid() && fresh(line) && fresh(rows) && Now() == Prompt("", 0, -1, [])
    {
      line := new char[LINE_MAX];
      rows := new char[HISTORY_MAX, LINE_MAX];
      len, cursor, count, recall := 0, 0, 0, -1;
      text, lines := "", [];
      new;
      line[0] := '\0';
    }

    ghost function Now(): Prompt
      reads this
    {
      Prompt(text, cursor, recall, lines)
    }

    ghost predicate Sized() {
      rows.Length0 == HISTORY_MAX && rows.Length1 == LINE_MAX && line.Length == LINE_MAX
    }

    ghost predicate RowsOk()
      reads this, rows
    {
      Sized() && |lines| == count && forall r :: 0 <= r < count ==> 0 <= r < HISTORY_MAX && RowIs(rows, r, lines[r])
    }

    ghost predicate Valid()
      reads this, line, rows
    {
      && Sized() && Shown(Now()) && LineIs(line, text) && len == |text|
      && count == |lines| <= HISTORY_MAX && RowsOk()
    }

    /** One key of the edit loop. */
    method Press(key: Key)
      requires Valid() && key != Plain('\0')
      modifies this, line
      ensures Valid() && Now() == ShellSpec.Press(old(Now()), key)
    {
      match key {
        case Up =>
          RecallUp();
        case Down =>
          RecallDown();
        case Left =>
          if cursor > 0 {
            cursor := cursor - 1;
          }
        case Right =>
          if cursor < len {
            cursor := cursor + 1;
          }
        case Delete =>
          if cursor < len {
            Remove(cursor);
          }
        case Backspace =>
          if cursor > 0 {
            cursor := cursor - 1;
            Remove(cursor);
          }
        case Plain(c) =>
          if len < LINE_MAX - 1 {
            Insert(c);
          }
      }
    }

    method RecallUp()
      requires Valid()
      modifies `recall, `len, `cursor, `text, line
      ensures Valid() && Now() == ShellSpec.Press(old(Now()), Up)
    {
      if count == 0 {
        return;
      }
      if recall < 0 {
        recall := count - 1;
      } else if recall > 0 {
        recall := recall - 1;
      }
      ReplaceLine(recall);
    }

    method RecallDown()
      requires Valid()
      modifies `recall, `len, `cursor, `text, line
      ensures Valid() && Now() == ShellSpec.Press(old(Now()), Down)
    {
      if count == 0 || recall < 0 {
        return;
      }
      recall := recall + 1;
      if recall >= count {
        recall := -1;
        line[0] := '\0';
        len, cursor, text := 0, 0, "";
      } else {
        ReplaceLine(recall);
      }
    }

    /** Closes the gap at `at`, moving the rest of the line left. */
    method Remove(at: int)
      requires Sized() && LineIs(line, text) && len == |text| && 0 <= at < len
      modifies `len, `text, line
      ensures text == Without(old(text), at) && LineIs(line, text) && len == |text|
    {
      ghost var left := Without(text, at);
      var i := at;
      while i + 1 < len
        invariant at <= i < len == |text| && text == old(text)
        invariant forall j :: 0 <= j < i ==> line[j] == left[j]
        invariant forall j :: i < j < len ==> line[j] == text[j]
      {
        assert left[i] == text[i + 1];
        line[i] := line[i + 1];
        i := i + 1;
      }
      len := len - 1;
      line[len] := '\0';
      text := left;
      assert line[..len] == text;
    }

    /** Opens a gap at the cursor, moving the rest of the line right. */
    method Insert(c: char)
      requires Sized() && LineIs(line, text) && len == |text| < LINE_MAX - 1 && 0 <= cursor <= len && c != '\0'
      modifies `len, `cursor, `text, line
      ensures text == With(old(text), old(cursor), c)
      ensures LineIs(line, text) && len == |text| && cursor == old(cursor) + 1
    {
      var i := len;
      while i > cursor
        invariant cursor == old(cursor) && 0 <= cursor <= i <= len == |text| && text == old(text)
        invariant forall j :: 0 <= j < i ==> line[j] == text[j]
        invariant forall j :: i < j <= len ==> line[j] == text[j - 1]
      {
        line[i] := line[i - 1];
        i := i - 1;
      }
      line[cursor] := c;
      text := With(text, cursor, c);
      len := len + 1;
      cursor := cursor + 1;
      line[len] := '\0';
    }

    /** Shows a remembered line, with the cursor at its end. */
    method ReplaceLine(r: int)
      requires RowsOk() && 0 <= r < count <= HISTORY_MAX
      modifies `len, `cursor, `text, line
      ensures text == lines[r] && LineIs(line, text) && cursor == len == |text|
    {
      ghost var s := lines[r];
      len := 0;
      while rows[r, len] != '\0' && len < LINE_MAX - 1
        invariant 0 <= len <= |s| && line[..len] == s[..len]
        decreases LINE_MAX - len
      {
        line[len] := rows[r, len];
        len := len + 1;
      }
      line[len] := '\0';
      cursor := len;
      text := s;
    }

    /** Stores the entered line, unless it is empty or repeats the last one; a full history loses its oldest line. */
    method StoreHistory()
      requires Valid()
      modifies `count, `lines, rows
      ensures RowsOk() && lines == Remember(old(lines), text) && count <= HISTORY_MAX
      ensures forall i :: 0 <= i < |lines| ==> |lines[i]| < LINE_MAX
    {
      if line[0] == '\0' {
        return;
      }
      if count > 0 {
        var same := RowEquals(count - 1);
        if same {
          return;
        }
      }
      if count < HISTORY_MAX {
        CopyLine(count);
        count := count + 1;
        lines := lines + [text];
        return;
      }
      ShiftRows();
      CopyLine(HISTORY_MAX - 1);
      lines := lines[1..] + [text];
    }

    /** The end of a line: it is remembered, and the next prompt is empty. */
    method Enter()
      requires Valid()
      modifies this, line, rows
      ensures Valid() && Now() == Prompt("", 0, -1, Remember(old(lines), old(text)))
    {
      line[len] := '\0';
      StoreHistory();
      len, cursor, recall := 0, 0, -1;
      line[0] := '\0';
      text := "";
    }

    method RowEquals(r: int) returns (same: bool)
      requires Sized() && LineIs(line, text) && RowsOk() && 0 <= r < count <= HISTORY_MAX
      ensures same <==> lines[r] == text
    {
      ghost var s := lines[r];
      var i := 0;
      while rows[r, i] != '\0' && line[i] != '\0'
        invariant 0 <= i <= |s| && i <= |text| && s[..i] == text[..i]
        decreases |s| - i
      {
        if rows[r, i] != line[i] {
          assert s[i] != text[i];
          return false;
        }
        i := i + 1;
      }
      same := rows[r, i] == '\0' && line[i] == '\0';
    }

    method CopyLine(r: int)
      requires Sized() && LineIs(line, text) && 0 <= r < HISTORY_MAX
      modifies rows
      ensures RowIs(rows, r, text)
      ensures forall q, j :: 0 <= q < HISTORY_MAX && 0 <= j < LINE_MAX && q != r ==> rows[q, j] == old(rows[q, j])
    {
      var i := 0;
      while line[i] != '\0' && i < LINE_MAX - 1
        invariant 0 <= i <= |text|
        invariant forall j :: 0 <= j < i ==> rows[r, j] == text[j]
        invariant forall q, j :: 0 <= q < HISTORY_MAX && 0 <= j < LINE_MAX && q != r ==> rows[q, j] == old(rows[q, j])
        decreases |text| - i
      {
        rows[r, i] := line[i];
        i := i + 1;
      }
      rows[r, i] := '\0';
    }

    /** Moves every row up by one. */
    method ShiftRows()
      requires RowsOk() && count == HISTORY_MAX
      modifies rows
      ensures forall r :: 1 <= r < HISTORY_MAX ==> RowIs(rows, r - 1, lines[r])
    {
      for row := 1 to HISTORY_MAX
        invariant forall r :: 1 <= r < row ==> RowIs(rows, r - 1, lines[r])
        invariant forall r :: row <= r < HISTORY_MAX ==> RowIs(rows, r, lines[r])
      {
        ShiftRow(row, lines[row]);
      }
    }

    method ShiftRow(row: int, ghost s: CText)
      requires Sized() && 1 <= row < HISTORY_MAX && RowIs(rows, row, s)
      modifies rows
      ensures RowIs(rows, row - 1, s)
      ensures forall q, j :: 0 <= q < HISTORY_MAX && 0 <= j < LINE_MAX && q != row - 1 ==> rows[q, j] == old(rows[q, j])
    {
      var col := 0;
      while true
        invariant 0 <= col <= |s|
        invariant forall j :: 0 <= j < col ==> rows[row - 1, j] == s[j]
        invariant forall q, j :: 0 <= q < HISTORY_MAX && 0 <= j < LINE_MAX && q != row - 1 ==>
                    rows[q, j] == old(rows[q, j])
        decreases |s| - col
      {
        rows[row - 1, col] := rows[row, col];
        if rows[row, col] == '\0' {
          return;
        }
        col := col + 1;
      }
    }
  }
}
