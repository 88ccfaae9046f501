/**
 The MARSHEX text format: white space, an optional keyword, then pairs of hexadecimal digits
 with any white space before, between and after the pairs.
 */
module Marshex {
  import opened Words

  /** The characters of a C string before its terminator. */
  type CText = t: string | forall i :: 0 <= i < |t| ==> t[i] != '\0' witness ""

  const KEYWORD := "MARSHEX"

  predicate IsSpace(c: char) {
    c == ' ' || c == '\t' || c == '\n' || c == '\r'
  }

  predicate AllSpace(s: string) {
    forall i :: 0 <= i < |s| ==> IsSpace(s[i])
  }

  function Nibble(c: char): (r: Option<u8>)
    ensures r.Some? ==> r.value < 16 && !IsSpace(c)
  {
    if '0' <= c <= '9' then Some(c as int - '0' as int)
    else if 'a' <= c <= 'f' then Some(10 + (c as int - 'a' as int))
    else if 'A' <= c <= 'F' then Some(10 + (c as int - 'A' as int))
    else None
  }

  /** The sixteen digits by value; letters of either case. */
  lemma NibbleTable(k: int)
    requires 0 <= k < 16
    ensures Nibble("0123456789abcdef"[k]) == Nibble("0123456789ABCDEF"[k]) == Some(k)
  {
  }

  // What the parser computes

  function SkipSpace(t: string): (r: string) {
    if t != "" && IsSpace(t[0]) then SkipSpace(t[1..]) else t
  }

  function DecodePairs(t: string): (r: Option<seq<u8>>) {
    if t == "" then Some([])
    else if IsSpace(t[0]) then DecodePairs(t[1..])
    else if |t| < 2 || Nibble(t[0]).None? || Nibble(t[1]).None? then None
    else
      match DecodePairs(t[2..])
      case None => None
      case Some(rest) => Some([Nibble(t[0]).value * 16 + Nibble(t[1]).value] + rest)
  }

  function AfterKeyword(t: string): string {
    var u := SkipSpace(t);
    if KEYWORD <= u then u[|KEYWORD|..] else u
  }

  /** The bytes a text stands for, when there is at least one and they fit in `cap` bytes. */
  function Decode(t: string, cap: nat): (r: Option<seq<u8>>) {
    match DecodePairs(AfterKeyword(t))
    case None => None
    case Some(bytes) => if 0 < |bytes| <= cap then Some(bytes) else None
  }

  // The language, defined by how texts are written

  /** One byte as written: white space, then two digits of either case. */
  datatype Item = Item(space: string, hi: char, lo: char)

  predicate GoodItem(x: Item) {
    AllSpace(x.space) && Nibble(x.hi).Some? && Nibble(x.lo).Some?
  }

  predicate GoodItems(xs: seq<Item>) {
    forall i :: 0 <= i < |xs| ==> GoodItem(xs[i])
  }

  function ByteOf(x: Item): u8
    requires GoodItem(x)
  {
    Nibble(x.hi).value * 16 + Nibble(x.lo).value
  }

  function BytesOf(xs: seq<Item>): (bs: seq<u8>)
    requires GoodItems(xs)
    ensures |bs| == |xs|
  {
    if xs == [] then [] else [ByteOf(xs[0])] + BytesOf(xs[1..])
  }

  function Written(xs: seq<Item>, tail: string): string {
    if xs == [] then tail else xs[0].space + [xs[0].hi, xs[0].lo] + Written(xs[1..], tail)
  }

  /** `t` is a way of writing the bytes `bs`. */
  ghost predicate Writes(t: string, bs: seq<u8>) {
    exists lead, keyword, xs, tail :: Writing(t, bs, lead, keyword, xs, tail)
  }

  ghost predicate Writing(t: string, bs: seq<u8>, lead: string, keyword: bool, xs: seq<Item>, tail: string) {
    && AllSpace(lead) && GoodItems(xs) && AllSpace(tail) && BytesOf(xs) == bs
    && t == lead + (if keyword then KEYWORD else "") + Written(xs, tail)
  }

  lemma {:induction false} SkipSpaces(s: string, t: string)
    requires AllSpace(s)
    ensures DecodePairs(s + t) == DecodePairs(t)
    ensures SkipSpace(s + t) == SkipSpace(t)
  {
    if s == "" {
      assert s + t == t;
    } else {
      assert (s + t)[1..] == s[1..] + t;
      SkipSpaces(s[1..], t);
    }
  }

  /** The pair parser reads back what was written. */
  lemma {:induction false} ReadsBack(xs: seq<Item>, tail: string)
    requires GoodItems(xs) && AllSpace(tail)
    ensures DecodePairs(Written(xs, tail)) == Some(BytesOf(xs))
  {
    if xs == [] {
      SkipSpaces(tail, "");
      assert tail + "" == tail;
    } else {
      var x, rest := xs[0], Written(xs[1..], tail);
      var t := [x.hi, x.lo] + rest;
      assert Written(xs, tail) == x.space + t;
      SkipSpaces(x.space, t);
      assert t[2..] == rest && t[0] == x.hi && t[1] == x.lo;
      ReadsBack(xs[1..], tail);
    }
  }

  lemma SpaceBefore(c: char, xs: seq<Item>, tail: string)
    requires IsSpace(c) && GoodItems(xs) && xs != []
    ensures var ys := [xs[0].(space := [c] + xs[0].space)] + xs[1..];
            GoodItems(ys) && Written(ys, tail) == [c] + Written(xs, tail) && BytesOf(ys) == BytesOf(xs)
  {
    var y := xs[0].(space := [c] + xs[0].space);
    assert GoodItem(y) && ByteOf(y) == ByteOf(xs[0]);
    assert ([y] + xs[1..])[1..] == xs[1..];
  }

  lemma PairBefore(hi: char, lo: char, xs: seq<Item>, tail: string)
    requires Nibble(hi).Some? && Nibble(lo).Some? && GoodItems(xs)
    ensures var ys := [Item("", hi, lo)] + xs;
            && GoodItems(ys) && Written(ys, tail) == [hi, lo] + Written(xs, tail)
            && BytesOf(ys) == [ByteOf(Item("", hi, lo))] + BytesOf(xs)
  {
    var ys := [Item("", hi, lo)] + xs;
    assert ys[1..] == xs;
  }

  lemma NothingWritten(tail: string)
    ensures Written([], tail) == tail && BytesOf([]) == []
  {
  }

  /** Whatever the pair parser accepts was written that way. */
  lemma {:induction false} Recovers(t: string) returns (xs: seq<Item>, tail: string)
    requires DecodePairs(t).Some?
    ensures GoodItems(xs) && AllSpace(tail) && t == Written(xs, tail) && BytesOf(xs) == DecodePairs(t).value
    decreases |t|
  {
    hide Written, BytesOf, GoodItems, Nibble;
    if t == "" {
      xs, tail := [], "";
      NoItems();
      NothingWritten("");
    } else if IsSpace(t[0]) {
      xs, tail := Recovers(t[1..]);
      assert t == [t[0]] + t[1..];
      if xs == [] {
        NothingWritten(tail);
        tail := [t[0]] + tail;
        NothingWritten(tail);
      } else {
        SpaceBefore(t[0], xs, tail);
        xs := [xs[0].(space := [t[0]] + xs[0].space)] + xs[1..];
      }
    } else {
      xs, tail := Recovers(t[2..]);
      assert t == [t[0], t[1]] + t[2..];
      PairBefore(t[0], t[1], xs, tail);
      xs := [Item("", t[0], t[1])] + xs;
    }
  }

  lemma NoItems()
    ensures GoodItems([])
  {
  }

  /** Skipping removes a prefix of white space and stops at something else. */
  lemma {:induction false} SkipSplits(t: string)
    ensures var r := SkipSpace(t);
            |r| <= |t| && AllSpace(t[..|t| - |r|]) && t == t[..|t| - |r|] + r && (r != "" ==> !IsSpace(r[0]))
  {
    if t != "" && IsSpace(t[0]) {
      SkipSplits(t[1..]);
      var r := SkipSpace(t);
      assert t[..|t| - |r|] == [t[0]] + t[1..][..|t| - 1 - |r|];
    }
  }

  lemma SkipThenDecode(t: string)
    ensures DecodePairs(SkipSpace(t)) == DecodePairs(t)
  {
    SkipSplits(t);
    var r := SkipSpace(t);
    SkipSpaces(t[..|t| - |r|], r);
  }

  lemma KeywordIsNotHex(u: string)
    requires KEYWORD <= u
    ensures DecodePairs(u).None?
  {
    assert u[0] == KEYWORD[0] == 'M';
  }

  /** Texts of pairs do not start with the keyword. */
  lemma NoKeyword(t: string)
    requires DecodePairs(t).Some?
    ensures AfterKeyword(t) == SkipSpace(t)
  {
    SkipThenDecode(t);
    if KEYWORD <= SkipSpace(t) {
      KeywordIsNotHex(SkipSpace(t));
    }
  }

  lemma KeywordSeen(lead: string, w: string)
    requires AllSpace(lead)
    ensures AfterKeyword(lead + KEYWORD + w) == w
  {
    var u := KEYWORD + w;
    assert lead + KEYWORD + w == lead + u;
    SkipSpaces(lead, u);
    assert u[0] == 'M';
    assert u[|KEYWORD|..] == w;
  }

  lemma DecodeComplete(t: string, bs: seq<u8>)
    requires Writes(t, bs)
    ensures DecodePairs(AfterKeyword(t)) == Some(bs)
  {
    var lead, keyword, xs, tail :| Writing(t, bs, lead, keyword, xs, tail);
    var w := Written(xs, tail);
    ReadsBack(xs, tail);
    hide DecodePairs, SkipSpace, Written, AfterKeyword;
    if keyword {
      KeywordSeen(lead, w);
    } else {
      assert t == lead + w;
      SkipSpaces(lead, w);
      NoKeyword(t);
      SkipThenDecode(t);
    }
  }

  /** Exact language: a text decodes to `bs` if and only if it writes `bs`, and `bs` is neither empty nor too long. */
  lemma DecodeExact(t: string, cap: nat, bs: seq<u8>)
    ensures Decode(t, cap) == Some(bs) <==> Writes(t, bs) && 0 < |bs| <= cap
  {
    if Decode(t, cap) == Some(bs) {
      DecodeSound(t, cap, bs);
    }
    hide Writes, DecodePairs, AfterKeyword;
    if Writes(t, bs) {
      DecodeComplete(t, bs);
    }
  }

  lemma KeywordSplit(t: string) returns (lead: string, keyword: bool)
    ensures AllSpace(lead) && t == lead + (if keyword then KEYWORD else "") + AfterKeyword(t)
  {
    var u := SkipSpace(t);
    SkipSplits(t);
    lead, keyword := t[..|t| - |u|], KEYWORD <= u;
    assert u == (if keyword then KEYWORD else "") + AfterKeyword(t);
    hide SkipSpace, AllSpace, AfterKeyword;
    assert t == lead + u;
  }

  lemma DecodeSound(t: string, cap: nat, bs: seq<u8>)
    requires Decode(t, cap) == Some(bs)
    ensures Writes(t, bs)
  {
    hide SkipSpace, DecodePairs, Written, AllSpace, AfterKeyword, BytesOf, GoodItems;
    var lead, keyword := KeywordSplit(t);
    var xs, tail := Recovers(AfterKeyword(t));
    assert Writing(t, bs, lead, keyword, xs, tail);
  }

  // The text that tools/elf_to_marshex.sh prints

  function Digit(n: u8): (c: char)
    requires n < 16
    ensures Nibble(c) == Some(n)
  {
    if n < 10 then '0' + n as char else 'a' + (n - 10) as char
  }

  function ToolItems(bs: seq<u8>): (xs: seq<Item>)
    ensures GoodItems(xs) && BytesOf(xs) == bs
  {
    if bs == [] then []
    else
      var x := Item(" ", Digit(bs[0] / 16), Digit(bs[0] % 16));
      var rest := ToolItems(bs[1..]);
      assert ([x] + rest)[1..] == rest;
      [x] + rest
  }

  /** Every image the tool prints is read back unchanged. */
  lemma ToolRoundTrip(bs: seq<u8>, cap: nat)
    requires 0 < |bs| <= cap
    ensures Decode(KEYWORD + Written(ToolItems(bs), "\n"), cap) == Some(bs)
  {
    var t := KEYWORD + Written(ToolItems(bs), "\n");
    assert Writing(t, bs, "", true, ToolItems(bs), "\n");
    DecodeExact(t, cap, bs);
  }

  /** The first digit of a pair is the high one, and pairs come in order. */
  lemma PairExample()
    ensures Decode(" \tMARSHEX\r7f 4Cab\n", 3) == Some([0x7F, 0x4C, 0xAB])
  {
    var xs := [Item("\r", '7', 'f'), Item(" ", '4', 'C'), Item("", 'a', 'b')];
    assert Written(xs[2..], "\n") == "ab\n";
    assert Written(xs[1..], "\n") == " 4Cab\n";
    assert " \t" + KEYWORD + Written(xs, "\n") == " \tMARSHEX\r7f 4Cab\n";
    assert BytesOf(xs[2..]) == [0xAB] && BytesOf(xs[1..]) == [0x4C, 0xAB];
    assert Writing(" \tMARSHEX\r7f 4Cab\n", [0x7F, 0x4C, 0xAB], " \t", true, xs, "\n");
    DecodeExact(" \tMARSHEX\r7f 4Cab\n", 3, [0x7F, 0x4C, 0xAB]);
  }

  // The parser as it runs, over a buffer

  function At(t: string, p: nat): char {
    if p < |t| then t[p] else '\0'
  }

  method SkipWs(t: CText, start: nat) returns (p: nat)
    requires start <= |t|
    ensures start <= p <= |t| && t[p..] == SkipSpace(t[start..]) && !IsSpace(At(t, p))
  {
    p := start;
    while IsSpace(At(t, p))
      invariant start <= p <= |t| && SkipSpace(t[p..]) == SkipSpace(t[start..])
      decreases |t| - p
    {
      assert t[p..][1..] == t[p + 1..];
      p := p + 1;
    }
  }

  function Prepend(a: seq<u8>, r: Option<seq<u8>>): Option<seq<u8>> {
    if r.Some? then Some(a + r.value) else None
  }

  method SkipKeyword(text: CText) returns (p: nat)
    ensures p <= |text| && text[p..] == AfterKeyword(text)
  {
    p := SkipWs(text, 0);
    assert text[0..] == text;
    if |text| - p >= |KEYWORD| && text[p..p + |KEYWORD|] == KEYWORD {
      assert text[p..][..|KEYWORD|] == KEYWORD;
      p := p + |KEYWORD|;
    }
  }

  /** The bytes read so far, followed by what the rest of the text stands for. */
  ghost predicate Progress(goal: Option<seq<u8>>, done: seq<u8>, t: string, p: nat)
    requires p <= |t|
  {
    goal == Prepend(done, DecodePairs(t[p..]))
  }

  lemma ProgressStart(t: string, p: nat)
    requires p <= |t|
    ensures Progress(DecodePairs(t[p..]), [], t, p)
  {
    var r := DecodePairs(t[p..]);
    if r.Some? {
      assert [] + r.value == r.value;
    }
  }

  lemma ProgressSkips(goal: Option<seq<u8>>, done: seq<u8>, t: string, q: nat, p: nat)
    requires q <= p <= |t| && Progress(goal, done, t, q) && t[p..] == SkipSpace(t[q..])
    ensures Progress(goal, done, t, p)
    ensures p == |t| ==> goal == Some(done)
  {
    SkipThenDecode(t[q..]);
    if p == |t| {
      assert t[p..] == "";
      assert done + [] == done;
    }
  }

  lemma PairAt(t: string, p: nat)
    requires p + 1 < |t| && Nibble(t[p]).Some? && Nibble(t[p + 1]).Some?
    ensures DecodePairs(t[p..])
            == Prepend([Nibble(t[p]).value * 16 + Nibble(t[p + 1]).value], DecodePairs(t[p + 2..]))
  {
    var u := t[p..];
    assert u[2..] == t[p + 2..] && u[0] == t[p] && u[1] == t[p + 1];
  }

  lemma ProgressPair(goal: Option<seq<u8>>, done: seq<u8>, t: string, p: nat)
    requires p + 1 < |t| && Nibble(t[p]).Some? && Nibble(t[p + 1]).Some? && Progress(goal, done, t, p)
    ensures Progress(goal, done + [Nibble(t[p]).value * 16 + Nibble(t[p + 1]).value], t, p + 2)
    ensures goal.Some? ==> |goal.value| > |done|
  {
    hide DecodePairs, Nibble;
    PairAt(t, p);
    var v, rest := Nibble(t[p]).value * 16 + Nibble(t[p + 1]).value, DecodePairs(t[p + 2..]);
    if rest.Some? {
      assert done + ([v] + rest.value) == (done + [v]) + rest.value;
    }
  }

  lemma ProgressStuck(goal: Option<seq<u8>>, done: seq<u8>, t: string, p: nat)
    requires p < |t| && !IsSpace(t[p]) && Progress(goal, done, t, p)
    requires p + 1 < |t| ==> Nibble(t[p]).None? || Nibble(t[p + 1]).None?
    ensures goal.None?
  {
    assert t[p..][0] == t[p];
    assert p + 1 < |t| ==> t[p..][1] == t[p + 1];
  }

  /** Decodes a text into the buffer; the buffer's prefix holds the bytes on success. */
  method ParseUserImageHex(text: CText, code: array<u8>) returns (ok: bool, len: nat)
    modifies code
    ensures ok <==> Decode(text, code.Length).Some?
    ensures ok ==> len <= code.Length && code[..len] == Decode(text, code.Length).value
  {
    hide DecodePairs, AfterKeyword, SkipSpace, Progress, Nibble, IsSpace;
    len := 0;
    if code.Length == 0 {
      return false, 0;
    }
    var p := SkipKeyword(text);
    ghost var goal := DecodePairs(AfterKeyword(text));
    ProgressStart(text, p);
    assert code[..0] == [];
    while true
      invariant 0 <= len <= code.Length && p <= |text|
      invariant Progress(goal, code[..len], text, p)
      decreases |text| - p
    {
      ghost var q, was := p, code[..len];
      p := SkipWs(text, p);
      ProgressSkips(goal, was, text, q, p);
      if At(text, p) == '\0' {
        break;
      }
      if At(text, p + 1) == '\0' {
        ProgressStuck(goal, was, text, p);
        return false, 0;
      }
      var hi, lo := Nibble(text[p]), Nibble(text[p + 1]);
      if hi.None? || lo.None? {
        ProgressStuck(goal, was, text, p);
        return false, 0;
      }
      ProgressPair(goal, was, text, p);
      if len >= code.Length {
        return false, 0;
      }
      code[len] := hi.value * 16 + lo.value;
      len := len + 1;
      assert code[..len] == was + [code[len - 1]];
      p := p + 2;
    }
    ok := len != 0;
  }
}
