/** Reading and printing 32-bit numbers. */
module Numbers {
  import opened Words
  import opened Marshex

  // Reading

  function DigitOf(c: char, base: int): (r: Option<int>)
    ensures r.Some? ==> 0 <= r.value < base || base < 10
  {
    if '0' <= c <= '9' then Some(c as int - '0' as int)
    else if base == 16 && 'a' <= c <= 'f' then Some(10 + (c as int - 'a' as int))
    else if base == 16 && 'A' <= c <= 'F' then Some(10 + (c as int - 'A' as int))
    else None
  }

  /** The sixteen digits by value; letters of either case. */
  lemma DigitTable(k: int)
    requires 0 <= k < 16
    ensures DigitOf("0123456789abcdef"[k], 16) == DigitOf("0123456789ABCDEF"[k], 16) == Some(k)
    ensures k < 10 ==> DigitOf("0123456789"[k], 10) == Some(k)
  {
  }

  predicate AllDigits(s: string, base: int) {
    forall i :: 0 <= i < |s| ==> DigitOf(s[i], base).Some?
  }

  /** The number that the digits stand for, unbounded. */
  function Value(s: string, base: int): (v: int)
    requires AllDigits(s, base)
  {
    if s == "" then 0 else Value(s[..|s| - 1], base) * base + DigitOf(s[|s| - 1], base).value
  }

  function Power(base: int, n: nat): (r: int) {
    if n == 0 then 1 else base * Power(base, n - 1)
  }

  /** The first digit counts most: it stands before as many places as digits follow it. */
  lemma {:induction false} FirstDigit(c: char, s: string, base: int)
    requires AllDigits([c] + s, base)
    ensures AllDigits(s, base) && DigitOf(c, base).Some?
    ensures Value([c] + s, base) == DigitOf(c, base).value * Power(base, |s|) + Value(s, base)
  {
    var t := [c] + s;
    assert t[0] == c && forall i :: 0 <= i < |s| ==> s[i] == t[i + 1];
    if s == "" {
      assert t[..0] == "";
    } else {
      var front, last, d := s[..|s| - 1], DigitOf(s[|s| - 1], base).value, DigitOf(c, base).value;
      assert t[..|t| - 1] == [c] + front && t[|t| - 1] == s[|s| - 1];
      FirstDigit(c, front, base);
      var p := Power(base, |front|);
      assert Value(t, base) == (d * p + Value(front, base)) * base + last;
      Distribute(d, p, Value(front, base), base);
    }
  }

  lemma Distribute(d: int, p: int, v: int, base: int)
    ensures (d * p + v) * base == d * (base * p) + v * base
  {
  }

  lemma {:induction false} ValueGrows(s: string, base: int, i: int)
    requires (base == 10 || base == 16) && AllDigits(s, base) && 0 <= i <= |s|
    ensures 0 <= Value(s[..i], base) <= Value(s, base)
  {
    if i < |s| {
      ValueGrows(s[..|s| - 1], base, i);
      assert s[..|s| - 1][..i] == s[..i];
    } else {
      assert s[..i] == s;
      if s != "" {
        ValueGrows(s[..|s| - 1], base, |s| - 1);
      }
    }
  }

  /** The numeral `s` is accepted, and this is its value. */
  ghost predicate Reads(s: string, base: int, v: int) {
    s != "" && AllDigits(s, base) && Value(s, base) == v <= U32_MAX
  }

  /** One digit more, in 32-bit arithmetic: the two checks together catch exactly the overflow. */
  lemma OneDigit(value: u32, base: int, digit: int)
    requires (base == 10 || base == 16) && 0 <= digit < base
    ensures var x := value * base + digit;
            x <= U32_MAX <==> value <= U32_MAX / base && Wrap32(x) >= digit
    ensures var x := value * base + digit; x <= U32_MAX ==> Wrap32(x) == x
  {
    var x := value * base + digit;
    if value <= U32_MAX / base && x > U32_MAX {
      assert x < U32_LIMIT + digit;
      assert Wrap32(x) == x - U32_LIMIT;
    }
  }

  lemma DigitBelow(c: char, base: int)
    requires base == 10 || base == 16
    ensures DigitOf(c, base).Some? ==> 0 <= DigitOf(c, base).value < base
  {
  }

  /** Digit by digit, in 32-bit arithmetic: accepted exactly when the value fits, however many leading zeros. */
  method Accumulate(s: CText, base: int) returns (r: Option<u32>)
    requires base == 10 || base == 16
    ensures r.Some? ==> Reads(s, base, r.value)
    ensures forall v :: Reads(s, base, v) ==> r == Some(v)
  {
    hide DigitOf, Wrap32;
    if s == "" {
      return None;
    }
    var value: u32, i := 0, 0;
    while i < |s|
      invariant 0 <= i <= |s| && AllDigits(s[..i], base) && value == Value(s[..i], base)
    {
      assert s[..i + 1][..i] == s[..i];
      var digit := DigitOf(s[i], base);
      if digit.None? {
        return None;
      }
      DigitBelow(s[i], base);
      OneDigit(value, base, digit.value);
      if AllDigits(s, base) {
        ValueGrows(s, base, i + 1);
      }
      if value > U32_MAX / base {
        return None;
      }
      value := Wrap32(value * base + digit.value);
      if value < digit.value {
        return None;
      }
      i := i + 1;
    }
    assert s[..i] == s;
    return Some(value);
  }

  method ParseU32(s: CText) returns (r: Option<u32>)
    ensures r.Some? ==> Reads(s, 10, r.value)
    ensures forall v :: Reads(s, 10, v) ==> r == Some(v)
  {
    r := Accumulate(s, 10);
  }

  predicate HexPrefixed(s: string) { |s| >= 2 && s[0] == '0' && (s[1] == 'x' || s[1] == 'X') }

  /** Hexadecimal with a prefix, decimal without. */
  ghost predicate ReadsAuto(s: string, v: int) {
    if HexPrefixed(s) then Reads(s[2..], 16, v) else Reads(s, 10, v)
  }

  method ParseU32Auto(s: CText) returns (r: Option<u32>)
    ensures r.Some? ==> ReadsAuto(s, r.value)
    ensures forall v :: ReadsAuto(s, v) ==> r == Some(v)
  {
    if HexPrefixed(s) {
      r := Accumulate(s[2..], 16);
    } else {
      r := Accumulate(s, 10);
    }
  }

  // Printing

  function Glyph(d: int): (c: char)
    requires 0 <= d < 16
    ensures DigitOf(c, 16) == Some(d) && (d < 10 ==> DigitOf(c, 10) == Some(d)) && c != '\0'
    ensures d > 0 ==> c != '0'
  {
    if d < 10 then d as char + '0' else (d - 10) as char + 'A'
  }

  lemma GlyphTable(d: int)
    requires 0 <= d < 16
    ensures Glyph(d) == "0123456789ABCDEF"[d]
  {
  }

  /** The digits of a positive number, without leading zeros; nothing for zero. */
  function Digits(v: int): (s: string)
    requires v >= 0
  {
    if v == 0 then "" else Digits(v / 10) + [Glyph(v % 10)]
  }

  function Decimal(v: int): (s: string)
    requires v >= 0
  {
    if v == 0 then "0" else Digits(v)
  }

  lemma {:induction false} DigitsRead(v: int)
    requires v >= 0
    ensures AllDigits(Digits(v), 10) && Value(Digits(v), 10) == v
    ensures v > 0 ==> Digits(v) != "" && Digits(v)[0] != '0'
    ensures forall i :: 0 <= i < |Digits(v)| ==> Digits(v)[i] != '\0'
  {
    if v > 0 {
      DigitsRead(v / 10);
      var s := Digits(v);
      assert s[..|s| - 1] == Digits(v / 10);
    }
  }

  function Pow10(k: nat): (p: int)
    ensures p > 0
  {
    if k == 0 then 1 else 10 * Pow10(k - 1)
  }

  lemma {:induction false} DigitsLength(v: int, k: nat)
    requires 0 <= v < Pow10(k)
    ensures |Digits(v)| <= k
  {
    if v > 0 {
      DigitsLength(v / 10, k - 1);
    }
  }

  function Reverse(s: string): (r: string) {
    if s == "" then "" else [s[|s| - 1]] + Reverse(s[..|s| - 1])
  }

  /** Ten places are enough for the digits of a word. */
  lemma TenPlaces(v: u32)
    ensures |Digits(v)| <= 10
  {
    assert Pow10(10) == 10_000_000_000 by {
      assert Pow10(5) == 100_000;
      assert Pow10(7) == 10_000_000;
      assert Pow10(9) == 1_000_000_000;
    }
    DigitsLength(v, 10);
  }

  /** Fills the buffer with digits, the last one first. */
  method FillDigits(v: u32, buf: array<char>) returns (n: int)
    requires buf.Length == 10
    modifies buf
    ensures 0 <= n <= 10 && Reverse(buf[..n]) == Digits(v)
  {
    hide Glyph;
    n := 0;
    var value := v as int;
    TenPlaces(v);
    while value > 0
      invariant 0 <= n <= 10 && 0 <= value <= v
      invariant Digits(v) == Digits(value) + Reverse(buf[..n]) && n + |Digits(value)| == |Digits(v)|
      decreases value
    {
      ghost var done := buf[..n];
      buf[n] := Glyph(value % 10);
      n := n + 1;
      value := value / 10;
      assert buf[..n][..n - 1] == done;
    }
  }

  method Emit(buf: array<char>, n: int) returns (s: string)
    requires 0 <= n <= buf.Length
    ensures s == Reverse(buf[..n])
  {
    s := "";
    var i := n;
    while i > 0
      invariant 0 <= i <= n && Reverse(buf[..n]) == s + Reverse(buf[..i])
    {
      assert buf[..i][..i - 1] == buf[..i - 1];
      i := i - 1;
      s := s + [buf[i]];
    }
  }

  /** Fills a buffer with digits from the right and emits it backwards. */
  method PutDec(v: u32) returns (s: CText)
    ensures s == Decimal(v)
  {
    hide Digits, Reverse;
    if v == 0 {
      return "0";
    }
    var buf := new char[10];
    var n := FillDigits(v, buf);
    DigitsRead(v);
    s := Emit(buf, n);
  }

  /** A number shifted right by `k` hexadecimal digits. */
  function Shift(v: int, k: nat): (r: int)
    requires v >= 0
    ensures 0 <= r
  {
    if k == 0 then v else Shift(v, k - 1) / 16
  }

  /** The last `n` hexadecimal digits. */
  function Hex(v: int, n: nat): (s: string)
    requires v >= 0
    ensures |s| == n
  {
    if n == 0 then "" else Hex(v / 16, n - 1) + [Glyph(v % 16)]
  }

  function Pow16(k: nat): (p: int)
    ensures p > 0
  {
    if k == 0 then 1 else 16 * Pow16(k - 1)
  }

  lemma {:induction false} HexRead(v: int, n: nat)
    requires 0 <= v < Pow16(n)
    ensures AllDigits(Hex(v, n), 16) && Value(Hex(v, n), 16) == v
    ensures forall i :: 0 <= i < n ==> Hex(v, n)[i] != '\0'
  {
    if n > 0 {
      HexRead(v / 16, n - 1);
      var s := Hex(v, n);
      assert s[..n - 1] == Hex(v / 16, n - 1);
    }
  }

  lemma WordDigits(v: u32)
    ensures v < Pow16(8)
  {
    assert Pow16(4) == 0x1_0000;
    assert Pow16(6) == 0x100_0000;
  }

  /** A prefix and eight digits, most significant first. */
  method PutHex(v: u32) returns (s: CText)
    ensures s == "0x" + Hex(v, 8)
  {
    WordDigits(v);
    HexRead(v, 8);
    s := "0x";
    for i := 0 to 8
      invariant s == "0x" + Hex(Shift(v, 8 - i), i)
    {
      s := s + [Glyph(Shift(v, 7 - i) % 16)];
    }
  }

  // Round trips

  lemma DecimalReads(v: u32)
    ensures Reads(Decimal(v), 10, v) && !HexPrefixed(Decimal(v))
  {
    hide Digits;
    DigitsRead(v);
    if v == 0 {
      assert "0"[..0] == "";
      assert Value("0", 10) == 0;
    }
  }

  lemma HexReads(v: u32)
    ensures HexPrefixed("0x" + Hex(v, 8)) && Reads(("0x" + Hex(v, 8))[2..], 16, v)
  {
    hide Hex, Value, AllDigits, Pow16;
    WordDigits(v);
    HexRead(v, 8);
    assert ("0x" + Hex(v, 8))[2..] == Hex(v, 8);
  }

  /** Every printed number is read back as itself, in either notation. */
  lemma PrintedReads(v: u32)
    ensures Reads(Decimal(v), 10, v) && ReadsAuto(Decimal(v), v) && ReadsAuto("0x" + Hex(v, 8), v)
  {
    hide Reads, Decimal, Hex, HexPrefixed;
    DecimalReads(v);
    HexReads(v);
  }
}
