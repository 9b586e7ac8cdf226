/** Model of the text formatting in src/ui/ui_common.c: amounts with six decimals
    and BIP32 paths wrapped to the screen. */
module Format {
  import opened Arithmetic
  import opened Bytes
  import opened Config

  const MAX_INT_DEC := 1_000_000_000
  const BIP32_LINE_LENGTH := 22

  datatype Exception = InvalidParameter | Unknown
  datatype Formatted = Written | Throw(exception: Exception)

  // ------------------------------------------------------------------- decimals

  function DigitChar(d: nat): char
    requires d < 16
  {
    "0123456789abcdef"[d]
  }

  /** "%u" */
  function Dec(v: nat): (s: string)
    ensures |s| > 0
  {
    if v < 10 then [DigitChar(v)] else Dec(v / 10) + [DigitChar(v % 10)]
  }

  /** "%0nu", for values of at most `n` digits. */
  function ZeroPadded(v: nat, n: nat): (s: string)
    ensures |s| == n
  {
    if n == 0 then "" else ZeroPadded(v / 10, n - 1) + [DigitChar(v % 10)]
  }

  function Pow10(n: nat): (p: nat)
    ensures p > 0
  {
    if n == 0 then 1 else 10 * Pow10(n - 1)
  }

  lemma TenfoldSplit(v: nat, m: nat)
    requires m > 0
    ensures v / (10 * m) == v / 10 / m && v % (10 * m) == v / 10 % m * 10 + v % 10
  {
    var q, r := v / 10 / m, v / 10 % m;
    assert v == 10 * (q * m + r) + v % 10;
    assert 10 * (q * m) == q * (10 * m);
    DivModIs(v, 10 * m, q, 10 * r + v % 10);
  }

  /** Printing a number in two pieces, as `"%u%09u"` does. */
  lemma {:induction false} DecSplit(v: nat, n: nat)
    requires v >= Pow10(n)
    ensures Dec(v) == Dec(v / Pow10(n)) + ZeroPadded(v % Pow10(n), n)
    decreases n, 0
  {
    if n == 0 {
    } else {
      var m := Pow10(n - 1);
      assert Pow10(n) == 10 * m;
      DecSplitStep(v, m, n - 1);
    }
  }

  lemma DecSplitStep(v: nat, m: nat, n: nat)
    requires m == Pow10(n) && v >= 10 * m
    ensures Dec(v) == Dec(v / (10 * m)) + ZeroPadded(v % (10 * m), n + 1)
    decreases n, 1
  {
    hide DigitChar, Pow10;
    TenfoldSplit(v, m);
    DecSplit(v / 10, n);
    var r := v / 10 % m;
    DivModIs(v % (10 * m), 10, r, v % 10);
    assert ZeroPadded(v % (10 * m), n + 1) == ZeroPadded(r, n) + [DigitChar(v % 10)];
  }

  lemma {:induction false} DecLength(v: nat, n: nat)
    requires 0 < n && v < Pow10(n)
    ensures |Dec(v)| <= n
  {
    if v < 10 {
    } else {
      DecLength(v / 10, n - 1);
    }
  }

  /** The text shown for an amount: integer part, point, six decimals. */
  function AmountText(v: nat): string {
    Dec(v / 1_000_000) + "." + ZeroPadded(v % 1_000_000, 6)
  }

  function DigitValue(c: char): Option<nat> {
    if '0' <= c <= '9' then Some(c as int - '0' as int) else None
  }

  /** Reading a string of decimal digits. */
  function ParseDec(s: string): Option<nat> {
    if |s| == 0 then Some(0)
    else match (ParseDec(s[..|s|-1]), DigitValue(s[|s|-1]))
      case (Some(v), Some(d)) => Some(10 * v + d)
      case _ => None
  }

  /** Reading an amount back: exactly six digits after the point. */
  function ParseAmount(s: string): Option<nat> {
    if |s| < 8 || s[|s|-7] != '.' then None
    else match (ParseDec(s[..|s|-7]), ParseDec(s[|s|-6..]))
      case (Some(i), Some(f)) => Some(i * 1_000_000 + f)
      case _ => None
  }

  lemma DigitValueOfChar(d: nat)
    requires d < 10
    ensures DigitValue(DigitChar(d)) == Some(d)
  {}

  lemma {:induction false} ParseDecOfDec(v: nat)
    ensures ParseDec(Dec(v)) == Some(v)
  {
    hide DigitChar, DigitValue;
    DigitValueOfChar(v % 10);
    if v >= 10 {
      ParseDecOfDec(v / 10);
      assert Dec(v)[..|Dec(v)|-1] == Dec(v / 10);
    } else {
      assert Dec(v)[..0] == "";
    }
  }

  lemma {:induction false} ParseDecOfZeroPadded(v: nat, n: nat)
    requires v < Pow10(n)
    ensures ParseDec(ZeroPadded(v, n)) == Some(v)
  {
    hide DigitChar, DigitValue;
    if n == 0 {
    } else {
      DigitValueOfChar(v % 10);
      ParseDecOfZeroPadded(v / 10, n - 1);
      assert ZeroPadded(v, n)[..n-1] == ZeroPadded(v / 10, n - 1);
    }
  }

  lemma Pow10Values()
    ensures Pow10(6) == 1_000_000 && Pow10(9) == MAX_INT_DEC
    ensures Pow10(18) == MAX_INT_DEC * MAX_INT_DEC
  {
    assert Pow10(3) == 1000;
    assert Pow10(12) == 1_000_000 * Pow10(6) by {
      assert Pow10(9) == 1000 * Pow10(6);
      assert Pow10(12) == 1000 * Pow10(9);
    }
    assert Pow10(15) == 1000 * Pow10(12);
    assert Pow10(18) == 1000 * Pow10(15);
  }

  /** The amount shown is the amount: reading the text gives the value back. */
  lemma AmountRoundTrip(v: nat)
    ensures ParseAmount(AmountText(v)) == Some(v)
  {
    hide DigitChar, DigitValue, ParseDec, Dec, ZeroPadded;
    Pow10Values();
    var i, f := Dec(v / 1_000_000), ZeroPadded(v % 1_000_000, 6);
    ParseDecOfDec(v / 1_000_000);
    ParseDecOfZeroPadded(v % 1_000_000, 6);
    var s := AmountText(v);
    assert s[..|s|-7] == i && s[|s|-6..] == f && s[|s|-7] == '.';
  }

  // ---------------------------------------------------------- writing C strings

  /** `s` holds `text` and a terminator from offset `o` on. */
  predicate HoldsAt(s: seq<char>, o: nat, text: string) {
    o + |text| < |s| && s[o..o+|text|] == text && s[o+|text|] == 0 as char
  }

  function Cut(text: string, n: nat): string { if |text| < n then text else text[..n] }

  /** `snprintf` of an already formatted text into `n` bytes at offset `o`; into no
      bytes it writes nothing. */
  method Snprintf(dst: array<char>, o: nat, n: nat, text: string)
    requires n > 0 ==> o + n <= dst.Length
    modifies dst
    ensures n == 0 ==> dst[..] == old(dst[..])
    ensures n > 0 ==> HoldsAt(dst[..], o, Cut(text, n - 1)) && dst[..o] == old(dst[..o])
    ensures n > 0 ==> forall k :: o + |Cut(text, n - 1)| < k < dst.Length ==> dst[k] == old(dst[k])
  {
    if n == 0 {
      return;
    }
    var cut := Cut(text, n - 1);
    for i := 0 to |cut|
      invariant dst[..o] == old(dst[..o]) && dst[o..o+i] == cut[..i]
      invariant forall k :: o + i <= k < dst.Length ==> dst[k] == old(dst[k])
    {
      dst[o + i] := cut[i];
    }
    dst[o + |cut|] := 0 as char;
    assert dst[..][o..o+|cut|] == cut;
  }

  /** `format_u64` into its caller's 21-byte buffer. */
  method FormatU64(s: array<char>, val: u64) returns (r: Formatted, numLen: nat)
    requires s.Length == 21
    modifies s
    ensures r == if val < MAX_INT_DEC * MAX_INT_DEC then Written else Throw(InvalidParameter)
    ensures r.Written? ==> numLen == |Dec(val)| <= 18 && HoldsAt(s[..], 0, Dec(val))
  {
    hide Dec, ZeroPadded, DigitChar;
    Pow10Values();
    if val >= MAX_INT_DEC * MAX_INT_DEC {
      return Throw(InvalidParameter), 0;
    }
    DecLength(val, 18);
    if val < MAX_INT_DEC {
      Snprintf(s, 0, s.Length, Dec(val));
    } else {
      DecSplit(val, 9);
      Snprintf(s, 0, s.Length, Dec(val / MAX_INT_DEC) + ZeroPadded(val % MAX_INT_DEC, 9));
    }
    r, numLen := Written, |Dec(val)|;
  }

  /** The copying loop of `format_value_full_decimals`: a point goes in front of
      the last six digits. */
  method InsertPoint(s: array<char>, buffer: array<char>, numLen: nat, ghost head: string, ghost last: string)
    requires s != buffer && numLen + 2 <= s.Length && numLen <= buffer.Length
    requires buffer[..numLen] == head + last && |last| == 6
    modifies s
    ensures HoldsAt(s[..], 0, head + "." + last)
  {
    ghost var text := head + "." + last;
    var dst := 0;
    for i := 0 to numLen
      invariant dst == if i > numLen - 6 then i + 1 else i
      invariant buffer[..numLen] == head + last
      invariant s[..dst] == text[..dst]
    {
      if i == numLen - 6 {
        s[dst] := '.';
        dst := dst + 1;
        assert s[..dst] == text[..dst];
      }
      assert buffer[i] == (head + last)[i];
      s[dst] := buffer[i];
      dst := dst + 1;
    }
    s[dst] := 0 as char;
    assert s[..][0..dst] == text;
  }

  /** `format_value_full_decimals`: amounts from 10^18 on and buffers too short for
      the digits throw; otherwise the text is exact, except that a value below 10^6
      is cut off in a buffer of fewer than nine bytes. */
  method FormatValueFullDecimals(s: array<char>, n: nat, val: u64) returns (r: Formatted)
    requires n <= s.Length
    modifies s
    ensures r == if val >= MAX_INT_DEC * MAX_INT_DEC then Throw(InvalidParameter)
                 else if n < |Dec(val)| + 2 then Throw(Unknown) else Written
    ensures r.Written? && (val >= 1_000_000 || n >= 9) ==> HoldsAt(s[..], 0, AmountText(val))
    ensures r.Written? && val < 1_000_000 && n < 9 ==> HoldsAt(s[..], 0, AmountText(val)[..n-1])
  {
    hide Dec, ZeroPadded, DigitChar;
    var buffer := new char[21](_ => 0 as char);
    var numLen;
    r, numLen := FormatU64(buffer, val);
    if r.Throw? {
      return;
    }
    if n < numLen + 2 {
      return Throw(Unknown);
    }
    Pow10Values();
    if val < 1_000_000 {
      DecOfZero();
      assert "0." == Dec(0) + ".";
      Snprintf(s, 0, n, "0." + ZeroPadded(val, 6));
      assert AmountText(val) == "0." + ZeroPadded(val, 6);
      return Written;
    }
    DecSplit(val, 6);
    InsertPoint(s, buffer, numLen, Dec(val / 1_000_000), ZeroPadded(val % 1_000_000, 6));
    r := Written;
  }

  lemma DecOfZero()
    ensures Dec(0) == "0"
  {}

  // ----------------------------------------------------------------- BIP32 paths

  /** "%x" */
  function Hex(v: nat): (s: string)
    ensures |s| > 0
  {
    if v < 16 then [DigitChar(v)] else Hex(v / 16) + [DigitChar(v % 16)]
  }

  function Pow16(n: nat): (p: nat)
    ensures p > 0
  {
    if n == 0 then 1 else 16 * Pow16(n - 1)
  }

  /** Between 16^(n-1) and 16^n the hex text has n digits. */
  lemma {:induction false} HexLength(v: nat, n: nat)
    requires 0 < n && v < Pow16(n) && (n == 1 || Pow16(n - 1) <= v)
    ensures |Hex(v)| == n
  {
    if n == 1 {
    } else {
      HexLength(v / 16, n - 1);
      assert v >= 16;
    }
  }

  lemma Pow16Values()
    ensures Pow16(7) == 0x1000_0000 && Pow16(8) == 0x1_0000_0000
  {
    assert Pow16(3) == 0x1000 && Pow16(5) == 0x10_0000;
  }

  lemma Shifted(x: nat, p: nat, q: nat)
    requires p > 0
    ensures x * p >= q * p ==> x >= q
    ensures x * p < q * p ==> x < q
    ensures 16 * (x * p) == x * (16 * p)
  {
    if x < q {
      assert (q - x) * p > 0;
    } else {
      assert (x - q) * p >= 0;
    }
  }

  /** Writing `v` shifted left by `8 - len` digits: its top digit decides. */
  lemma TopDigit(v0: u32, v: u32, len: nat)
    requires 1 <= len <= 8 && v0 < Pow16(len) && v == v0 * Pow16(8 - len)
    ensures v >= 0x1000_0000 ==> |Hex(v0)| == len
    ensures v < 0x1000_0000 && len == 1 ==> v == 0
    ensures v < 0x1000_0000 && len > 1 ==> v0 < Pow16(len - 1) && 16 * v == v0 * Pow16(9 - len)
  {
    hide Hex;
    Pow16Values();
    PowProduct(len);
    if len > 1 {
      Shifted(v0, Pow16(8 - len), Pow16(len - 1));
      if v >= 0x1000_0000 {
        HexLength(v0, len);
      }
    } else {
      if v >= 0x1000_0000 {
        HexLength(v0, 1);
      }
    }
  }

  lemma PowProduct(len: nat)
    requires 1 <= len <= 8
    ensures Pow16(len - 1) * Pow16(8 - len) == 0x1000_0000
  {
    assert Pow16(0) == 1 && Pow16(1) == 16 && Pow16(2) == 256 && Pow16(3) == 4096;
    assert Pow16(4) == 0x1_0000 && Pow16(5) == 0x10_0000 && Pow16(6) == 0x100_0000;
    Pow16Values();
  }

  /** `hex_len` counts the hex digits. */
  method HexLen(v0: u32) returns (n: nat)
    ensures n == |Hex(v0)|
  {
    hide Hex;
    var v: u32, len := v0, 8;
    Pow16Values();
    HexZero();
    while v != 0
      invariant 1 <= len <= 8 && v0 < Pow16(len) && v == v0 * Pow16(8 - len)
      invariant v0 == 0 ==> v == 0
      decreases len
    {
      TopDigit(v0, v, len);
      if v >= 0x1000_0000 {
        return len;
      }
      v := v * 16 % 0x1_0000_0000;
      len := len - 1;
    }
    assert v0 == 0 by {
      if v0 > 0 {
        Shifted(v0, Pow16(8 - len), 1);
      }
    }
    return 1;
  }

  lemma HexZero()
    ensures Hex(0) == "0"
  {}

  /** One component without its hardening bit, with its marks. */
  function Component(path: path, i: nat): (s: string)
    requires i < BIP32_PATH_LEN
    ensures |s| == |Hex(path[i] % 0x8000_0000)| + if i < BIP32_PATH_LEN - 1 then 2 else 1
  {
    Hex(path[i] % 0x8000_0000) + if i < BIP32_PATH_LEN - 1 then "'/" else "'"
  }

  datatype Cursor = Cursor(line: nat, used: nat)

  /** Where the greedy wrapping stands after `k` components. */
  function Place(path: path, k: nat): Cursor
    requires k <= BIP32_PATH_LEN
  {
    if k == 0 then Cursor(0, 0)
    else
      var c, len := Place(path, k - 1), |Component(path, k - 1)|;
      if c.used + len > BIP32_LINE_LENGTH then Cursor(c.line + 1, len) else Cursor(c.line, c.used + len)
  }

  /** The whole components among the first `k` that fall on line `l`. */
  function Line(path: path, l: int, k: nat): string
    requires k <= BIP32_PATH_LEN
  {
    if k == 0 then ""
    else Line(path, l, k - 1) + if Place(path, k).line == l then Component(path, k - 1) else ""
  }

  /** The unwrapped path. */
  function PathText(path: path, k: nat): string
    requires k <= BIP32_PATH_LEN
  {
    if k == 0 then "" else PathText(path, k - 1) + Component(path, k - 1)
  }

  function LineCount(path: path): nat { Place(path, BIP32_PATH_LEN).line + 1 }

  /** The first `m` lines, with line breaks between them. */
  function Joined(path: path, m: nat): string {
    if m == 0 then ""
    else if m == 1 then Line(path, 0, BIP32_PATH_LEN)
    else Joined(path, m - 1) + "\n" + Line(path, m - 1, BIP32_PATH_LEN)
  }

  function Wrapped(path: path): string { Joined(path, LineCount(path)) }

  lemma {:induction false} HexLengthAtMost(v: nat, n: nat)
    requires 0 < n && v < Pow16(n)
    ensures |Hex(v)| <= n
  {
    if v < 16 {
    } else {
      HexLengthAtMost(v / 16, n - 1);
    }
  }

  lemma ComponentLength(path: path, i: nat)
    requires i < BIP32_PATH_LEN
    ensures 2 <= |Component(path, i)| <= if i < BIP32_PATH_LEN - 1 then 10 else 9
  {
    Pow16Values();
    HexLengthAtMost(path[i] % 0x8000_0000, 8);
  }

  /** At most two line breaks are needed, and the cursor never passes the margin. */
  lemma PlaceBounds(path: path)
    ensures forall k :: 0 <= k <= BIP32_PATH_LEN ==>
      Place(path, k).line <= k / 2 && Place(path, k).used <= BIP32_LINE_LENGTH
    ensures Place(path, 1).line == 0
  {
    hide Component;
    ComponentLength(path, 0);
    ComponentLength(path, 1);
    ComponentLength(path, 2);
    ComponentLength(path, 3);
    ComponentLength(path, 4);
    var c1, c2, c3 := Place(path, 1), Place(path, 2), Place(path, 3);
    var c4, c5 := Place(path, 4), Place(path, 5);
    assert Place(path, 0) == Cursor(0, 0);
    assert c1 == Cursor(0, |Component(path, 0)|);
    assert c2 == Cursor(0, c1.used + |Component(path, 1)|);
    assert c3.line == 0 || c3 == Cursor(1, |Component(path, 2)|);
    assert c4.line <= 1 || c4.line == c3.line + 1;
    assert c4.line <= 1;
  }

  lemma {:induction false} LineFacts(path: path, l: nat, k: nat)
    requires k <= BIP32_PATH_LEN
    ensures l == Place(path, k).line ==> |Line(path, l, k)| == Place(path, k).used
    ensures l > Place(path, k).line ==> Line(path, l, k) == ""
    ensures l < Place(path, k).line ==> 0 < |Line(path, l, k)|
    ensures |Line(path, l, k)| <= BIP32_LINE_LENGTH
  {
    hide Component;
    PlaceBounds(path);
    if k == 0 {
    } else {
      LineFacts(path, l, k - 1);
      ComponentLength(path, k - 1);
    }
  }

  lemma PlaceMonotone(path: path, k: nat)
    requires 0 < k <= BIP32_PATH_LEN
    ensures Place(path, k - 1).line <= Place(path, k).line
  {}

  lemma {:induction false} UsedPositive(path: path, k: nat)
    requires 0 < k <= BIP32_PATH_LEN
    ensures Place(path, k).used > 0
  {
    hide Component;
    ComponentLength(path, k - 1);
    if k == 1 {
    } else {
      UsedPositive(path, k - 1);
    }
  }

  /** The three lines together are the path, component after component. */
  lemma {:induction false} LinesMakePath(path: path, k: nat)
    requires k <= BIP32_PATH_LEN
    ensures Line(path, 0, k) + Line(path, 1, k) + Line(path, 2, k) == PathText(path, k)
  {
    hide Component, Place, Line;
    PlaceBounds(path);
    if k == 0 {
      NoLines(path);
    } else {
      LinesMakePath(path, k - 1);
      LineFacts(path, 1, k - 1);
      LineFacts(path, 2, k - 1);
      PlaceMonotone(path, k);
      LineFacts(path, 1, k);
      LineFacts(path, 2, k);
      LinesMakePathStep(path, k);
    }
  }

  lemma NoLines(path: path)
    ensures Line(path, 0, 0) == Line(path, 1, 0) == Line(path, 2, 0) == PathText(path, 0) == ""
  {}

  lemma LinesMakePathStep(path: path, k: nat)
    requires 0 < k <= BIP32_PATH_LEN && Place(path, k).line <= 2
    requires Line(path, 0, k - 1) + Line(path, 1, k - 1) + Line(path, 2, k - 1) == PathText(path, k - 1)
    requires Place(path, k).line < 1 ==> Line(path, 1, k - 1) == ""
    requires Place(path, k).line < 2 ==> Line(path, 2, k - 1) == ""
    ensures Line(path, 0, k) + Line(path, 1, k) + Line(path, 2, k) == PathText(path, k)
  {
    hide Component, Place, Line, PathText;
    LineStep(path, 0, k - 1);
    LineStep(path, 1, k - 1);
    LineStep(path, 2, k - 1);
    PathStep(path, k);
    AppendOnLine(Line(path, 0, k - 1), Line(path, 1, k - 1), Line(path, 2, k - 1), Component(path, k - 1),
                 Place(path, k).line);
  }

  lemma PathStep(path: path, k: nat)
    requires 0 < k <= BIP32_PATH_LEN
    ensures PathText(path, k) == PathText(path, k - 1) + Component(path, k - 1)
  {}

  /** What goes behind the last line in use goes behind the whole text. */
  lemma AppendOnLine(a: string, b: string, c: string, x: string, l: nat)
    requires l <= 2 && (l < 1 ==> b == "") && (l < 2 ==> c == "")
    ensures (a + if l == 0 then x else "") + (b + if l == 1 then x else "") + (c + if l == 2 then x else "")
         == a + b + c + x
  {
    if l == 0 {
      assert a + x + ("" + "") + ("" + "") == a + "" + "" + x;
    } else if l == 1 {
      assert a + "" + (b + x) + ("" + "") == a + b + "" + x;
    } else {
      assert a + "" + (b + "") + (c + x) == a + b + c + x;
    }
  }

  function WithoutBreaks(s: string): string {
    if |s| == 0 then ""
    else WithoutBreaks(s[..|s|-1]) + if s[|s|-1] == '\n' then "" else [s[|s|-1]]
  }

  predicate NoBreak(s: string) { forall i :: 0 <= i < |s| ==> s[i] != '\n' }

  lemma {:induction false} HexNoBreak(v: nat)
    ensures NoBreak(Hex(v)) && forall i :: 0 <= i < |Hex(v)| ==> Hex(v)[i] != '\''
  {
    if v < 16 {
    } else {
      HexNoBreak(v / 16);
    }
  }

  lemma {:induction false} LineNoBreak(path: path, l: nat, k: nat)
    requires k <= BIP32_PATH_LEN
    ensures NoBreak(Line(path, l, k))
  {
    if k == 0 {
    } else {
      LineNoBreak(path, l, k - 1);
      HexNoBreak(path[k-1] % 0x8000_0000);
    }
  }

  lemma {:induction false} WithoutBreaksConcat(s: string, t: string)
    requires NoBreak(t)
    ensures WithoutBreaks(s + t) == WithoutBreaks(s) + t
  {
    if |t| > 0 {
      WithoutBreaksConcat(s, t[..|t|-1]);
      assert (s + t)[..|s+t|-1] == s + t[..|t|-1];
    } else {
      assert s + t == s;
    }
  }

  /** The wrapped text is the path: at most three lines of at most 22 characters,
      none empty, made of whole components; without the breaks it is the path. */
  lemma WrappedIsPath(path: path)
    ensures 1 <= LineCount(path) <= 3
    ensures forall l :: 0 <= l < LineCount(path) ==> 0 < |Line(path, l, BIP32_PATH_LEN)| <= BIP32_LINE_LENGTH
    ensures WithoutBreaks(Wrapped(path)) == PathText(path, BIP32_PATH_LEN)
    ensures |Wrapped(path)| <= 51
  {
    hide Component, Place;
    PlaceBounds(path);
    UsedPositive(path, BIP32_PATH_LEN);
    forall l | 0 <= l < LineCount(path)
      ensures 0 < |Line(path, l, BIP32_PATH_LEN)| <= BIP32_LINE_LENGTH
    {
      LineFacts(path, l, BIP32_PATH_LEN);
    }
    LinesMakePath(path, BIP32_PATH_LEN);
    PathLength(path);
    JoinedIsConcat(path);
  }

  /** The line below `l` starts with a component that did not fit on it. */
  predicate BrokenWhenFull(path: path, l: nat, k: nat)
    requires k <= BIP32_PATH_LEN
  {
    exists i: nat :: i < k && Component(path, i) <= Line(path, l + 1, k)
                     && |Line(path, l, k)| + |Component(path, i)| > 22
  }

  lemma StillBroken(path: path, l: nat, k: nat)
    requires 0 < k <= BIP32_PATH_LEN && l < Place(path, k - 1).line && BrokenWhenFull(path, l, k - 1)
    ensures BrokenWhenFull(path, l, k)
  {
    hide Component, Place, Line;
    var m := k - 1;
    var i: nat :| i < m && Component(path, i) <= Line(path, l + 1, m) && |Line(path, l, m)| + |Component(path, i)| > 22;
    LineStep(path, l, m);
    LineStep(path, l + 1, m);
    assert Component(path, i) <= Line(path, l + 1, k) && Line(path, l, k) == Line(path, l, m);
  }

  lemma BreaksHere(path: path, l: nat, k: nat)
    requires 0 < k <= BIP32_PATH_LEN && Place(path, k - 1).line == l < Place(path, k).line
    ensures BrokenWhenFull(path, l, k)
  {
    hide Component, Place, Line;
    var m := k - 1;
    LineStep(path, l, m);
    LineStep(path, l + 1, m);
    LineFacts(path, l, m);
    LineFacts(path, l + 1, m);
    assert Line(path, l + 1, k) == Component(path, m);
  }

  /** Lines are broken only where the next component does not fit. */
  lemma {:induction false} BreaksWhenFull(path: path, l: nat, k: nat)
    requires k <= BIP32_PATH_LEN && l < Place(path, k).line
    ensures BrokenWhenFull(path, l, k)
  {
    hide Component, BrokenWhenFull, Line;
    if k > 0 {
      if l < Place(path, k - 1).line {
        BreaksWhenFull(path, l, k - 1);
        StillBroken(path, l, k);
      } else {
        BreaksHere(path, l, k);
      }
    }
  }

  lemma PathLength(path: path)
    ensures |PathText(path, BIP32_PATH_LEN)| <= 49
  {
    hide Component;
    ComponentLength(path, 0);
    ComponentLength(path, 1);
    ComponentLength(path, 2);
    ComponentLength(path, 3);
    ComponentLength(path, 4);
    assert |PathText(path, 1)| <= 10;
    assert |PathText(path, 2)| <= 20;
    assert |PathText(path, 3)| <= 30;
    assert |PathText(path, 4)| <= 40;
  }

  lemma JoinedIsConcat(path: path)
    requires 1 <= LineCount(path) <= 3
    ensures WithoutBreaks(Wrapped(path))
         == Line(path, 0, BIP32_PATH_LEN) + Line(path, 1, BIP32_PATH_LEN) + Line(path, 2, BIP32_PATH_LEN)
    ensures |Wrapped(path)| == LineCount(path) - 1 + |Line(path, 0, BIP32_PATH_LEN)|
            + |Line(path, 1, BIP32_PATH_LEN)| + |Line(path, 2, BIP32_PATH_LEN)|
  {
    hide Component, Place, Line, WithoutBreaks;
    var l0, l1, l2 := Line(path, 0, BIP32_PATH_LEN), Line(path, 1, BIP32_PATH_LEN), Line(path, 2, BIP32_PATH_LEN);
    LineFacts(path, 1, BIP32_PATH_LEN);
    LineFacts(path, 2, BIP32_PATH_LEN);
    LineNoBreak(path, 0, BIP32_PATH_LEN);
    LineNoBreak(path, 1, BIP32_PATH_LEN);
    LineNoBreak(path, 2, BIP32_PATH_LEN);
    NoBreakKept(l0);
    assert Joined(path, 1) == l0;
    BreakRemoved(l0, l1);
    assert Joined(path, 2) == l0 + "\n" + l1;
    BreakRemoved(Joined(path, 2), l2);
    assert Joined(path, 3) == Joined(path, 2) + "\n" + l2;
    if LineCount(path) == 1 {
      assert l0 + l1 + l2 == l0;
    } else if LineCount(path) == 2 {
      assert l0 + l1 + l2 == l0 + l1;
    }
  }

  lemma NoBreakKept(t: string)
    requires NoBreak(t)
    ensures WithoutBreaks(t) == t
  {
    WithoutBreaksConcat("", t);
    assert "" + t == t;
  }

  lemma BreakRemoved(s: string, t: string)
    requires NoBreak(t)
    ensures WithoutBreaks(s + "\n" + t) == WithoutBreaks(s) + t
  {
    assert (s + "\n")[..|s|] == s;
    WithoutBreaksConcat(s + "\n", t);
  }

  /** Where the last component of line `l` starts, among the first `k` components. */
  function LastStart(path: path, l: int, k: nat): nat
    requires k <= BIP32_PATH_LEN
  {
    if k == 0 then 0 else if Place(path, k).line == l then |Line(path, l, k - 1)| else LastStart(path, l, k - 1)
  }

  lemma {:induction false} StartsBefore(path: path, l: int, i: nat, k: nat)
    requires i < k <= BIP32_PATH_LEN && Place(path, i + 1).line == l
    ensures |Line(path, l, i)| <= LastStart(path, l, k) && |Line(path, l, i)| <= |Line(path, l, k)|
  {
    hide Component, Place;
    if k == i + 1 {
    } else {
      StartsBefore(path, l, i, k - 1);
    }
  }

  /** `snprintf` behind the first `ofs` characters of a line, of which the buffer
      shows as many as it can hold. */
  method AppendText(out: array<char>, start: nat, ofs: nat, room: nat, text: string,
                    ghost before: string, ghost outMaxLen: nat)
    requires 0 < outMaxLen && start + outMaxLen <= out.Length && ofs == |before| && room == outMaxLen - ofs
    requires HoldsAt(out[..], start, Cut(before, outMaxLen - 1))
    modifies out
    ensures HoldsAt(out[..], start, Cut(before + text, outMaxLen - 1)) && out[..start] == old(out[..start])
  {
    hide HoldsAt, Cut;
    ghost var was := out[..];
    Snprintf(out, start + ofs, room, text);
    if room > 0 {
      CutNothing(before, outMaxLen - 1);
      CutBehind(before, text, outMaxLen - 1);
      HoldsMore(was, out[..], start, before, Cut(text, room - 1));
      assert out[..start] == out[..start+ofs][..start];
    } else {
      CutInside(before, text, outMaxLen - 1);
    }
  }

  lemma CutBehind(head: string, more: string, n: nat)
    requires |head| <= n
    ensures Cut(head + more, n) == head + Cut(more, n - |head|)
  {}

  lemma CutInside(head: string, more: string, n: nat)
    requires n <= |head|
    ensures Cut(head + more, n) == Cut(head, n)
  {}

  /** `format_bip32` into the last `outMaxLen` bytes of `out`: writes line `linenr`, or
      nothing but a terminator. The result is the full length of the line, or none
      where the code writes outside the buffer: behind a component that was cut off
      the remaining length, a 32-bit number, has wrapped. */
  method FormatBip32(path: path, linenr: int, out: array<char>, start: nat, outMaxLen: u32)
    returns (r: Option<nat>)
    requires start + outMaxLen == out.Length
    modifies out
    ensures r.Some? <==> 0 < outMaxLen && LastStart(path, linenr, BIP32_PATH_LEN) <= outMaxLen
    ensures r.Some? ==> r.value == |Line(path, linenr, BIP32_PATH_LEN)|
                        && HoldsAt(out[..], start, Cut(Line(path, linenr, BIP32_PATH_LEN), outMaxLen - 1))
                        && out[..start] == old(out[..start])
  {
    hide Component, Line, Place, HoldsAt, Cut, LastStart;
    if !(start < out.Length) {
      return None;
    }
    var len := ComponentLengths(path);
    var ofs: nat, curlen: nat, lines: nat, room: u32 := 0, 0, 0, outMaxLen;
    out[start] := 0 as char;
    EmptyLine(path, linenr);
    CutNothing("", outMaxLen - 1);
    HoldsNothing(out[..], start);
    for i := 0 to BIP32_PATH_LEN
      invariant Place(path, i) == Cursor(lines, curlen) && LastStart(path, linenr, i) <= outMaxLen
      invariant ofs == |Line(path, linenr, i)| && room == (outMaxLen - ofs) % 0x1_0000_0000
      invariant HoldsAt(out[..], start, Cut(Line(path, linenr, i), outMaxLen - 1))
      invariant out[..start] == old(out[..start])
    {
      if curlen + len[i] > BIP32_LINE_LENGTH {
        curlen := 0;
        lines := lines + 1;
      }
      LineStep(path, linenr, i);
      ghost var before := Line(path, linenr, i);
      if lines == linenr {
        StartsBefore(path, linenr, i, BIP32_PATH_LEN);
        if !(start + ofs <= out.Length) {
          return None;
        }
        AppendText(out, start, ofs, room, Component(path, i), before, outMaxLen);
        room := (room - len[i]) % 0x1_0000_0000;
        ofs := ofs + len[i];
      } else {
        assert before + "" == before;
      }
      curlen := curlen + len[i];
    }
    r := Some(ofs);
  }

  lemma EmptyLine(path: path, l: int)
    ensures Line(path, l, 0) == "" && Place(path, 0) == Cursor(0, 0) && LastStart(path, l, 0) == 0
  {}

  lemma HoldsNothing(s: seq<char>, start: nat)
    requires start < |s| && s[start] == 0 as char
    ensures HoldsAt(s, start, "")
  {}

  lemma CutNothing(text: string, n: nat)
    requires |text| <= n
    ensures Cut(text, n) == text
  {}

  lemma HoldsMore(s: seq<char>, t: seq<char>, start: nat, head: string, more: string)
    requires HoldsAt(s, start, head) && HoldsAt(t, start + |head|, more)
    requires |s| == |t| && t[..start+|head|] == s[..start+|head|]
    ensures HoldsAt(t, start, head + more)
  {
    var m, n := start + |head|, start + |head| + |more|;
    assert t[start..m] == t[..m][start..] == s[..m][start..] == s[start..m];
    assert t[start..n] == t[start..m] + t[m..n];
  }

  lemma LineStep(path: path, l: int, k: nat)
    requires k < BIP32_PATH_LEN
    ensures Line(path, l, k + 1) == Line(path, l, k) + if Place(path, k + 1).line == l then Component(path, k) else ""
    ensures LastStart(path, l, k + 1)
         == if Place(path, k + 1).line == l then |Line(path, l, k)| else LastStart(path, l, k)
    ensures var c, n := Place(path, k), |Component(path, k)|;
            Place(path, k + 1) == if c.used + n > BIP32_LINE_LENGTH then Cursor(c.line + 1, n)
                                  else Cursor(c.line, c.used + n)
  {}

  method ComponentLengths(path: path) returns (len: seq<nat>)
    ensures |len| == BIP32_PATH_LEN
    ensures forall i :: 0 <= i < BIP32_PATH_LEN ==> len[i] == |Component(path, i)|
  {
    hide Component, Hex;
    len := [0, 0, 0, 0, 0];
    for i := 0 to BIP32_PATH_LEN
      invariant |len| == BIP32_PATH_LEN
      invariant forall k :: 0 <= k < i ==> len[k] == |Component(path, k)|
    {
      var n := HexLen(path[i] % 0x8000_0000);
      len := len[i := n + if i != BIP32_PATH_LEN - 1 then 2 else 1];
    }
  }

  /** `format_bip32_with_line_breaks`. The last statement of the function writes one
      byte behind text and terminator; in a buffer without room for it the code
      writes outside, and there is no result. */
  method FormatBip32WithLineBreaks(path: path, out: array<char>, outMaxLen: u32) returns (r: Option<nat>)
    requires outMaxLen == out.Length
    modifies out
    ensures r.Some? <==> |Wrapped(path)| + 2 <= outMaxLen
    ensures r.Some? ==> HoldsAt(out[..], 0, Wrapped(path)) && r.value == |Wrapped(path)| + 1
  {
    hide Component, Line, Place, Joined, LastStart, Cut;
    WrappedIsPath(path);
    var ofs: nat, lastZero, room: int := 0, 0, outMaxLen;
    var i := 0;
    LineFacts(path, LineCount(path), BIP32_PATH_LEN);
    while i < 3
      invariant 0 <= i <= LineCount(path)
      invariant i == 0 ==> ofs == lastZero == 0
      invariant i > 0 ==> lastZero == |Joined(path, i)| <= |Wrapped(path)| && ofs == lastZero + 1
      invariant room == outMaxLen - ofs
      invariant i > 0 && ofs <= outMaxLen ==> HoldsAt(out[..], 0, Joined(path, i))
      decreases 3 - i
    {
      JoinedStep(path, i);
      if !(ofs < out.Length) {
        return None;
      }
      var written := FormatBip32(path, i, out, ofs, room);
      FitsLine(path, i, room);
      if written == None {
        return None;
      }
      if written.value == 0 {
        break;
      }
      ghost var was := out[..];
      if lastZero != 0 {
        out[lastZero] := '\n';
      }
      if ofs + written.value < outMaxLen {
        JoinedOnScreen(was, path, i, ofs);
      }
      ofs := ofs + written.value;
      room := room - written.value;
      lastZero := ofs;
      ofs := ofs + 1;
      room := room - 1;
      i := i + 1;
    }
    assert i == LineCount(path);
    if !(ofs < out.Length) {
      return None;
    }
    ghost var was := out[..];
    out[ofs] := 0 as char;
    StillHolds(was, out[..], Wrapped(path), ofs);
    r := Some(ofs);
  }

  lemma StillHolds(s: seq<char>, t: seq<char>, text: string, k: nat)
    requires HoldsAt(s, 0, text) && |text| < k < |s| && t == s[k := 0 as char]
    ensures HoldsAt(t, 0, text)
  {
    assert t[0..|text|] == s[0..|text|];
  }

  /** A line shorter than the room is not cut off. */
  lemma FitsLine(path: path, l: nat, room: nat)
    requires 0 < room
    ensures LastStart(path, l, BIP32_PATH_LEN) <= |Line(path, l, BIP32_PATH_LEN)|
    ensures |Line(path, l, BIP32_PATH_LEN)| < room ==>
      Cut(Line(path, l, BIP32_PATH_LEN), room - 1) == Line(path, l, BIP32_PATH_LEN)
  {
    hide Component, Place;
    StartInLine(path, l, BIP32_PATH_LEN);
  }

  lemma {:induction false} StartInLine(path: path, l: int, k: nat)
    requires k <= BIP32_PATH_LEN
    ensures LastStart(path, l, k) <= |Line(path, l, k)|
  {
    hide Component, Place;
    if k == 0 {
    } else {
      StartInLine(path, l, k - 1);
    }
  }

  lemma JoinedStep(path: path, m: nat)
    requires m <= 2 && m <= LineCount(path) <= 3
    ensures |Line(path, m, BIP32_PATH_LEN)| <= BIP32_LINE_LENGTH
    ensures Joined(path, m + 1)
         == (if m == 0 then "" else Joined(path, m) + "\n") + Line(path, m, BIP32_PATH_LEN)
    ensures m > 0 ==> 0 < |Joined(path, m)|
    ensures m < LineCount(path) ==> |Joined(path, m + 1)| <= |Wrapped(path)|
  {
    hide Line, Place, Component;
    LineFacts(path, m, BIP32_PATH_LEN);
    assert "" + Line(path, 0, BIP32_PATH_LEN) == Line(path, 0, BIP32_PATH_LEN);
    JoinedGrows(path, m + 1, LineCount(path));
    if m > 0 {
      WrappedIsPath(path);
      JoinedGrows(path, 1, m);
    }
  }

  lemma {:induction false} JoinedGrows(path: path, m: nat, n: nat)
    ensures m <= n ==> |Joined(path, m)| <= |Joined(path, n)|
  {
    hide Line;
    if n <= m {
    } else {
      JoinedGrows(path, m, n - 1);
    }
  }

  /** Replacing the terminator of the first lines joins them with the next one. */
  lemma JoinedOnScreen(s: seq<char>, path: path, m: nat, start: nat)
    requires m <= 2 && m <= LineCount(path) <= 3
    requires HoldsAt(s, start, Line(path, m, BIP32_PATH_LEN))
    requires m == 0 ==> start == 0
    requires m > 0 ==> start == |Joined(path, m)| + 1 && s[..start-1] == Joined(path, m)
    ensures var t := if m == 0 then s else s[start - 1 := '\n'];
            HoldsAt(t, 0, Joined(path, m + 1))
  {
    hide Line, Place, Joined;
    JoinedStep(path, m);
    var t := if m == 0 then s else s[start - 1 := '\n'];
    var n := start + |Line(path, m, BIP32_PATH_LEN)|;
    assert t[start..n] == s[start..n];
    assert t[0..n] == t[..start] + t[start..n];
    if m > 0 {
      assert t[..start] == s[..start-1] + "\n";
    }
  }

  // ------------------------------------------------- the path text shows the path

  function Rest(path: path, k: nat): string
    requires k <= BIP32_PATH_LEN
    decreases BIP32_PATH_LEN - k
  {
    if k == BIP32_PATH_LEN then "" else Component(path, k) + Rest(path, k + 1)
  }

  lemma {:induction false} PathTextIsRest(path: path, k: nat)
    requires k <= BIP32_PATH_LEN
    ensures PathText(path, k) + Rest(path, k) == PathText(path, BIP32_PATH_LEN)
    decreases BIP32_PATH_LEN - k
  {
    hide Component, PathText;
    if k == BIP32_PATH_LEN {
    } else {
      PathTextIsRest(path, k + 1);
      PathStep(path, k + 1);
      Reassociate(PathText(path, k), Component(path, k), Rest(path, k + 1));
    }
  }

  lemma Reassociate(a: string, b: string, c: string)
    ensures a + b + c == a + (b + c)
  {}

  predicate NoMark(s: string) { forall i :: 0 <= i < |s| ==> s[i] != '\'' }

  lemma EmptyPathText(path: path)
    ensures PathText(path, 0) == "" && "" + Rest(path, 0) == Rest(path, 0)
  {}

  // ------------------------------------------------------- reading the path text

  function HexValue(ch: char): Option<nat> {
    if '0' <= ch <= '9' then Some(ch as int - '0' as int)
    else if 'a' <= ch <= 'f' then Some(ch as int - 'a' as int + 10)
    else None
  }

  /** Reading a string of hex digits. */
  function ParseHex(s: string): Option<nat> {
    if |s| == 0 then Some(0)
    else match (ParseHex(s[..|s|-1]), HexValue(s[|s|-1]))
      case (Some(v), Some(d)) => Some(16 * v + d)
      case _ => None
  }

  lemma HexValueOfChar(d: nat)
    requires d < 16
    ensures HexValue(DigitChar(d)) == Some(d)
  {}

  lemma {:induction false} ParseHexOfHex(v: nat)
    ensures ParseHex(Hex(v)) == Some(v)
  {
    hide DigitChar, HexValue;
    HexValueOfChar(v % 16);
    if v < 16 {
      assert Hex(v)[..0] == "";
    } else {
      ParseHexOfHex(v / 16);
      assert Hex(v)[..|Hex(v)|-1] == Hex(v / 16);
    }
  }

  /** Position of the first mark, or the length. */
  function MarkAt(s: string): (p: nat)
    ensures p <= |s| && NoMark(s[..p]) && (p < |s| ==> s[p] == '\'')
  {
    if |s| == 0 || s[0] == '\'' then 0 else 1 + MarkAt(s[1..])
  }

  /** Reading a path: hex numbers, each with its mark, slashes between them. */
  function ReadPath(s: string): Option<seq<nat>>
    decreases |s|
  {
    if |s| == 0 then Some([])
    else
      var p := MarkAt(s);
      if p == |s| then None
      else
        var t := s[p+1..];
        match (ParseHex(s[..p]), ReadPath(if |t| > 0 && t[0] == '/' then t[1..] else t))
        case (Some(v), Some(vs)) => Some([v] + vs)
        case _ => None
  }

  lemma MarkBehind(a: string, t: string)
    requires NoMark(a)
    ensures MarkAt(a + "'" + t) == |a|
  {
    var s := a + "'" + t;
    assert s[|a|] == '\'' && s[..|a|] == a;
  }

  lemma ReadOne(a: string, t: string, v: nat, vs: seq<nat>)
    requires NoMark(a) && ParseHex(a) == Some(v)
    requires ReadPath(if |t| > 0 && t[0] == '/' then t[1..] else t) == Some(vs)
    ensures ReadPath(a + "'" + t) == Some([v] + vs)
  {
    hide ParseHex, MarkAt, NoMark;
    var s := a + "'" + t;
    MarkBehind(a, t);
    assert s[..|a|] == a && s[|a|+1..] == t;
  }

  lemma ReadNothing()
    ensures ReadPath("") == Some([])
  {}

  /** The components without their hardening bit, from the `k`th on. */
  function Unhardened(path: path, k: nat): seq<nat>
    requires k <= BIP32_PATH_LEN
  {
    seq(BIP32_PATH_LEN - k, i requires 0 <= i < BIP32_PATH_LEN - k => path[k+i] % 0x8000_0000)
  }

  /** What follows the mark of component `k`. */
  function Behind(path: path, k: nat): string
    requires k < BIP32_PATH_LEN
  {
    (if k < BIP32_PATH_LEN - 1 then "/" else "") + Rest(path, k + 1)
  }

  lemma RestParts(path: path, k: nat)
    requires k < BIP32_PATH_LEN
    ensures Rest(path, k) == Hex(path[k] % 0x8000_0000) + "'" + Behind(path, k)
    ensures var t := Behind(path, k); (if |t| > 0 && t[0] == '/' then t[1..] else t) == Rest(path, k + 1)
  {
    hide Hex;
    var t := Behind(path, k);
    if k < BIP32_PATH_LEN - 1 {
      assert t[0] == '/' && t[1..] == Rest(path, k + 1);
      assert Component(path, k) == Hex(path[k] % 0x8000_0000) + "'" + "/";
    } else {
      assert t == Rest(path, k + 1) == "";
    }
  }

  lemma {:induction false} ReadRest(path: path, k: nat)
    requires k <= BIP32_PATH_LEN
    ensures ReadPath(Rest(path, k)) == Some(Unhardened(path, k))
    decreases BIP32_PATH_LEN - k
  {
    hide Hex, ParseHex, ReadPath, Rest, Behind;
    if k == BIP32_PATH_LEN {
      ReadNothing();
      EmptyRest(path);
    } else {
      var v := path[k] % 0x8000_0000;
      HexNoBreak(v);
      ParseHexOfHex(v);
      RestParts(path, k);
      ReadRest(path, k + 1);
      ReadOne(Hex(v), Behind(path, k), v, Unhardened(path, k + 1));
      assert Unhardened(path, k) == [v] + Unhardened(path, k + 1);
    }
  }

  lemma EmptyRest(path: path)
    ensures Rest(path, BIP32_PATH_LEN) == ""
  {}

  /** The text on the screen, without its line breaks, reads as the path. */
  lemma WrappedReads(path: path)
    ensures ReadPath(WithoutBreaks(Wrapped(path))) == Some(Unhardened(path, 0))
  {
    hide Wrapped, Rest, PathText, ReadPath, LineCount, Line;
    WrappedIsPath(path);
    PathTextIsRest(path, 0);
    EmptyPathText(path);
    ReadRest(path, 0);
  }

  /** Two paths with hardened components shown alike are the same path. */
  lemma WrappedInjective(p: path, q: path)
    requires Wrapped(p) == Wrapped(q)
    requires AllHardened(p) && AllHardened(q)
    ensures p == q
  {
    hide Wrapped, ReadPath;
    WrappedReads(p);
    WrappedReads(q);
    forall i | 0 <= i < BIP32_PATH_LEN
      ensures p[i] == q[i]
    {
      assert Unhardened(p, 0)[i] == Unhardened(q, 0)[i];
    }
  }
}
