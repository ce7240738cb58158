/** The slice of JavaScript's string library the booking screens rely on:
    whitespace, `trim`, `toLowerCase`, `includes`, `split`, `padStart`,
    `Number.prototype.toString`, `parseInt(_, 10)`, and `parseInt` without a
    radix, which reads a `0x` prefix as base 16. */
module Text {
  import opened Wrappers

  /** A character JavaScript counts as white space: the class `\s` of a
      regular expression, which is also the set `String.prototype.trim` strips. */
  predicate IsSpace(c: char) {
    || c == ' ' || c == '\t' || c == '\n' || c == '\r'
    || c == '\U{000B}' || c == '\U{000C}' || c == '\U{00A0}' || c == '\U{1680}'
    || ('\U{2000}' <= c <= '\U{200A}')
    || c == '\U{2028}' || c == '\U{2029}' || c == '\U{202F}' || c == '\U{205F}'
    || c == '\U{3000}' || c == '\U{FEFF}'
  }

  /** Every character is white space (the empty string included). */
  predicate IsBlank(s: string) {
    forall i :: 0 <= i < |s| ==> IsSpace(s[i])
  }

  /** Drops the leading white space. */
  function TrimStart(s: string): (r: string)
    ensures |r| <= |s| && r == s[|s| - |r|..]
    ensures forall i :: 0 <= i < |s| - |r| ==> IsSpace(s[i])
    ensures r != [] ==> !IsSpace(r[0])
    decreases |s|
  {
    if s != [] && IsSpace(s[0]) then TrimStart(s[1..]) else s
  }

  /** Drops the trailing white space. */
  function TrimEnd(s: string): (r: string)
    ensures |r| <= |s| && r == s[..|r|]
    ensures forall i :: |r| <= i < |s| ==> IsSpace(s[i])
    ensures r != [] ==> !IsSpace(r[|r| - 1])
    decreases |s|
  {
    if s != [] && IsSpace(s[|s| - 1]) then TrimEnd(s[..|s| - 1]) else s
  }

  /** `s.trim()`. */
  function Trim(s: string): string {
    TrimEnd(TrimStart(s))
  }

  /** `!s.trim()` holds exactly for the blank strings. */
  lemma TrimEmptyIffBlank(s: string)
    ensures Trim(s) == [] <==> IsBlank(s)
  {
    var t := TrimStart(s);
    if Trim(s) == [] {
      assert t == [];
    } else {
      var u := Trim(s);
      assert u[0] == t[0];
      assert s[|s| - |t|] == t[0];
    }
  }

  /** `c.toLowerCase()` on the ASCII letters. */
  function LowerChar(c: char): (r: char)
    ensures 'A' <= c <= 'Z' ==> 'a' <= r <= 'z' && r as int - c as int == 32
    ensures !('A' <= c <= 'Z') ==> r == c
  {
    if 'A' <= c <= 'Z' then (c as int + 32) as char else c
  }

  /** `s.toLowerCase()`, character by character. */
  function ToLower(s: string): (r: string)
    ensures |r| == |s|
    ensures forall i :: 0 <= i < |s| ==> r[i] == LowerChar(s[i])
  {
    seq(|s|, i requires 0 <= i < |s| => LowerChar(s[i]))
  }

  /** Lower-casing twice is lower-casing once. */
  lemma ToLowerIdempotent(s: string)
    ensures ToLower(ToLower(s)) == ToLower(s)
  {
  }

  /** `hay.includes(needle)`: `needle` occurs as a contiguous block of `hay`. */
  predicate Contains(hay: string, needle: string) {
    exists k | 0 <= k <= |hay| - |needle| :: OccursAt(hay, needle, k)
  }

  /** `needle` sits in `hay` starting at position `k`. */
  predicate OccursAt(hay: string, needle: string, k: int) {
    0 <= k <= |hay| - |needle| && hay[k..k + |needle|] == needle
  }

  /** The parts of `parts` glued back together with `sep` between them:
      the inverse of `Split`. */
  function Join(parts: seq<string>, sep: char): string
    requires |parts| >= 1
    decreases |parts|
  {
    if |parts| == 1 then parts[0] else parts[0] + [sep] + Join(parts[1..], sep)
  }

  /** `s.split(sep)` for a one-character separator: always at least one
      part, none containing the separator, and joining them gives back `s`. */
  function Split(s: string, sep: char): (r: seq<string>)
    ensures |r| >= 1
    ensures forall i :: 0 <= i < |r| ==> sep !in r[i]
    ensures Join(r, sep) == s
    decreases |s|
  {
    if s == [] then [""]
    else
      var rest := Split(s[1..], sep);
      if s[0] == sep then
        assert s == [sep] + s[1..];
        [""] + rest
      else
        var r := [[s[0]] + rest[0]] + rest[1..];
        assert r[1..] == rest[1..];
        assert Join(r, sep) == s by {
          if |rest| > 1 {
            assert Join(rest, sep) == rest[0] + [sep] + Join(rest[1..], sep);
            assert Join(r, sep) == [s[0]] + rest[0] + [sep] + Join(rest[1..], sep);
          }
        }
        r
  }

  /** Splitting a string one character longer: a separator opens a new
      part, any other character joins the first part. */
  lemma SplitCons(c: char, s: string, sep: char)
    ensures Split([c] + s, sep) ==
            if c == sep then [""] + Split(s, sep)
            else [[c] + Split(s, sep)[0]] + Split(s, sep)[1..]
  {
    assert ([c] + s)[1..] == s;
  }

  /** Joining parts whose first part is non-empty starts with that part's
      first character. */
  lemma JoinCons(parts: seq<string>, sep: char)
    requires |parts| >= 1 && parts[0] != []
    ensures Join(parts, sep) == [parts[0][0]] + Join([parts[0][1..]] + parts[1..], sep)
  {
    var tail := [parts[0][1..]] + parts[1..];
    assert tail[1..] == parts[1..];
  }

  /** Splitting a joined list gives back the list, when no part holds the separator. */
  lemma {:induction false} SplitJoin(parts: seq<string>, sep: char)
    requires |parts| >= 1
    requires forall i :: 0 <= i < |parts| ==> sep !in parts[i]
    ensures Split(Join(parts, sep), sep) == parts
    decreases |parts|, |parts[0]|
  {
    var p := parts[0];
    if p == [] {
      if |parts| > 1 {
        SplitJoin(parts[1..], sep);
        SplitCons(sep, Join(parts[1..], sep), sep);
        assert [""] + parts[1..] == parts;
      }
    } else {
      var tail := [p[1..]] + parts[1..];
      assert tail[1..] == parts[1..];
      SplitJoin(tail, sep);
      JoinCons(parts, sep);
      SplitCons(p[0], Join(tail, sep), sep);
      assert p == [p[0]] + p[1..];
      assert [[p[0]] + p[1..]] + parts[1..] == parts;
    }
  }

  predicate IsDigit(c: char) {
    '0' <= c <= '9'
  }

  function DigitValue(c: char): nat
    requires IsDigit(c)
  {
    c as int - '0' as int
  }

  function DigitChar(d: nat): (c: char)
    requires d < 10
    ensures IsDigit(c) && DigitValue(c) == d
  {
    ('0' as int + d) as char
  }

  predicate AllDigits(s: string) {
    forall i :: 0 <= i < |s| ==> IsDigit(s[i])
  }

  /** The number a string of decimal digits denotes. */
  function DigitsValue(s: string): nat
    requires AllDigits(s)
    decreases |s|
  {
    if s == [] then 0 else DigitsValue(s[..|s| - 1]) * 10 + DigitValue(s[|s| - 1])
  }

  /** The longest prefix of `s` made of decimal digits. */
  function DigitPrefix(s: string): (r: string)
    ensures AllDigits(r) && |r| <= |s| && r == s[..|r|]
    ensures |r| < |s| ==> !IsDigit(s[|r|])
    decreases |s|
  {
    if s != [] && IsDigit(s[0]) then [s[0]] + DigitPrefix(s[1..]) else []
  }

  /** `n.toString()` for a non-negative integer. */
  function NatToDecimal(n: nat): (r: string)
    ensures r != [] && AllDigits(r) && DigitsValue(r) == n
    ensures |r| > 1 ==> r[0] != '0'
    decreases n
  {
    if n < 10 then [DigitChar(n)]
    else
      var r := NatToDecimal(n / 10) + [DigitChar(n % 10)];
      assert r[..|r| - 1] == NatToDecimal(n / 10);
      r
  }

  /** `s.padStart(2, '0')`. */
  function PadStart2(s: string): (r: string)
    ensures |r| == if |s| < 2 then 2 else |s|
    ensures r[|r| - |s|..] == s
    ensures forall i :: 0 <= i < |r| - |s| ==> r[i] == '0'
  {
    if |s| == 0 then "00" else if |s| == 1 then "0" + s else s
  }

  /** `parseInt(s, 10)`: leading white space is skipped, an optional sign is
      read, then the longest run of decimal digits; `NaN` (here `None`) when
      there is no digit. */
  function ParseInt(s: string): Option<int> {
    var t := TrimStart(s);
    var negative := t != [] && t[0] == '-';
    var body := if t != [] && (t[0] == '-' || t[0] == '+') then t[1..] else t;
    var digits := DigitPrefix(body);
    if digits == [] then None
    else
      var v: int := DigitsValue(digits);
      Some(if negative then -v else v)
  }

  /** A digit of base 16: a decimal digit or a letter `a` to `f` in either case. */
  predicate IsHexDigit(c: char) {
    IsDigit(c) || 'a' <= c <= 'f' || 'A' <= c <= 'F'
  }

  function HexDigitValue(c: char): (v: nat)
    requires IsHexDigit(c)
    ensures v < 16
    ensures IsDigit(c) ==> v == DigitValue(c)
  {
    if IsDigit(c) then DigitValue(c)
    else if 'a' <= c <= 'f' then c as int - 'a' as int + 10
    else c as int - 'A' as int + 10
  }

  predicate AllHexDigits(s: string) {
    forall i :: 0 <= i < |s| ==> IsHexDigit(s[i])
  }

  /** The number a string of base-16 digits denotes. */
  function HexDigitsValue(s: string): nat
    requires AllHexDigits(s)
    decreases |s|
  {
    if s == [] then 0 else HexDigitsValue(s[..|s| - 1]) * 16 + HexDigitValue(s[|s| - 1])
  }

  /** The longest prefix of `s` made of base-16 digits. */
  function HexDigitPrefix(s: string): (r: string)
    ensures AllHexDigits(r) && |r| <= |s| && r == s[..|r|]
    ensures |r| < |s| ==> !IsHexDigit(s[|r|])
    decreases |s|
  {
    if s != [] && IsHexDigit(s[0]) then [s[0]] + HexDigitPrefix(s[1..]) else []
  }

  /** The text `parseInt` reads digits from: leading white space and one
      optional sign removed. */
  function Unsigned(s: string): string {
    var t := TrimStart(s);
    if t != [] && (t[0] == '-' || t[0] == '+') then t[1..] else t
  }

  /** Whether `parseInt` without a radix switches to base 16: the unsigned
      text starts with `0x` or `0X`. */
  predicate HexPrefixed(s: string) {
    var body := Unsigned(s);
    |body| >= 2 && body[0] == '0' && (body[1] == 'x' || body[1] == 'X')
  }

  /** `parseInt(s)` with no radix: as `parseInt(s, 10)`, except that a `0x`
      or `0X` after the sign selects base 16 for the digits that follow. */
  function ParseIntAuto(s: string): (r: Option<int>)
    ensures !HexPrefixed(s) ==> r == ParseInt(s)
  {
    if HexPrefixed(s) then
      var t := TrimStart(s);
      var negative := t != [] && t[0] == '-';
      var digits := HexDigitPrefix(Unsigned(s)[2..]);
      if digits == [] then None
      else
        var v: int := HexDigitsValue(digits);
        Some(if negative then -v else v)
    else ParseInt(s)
  }

  /** With a radix of 10, "0x" followed by a digit reads as 0. */
  lemma DecimalStopsAtX(d: char)
    requires IsDigit(d)
    ensures ParseInt(['0', 'x', d]) == Some(0)
  {
    var s := ['0', 'x', d];
    assert !IsSpace(s[0]);
    assert TrimStart(s) == s;
    assert !IsDigit(s[1]) && DigitPrefix(s[1..]) == [];
    assert DigitPrefix(s) == [s[0]];
    assert DigitsValue([s[0]]) == 0 by {
      assert [s[0]][..0] == [];
    }
  }

  /** Without a radix, "0x" followed by a digit reads the digit in base 16. */
  lemma AutoReadsHex(d: char)
    requires IsDigit(d)
    ensures ParseIntAuto(['0', 'x', d]) == Some(DigitValue(d))
  {
    var s := ['0', 'x', d];
    assert TrimStart(s) == s;
    assert Unsigned(s)[2..] == [d];
    assert HexDigitPrefix([d]) == [d] by {
      assert [d][1..] == [];
    }
    assert [d][..0] == [];
    assert HexPrefixed(s);
    assert HexDigitsValue([d]) == HexDigitValue(d) == DigitValue(d);
  }

  /** The two readings part on `0x`-prefixed text: "0x2" is 0 with a radix of
      10 and 2 without a radix. */
  lemma HexPrefixExample()
    ensures ParseInt("0x2") == Some(0)
    ensures ParseIntAuto("0x2") == Some(2)
  {
    DecimalStopsAtX('2');
    AutoReadsHex('2');
    assert ['0', 'x', '2'] == "0x2";
  }

  lemma {:induction false} DigitPrefixOfDigits(s: string)
    requires AllDigits(s)
    ensures DigitPrefix(s) == s
    decreases |s|
  {
    if s != [] {
      DigitPrefixOfDigits(s[1..]);
    }
  }

  lemma DigitIsNotSpace(c: char)
    requires IsDigit(c)
    ensures !IsSpace(c)
  {
  }

  /** A string of digits parses to the number it denotes. */
  lemma ParseDigits(s: string)
    requires s != [] && AllDigits(s)
    ensures ParseInt(s) == Some(DigitsValue(s))
  {
    DigitIsNotSpace(s[0]);
    assert TrimStart(s) == s;
    assert s[0] != '-' && s[0] != '+';
    DigitPrefixOfDigits(s);
  }

  /** `parseInt(n.toString(), 10) == n`. */
  lemma ParseDecimal(n: nat)
    ensures ParseInt(NatToDecimal(n)) == Some(n)
  {
    ParseDigits(NatToDecimal(n));
  }

  /** `i.toString()` for an integer: a minus sign before the digits of a
      negative value. */
  function IntToDecimal(i: int): string {
    if i < 0 then "-" + NatToDecimal(-i) else NatToDecimal(i)
  }

  /** `parseInt(i.toString(), 10) == i` for every integer. */
  lemma ParseIntToDecimal(i: int)
    ensures ParseInt(IntToDecimal(i)) == Some(i)
  {
    if i < 0 {
      var d := NatToDecimal(-i);
      var t := "-" + d;
      assert TrimStart(t) == t;
      assert t[1..] == d;
      DigitPrefixOfDigits(d);
    } else {
      ParseDecimal(i);
    }
  }

  /** The unsigned part of an integer's decimal text is the decimal text
      of its magnitude. */
  lemma UnsignedDecimal(i: int)
    ensures Unsigned(IntToDecimal(i)) == NatToDecimal(if i < 0 then -i else i)
  {
    var d := NatToDecimal(if i < 0 then -i else i);
    var t := IntToDecimal(i);
    DigitIsNotSpace(d[0]);
    assert t != [] && !IsSpace(t[0]);
    assert TrimStart(t) == t;
    if i < 0 {
      assert t[1..] == d;
    }
  }

  /** Decimal text never starts with `0x`, so reading it without a radix
      gives back the integer too: `parseInt(i.toString()) == i`. */
  lemma ParseAutoToDecimal(i: int)
    ensures ParseIntAuto(IntToDecimal(i)) == Some(i)
  {
    var d := NatToDecimal(if i < 0 then -i else i);
    UnsignedDecimal(i);
    assert |d| >= 2 ==> IsDigit(d[1]);
    ParseIntToDecimal(i);
  }
}
