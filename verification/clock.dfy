/** Wall-clock times written as "HH:MM": the slot grid formats them, the
    edit modal splits them apart on submit and writes them back on prefill. */
module Clock {
  import opened Wrappers
  import opened Text

  /** `n.toString().padStart(2, '0')`. */
  function Pad2(n: nat): string {
    PadStart2(NatToDecimal(n))
  }

  /** "HH:MM" for the given hours and minutes. */
  function FormatTime(hours: nat, minutes: nat): string {
    Pad2(hours) + ":" + Pad2(minutes)
  }

  /** `const [hours, minutes] = time.split(':')` followed by `parseInt` of
      each part; a missing part is `undefined`, which `parseInt` reads as `NaN`. */
  function ParseTime(time: string): Option<(int, int)> {
    var parts := Split(time, ':');
    var hours := ParseInt(parts[0]);
    var minutes := if |parts| >= 2 then ParseInt(parts[1]) else None;
    if hours.Some? && minutes.Some? then Some((hours.value, minutes.value)) else None
  }

  /** A 24-hour clock reading written with exactly two digits on each side. */
  predicate WellFormedTime(t: string) {
    && |t| == 5 && t[2] == ':'
    && IsDigit(t[0]) && IsDigit(t[1]) && IsDigit(t[3]) && IsDigit(t[4])
    && DigitValue(t[0]) * 10 + DigitValue(t[1]) <= 23
    && DigitValue(t[3]) * 10 + DigitValue(t[4]) <= 59
  }

  /** Minutes since midnight of a clock reading. */
  function MinuteOfDay(hours: int, minutes: int): int {
    hours * 60 + minutes
  }

  /** The hours a well-formed reading shows. */
  function HoursOf(t: string): nat
    requires WellFormedTime(t)
  {
    DigitValue(t[0]) * 10 + DigitValue(t[1])
  }

  /** The minutes a well-formed reading shows. */
  function MinutesOf(t: string): nat
    requires WellFormedTime(t)
  {
    DigitValue(t[3]) * 10 + DigitValue(t[4])
  }

  lemma Pad2TwoDigits(n: nat)
    requires n < 100
    ensures Pad2(n) == [DigitChar(n / 10), DigitChar(n % 10)]
  {
    if n >= 10 {
      assert NatToDecimal(n) == NatToDecimal(n / 10) + [DigitChar(n % 10)];
    }
  }

  lemma DigitCharOfValue(c: char)
    requires IsDigit(c)
    ensures DigitChar(DigitValue(c)) == c
  {
  }

  lemma TwoDigitValue(d: string)
    requires |d| == 2 && AllDigits(d)
    ensures DigitsValue(d) == DigitValue(d[0]) * 10 + DigitValue(d[1])
  {
    var d1 := d[..1];
    assert d[..|d| - 1] == d1;
    assert d1[..|d1| - 1] == [];
    assert DigitsValue(d1) == DigitValue(d[0]);
  }

  lemma DivMod10(a: nat, b: nat)
    requires b < 10
    ensures (a * 10 + b) / 10 == a && (a * 10 + b) % 10 == b
  {
  }

  /** Pad2 writes back the two digits it is given the value of. */
  lemma TwoDigitPad(d: string)
    requires |d| == 2 && AllDigits(d)
    ensures Pad2(DigitsValue(d)) == d
  {
    TwoDigitValue(d);
    var a, b := DigitValue(d[0]), DigitValue(d[1]);
    var v := DigitsValue(d);
    assert v == a * 10 + b;
    DivMod10(a, b);
    Pad2TwoDigits(v);
    DigitCharOfValue(d[0]);
    DigitCharOfValue(d[1]);
    assert Pad2(v) == [DigitChar(a), DigitChar(b)];
    assert [d[0], d[1]] == d;
  }

  /** A well-formed reading splits at ':' into its two digit pairs. */
  lemma SplitClock(t: string)
    requires WellFormedTime(t)
    ensures Split(t, ':') == [t[..2], t[3..]]
  {
    var hh, mm := t[..2], t[3..];
    assert Join([hh, mm], ':') == t;
    assert ':' !in hh && ':' !in mm;
    SplitJoin([hh, mm], ':');
  }

  /** Splitting a well-formed "HH:MM" at ':' and parsing both halves gives
      the two numbers the digit pairs denote, within the clock's range. */
  lemma ParseClock(t: string)
    requires WellFormedTime(t)
    ensures ParseTime(t) == Some((DigitsValue(t[..2]), DigitsValue(t[3..])))
    ensures DigitsValue(t[..2]) <= 23 && DigitsValue(t[3..]) <= 59
    ensures DigitsValue(t[..2]) == HoursOf(t) && DigitsValue(t[3..]) == MinutesOf(t)
  {
    var hh, mm := t[..2], t[3..];
    assert |hh| == 2 && AllDigits(hh);
    assert |mm| == 2 && AllDigits(mm);
    SplitClock(t);
    var parts := Split(t, ':');
    assert parts[0] == hh && parts[1] == mm;
    ParseDigits(hh);
    ParseDigits(mm);
    TwoDigitValue(hh);
    TwoDigitValue(mm);
  }

  /** Formatting the digit pairs' values zero-padded rebuilds the reading. */
  lemma FormatClock(t: string)
    requires WellFormedTime(t)
    ensures FormatTime(DigitsValue(t[..2]), DigitsValue(t[3..])) == t
  {
    var hh, mm := t[..2], t[3..];
    assert |hh| == 2 && AllDigits(hh);
    assert |mm| == 2 && AllDigits(mm);
    TwoDigitPad(hh);
    TwoDigitPad(mm);
    assert t == hh + ":" + mm;
  }

  /** Splitting a well-formed "HH:MM" at ':' and parsing both halves, then
      formatting the numbers zero-padded again, gives back the same string. */
  lemma ParseThenFormat(t: string)
    requires WellFormedTime(t)
    ensures ParseTime(t) == Some((DigitsValue(t[..2]), DigitsValue(t[3..])))
    ensures FormatTime(DigitsValue(t[..2]), DigitsValue(t[3..])) == t
  {
    ParseClock(t);
    FormatClock(t);
  }

  lemma FormatIsWellFormed(h: nat, m: nat)
    requires h <= 23 && m <= 59
    ensures WellFormedTime(FormatTime(h, m))
    ensures FormatTime(h, m)[..2] == Pad2(h) && FormatTime(h, m)[3..] == Pad2(m)
  {
    Pad2TwoDigits(h);
    Pad2TwoDigits(m);
    DivMod10(h / 10, h % 10);
    DivMod10(m / 10, m % 10);
  }

  lemma Pad2Value(n: nat)
    requires n <= 99
    ensures |Pad2(n)| == 2 && AllDigits(Pad2(n)) && DigitsValue(Pad2(n)) == n
  {
    Pad2TwoDigits(n);
    TwoDigitValue(Pad2(n));
  }

  /** Formatting a clock reading gives a well-formed reading showing the same numbers. */
  lemma FormatShows(h: nat, m: nat)
    requires h <= 23 && m <= 59
    ensures WellFormedTime(FormatTime(h, m))
    ensures HoursOf(FormatTime(h, m)) == h && MinutesOf(FormatTime(h, m)) == m
  {
    FormatIsWellFormed(h, m);
    Pad2TwoDigits(h);
    Pad2TwoDigits(m);
  }

  /** Formatting a clock reading and parsing it back gives the same numbers. */
  lemma FormatThenParse(h: nat, m: nat)
    requires h <= 23 && m <= 59
    ensures WellFormedTime(FormatTime(h, m))
    ensures ParseTime(FormatTime(h, m)) == Some((h, m))
  {
    FormatIsWellFormed(h, m);
    Pad2Value(h);
    Pad2Value(m);
    ParseClock(FormatTime(h, m));
  }
}
