/**
 * The text Python gives an aware UTC `datetime` (`str(dt)`, that is `dt.isoformat(sep=" ")`),
 * the decimal digits it is made of, and `str.split` on a one-character separator.
 */
module IsoText {
  import opened Wrappers
  import opened CivilTime

  function Pow10(n: nat): nat
  {
    if n == 0 then 1 else 10 * Pow10(n - 1)
  }

  predicate IsDigit(c: char)
  {
    '0' <= c <= '9'
  }

  predicate AllDigits(s: string)
  {
    forall i :: 0 <= i < |s| ==> IsDigit(s[i])
  }

  /** `n` in decimal, zero-padded to `width` characters (`%0<width>d`). */
  function Digits(n: nat, width: nat): (s: string)
    requires n < Pow10(width)
    ensures |s| == width && AllDigits(s)
  {
    if width == 0 then [] else Digits(n / 10, width - 1) + [('0' as int + n % 10) as char]
  }

  /** The number a string of decimal digits denotes. */
  function DigitsValue(s: string): nat
    requires AllDigits(s)
  {
    if |s| == 0 then 0 else DigitsValue(s[..|s| - 1]) * 10 + (s[|s| - 1] as int - '0' as int)
  }

  lemma {:induction false} DigitsRoundTrip(n: nat, width: nat)
    requires n < Pow10(width)
    ensures DigitsValue(Digits(n, width)) == n
  {
    if width > 0 {
      var s := Digits(n, width);
      assert s[..|s| - 1] == Digits(n / 10, width - 1);
      DigitsRoundTrip(n / 10, width - 1);
    }
  }

  /** `YYYY-MM-DD`, the date half of `str(dt)`. */
  function DateText(d: Date): (s: string)
    requires ValidDate(d) && MinYear <= d.year <= MaxYear
    ensures |s| == 10 && ' ' !in s
  {
    Digits(d.year, 4) + "-" + Digits(d.month, 2) + "-" + Digits(d.day, 2)
  }

  /** `HH:MM:SS`. */
  function ClockText(hour: nat, minute: nat, second: nat): (s: string)
    requires hour < 100 && minute < 100 && second < 100
    ensures |s| == 8 && ' ' !in s && '.' !in s
  {
    Digits(hour, 2) + ":" + Digits(minute, 2) + ":" + Digits(second, 2)
  }

  /** `.ffffff` when there are microseconds, nothing otherwise. */
  function FractionText(microsecond: nat): (s: string)
    requires microsecond < 1000000
    ensures ' ' !in s && (|s| == 0 <==> microsecond == 0)
  {
    if microsecond == 0 then "" else "." + Digits(microsecond, 6)
  }

  /**
   * `HH:MM:SS[.ffffff]+00:00`, the time half of `str(dt)`: the fraction is printed only when the
   * microseconds are not zero, and the UTC offset always, because the datetime is aware.
   */
  function TimeText(t: DateTime): (s: string)
    requires ValidDateTime(t)
    ensures ' ' !in s
  {
    ClockText(t.hour, t.minute, t.second) + FractionText(t.microsecond) + "+00:00"
  }

  /** `str(dt)` for an aware UTC datetime. */
  function DateTimeText(t: DateTime): string
    requires ValidDateTime(t)
  {
    DateText(t.date) + " " + TimeText(t)
  }

  /** Reads back a `YYYY-MM-DD` text. */
  function ParseDateText(s: string): Option<Date>
  {
    if |s| == 10 && s[4] == '-' && s[7] == '-'
      && AllDigits(s[..4]) && AllDigits(s[5..7]) && AllDigits(s[8..])
    then Some(Date(DigitsValue(s[..4]), DigitsValue(s[5..7]), DigitsValue(s[8..])))
    else None
  }

  /** Reads back a `HH:MM:SS` text as (hour, minute, second). */
  function ParseClockText(c: string): Option<(int, int, int)>
  {
    if |c| != 8 || c[2] != ':' || c[5] != ':' || !AllDigits(c[..2]) || !AllDigits(c[3..5]) || !AllDigits(c[6..])
    then None
    else Some((DigitsValue(c[..2]), DigitsValue(c[3..5]), DigitsValue(c[6..])))
  }

  /** Reads back an empty or `.ffffff` text as microseconds. */
  function ParseFractionText(f: string): Option<int>
  {
    if f == [] then Some(0)
    else if |f| == 7 && f[0] == '.' && AllDigits(f[1..]) then Some(DigitsValue(f[1..]))
    else None
  }

  /** Reads back a `HH:MM:SS[.ffffff]+00:00` text as (hour, minute, second, microsecond). */
  function ParseTimeText(s: string): Option<(int, int, int, int)>
  {
    if |s| < 14 || s[|s| - 6..] != "+00:00" then None
    else match (ParseClockText(s[..8]), ParseFractionText(s[8..|s| - 6]))
      case (Some(hms), Some(us)) => Some((hms.0, hms.1, hms.2, us))
      case _ => None
  }

  /** The date text denotes the date it was printed from. */
  lemma DateTextRoundTrip(d: Date)
    requires ValidDate(d) && MinYear <= d.year <= MaxYear
    ensures ParseDateText(DateText(d)) == Some(d)
  {
    var s := DateText(d);
    assert s[..4] == Digits(d.year, 4);
    assert s[5..7] == Digits(d.month, 2);
    assert s[8..] == Digits(d.day, 2);
    DigitsRoundTrip(d.year, 4);
    DigitsRoundTrip(d.month, 2);
    DigitsRoundTrip(d.day, 2);
  }

  lemma ClockTextRoundTrip(hour: nat, minute: nat, second: nat)
    requires hour < 100 && minute < 100 && second < 100
    ensures ParseClockText(ClockText(hour, minute, second)) == Some((hour, minute, second))
  {
    var c := ClockText(hour, minute, second);
    assert c[..2] == Digits(hour, 2) && c[3..5] == Digits(minute, 2) && c[6..] == Digits(second, 2);
    DigitsRoundTrip(hour, 2);
    DigitsRoundTrip(minute, 2);
    DigitsRoundTrip(second, 2);
  }

  lemma FractionTextRoundTrip(microsecond: nat)
    requires microsecond < 1000000
    ensures ParseFractionText(FractionText(microsecond)) == Some(microsecond)
  {
    if microsecond != 0 {
      var f := FractionText(microsecond);
      assert f[1..] == Digits(microsecond, 6);
      DigitsRoundTrip(microsecond, 6);
    }
  }

  /** The time text denotes the time of day it was printed from, microseconds included. */
  lemma TimeTextRoundTrip(t: DateTime)
    requires ValidDateTime(t)
    ensures ParseTimeText(TimeText(t)) == Some((t.hour, t.minute, t.second, t.microsecond))
  {
    var s := TimeText(t);
    var c := ClockText(t.hour, t.minute, t.second);
    var f := FractionText(t.microsecond);
    assert s == c + f + "+00:00";
    assert s[..8] == c && s[8..|s| - 6] == f && s[|s| - 6..] == "+00:00";
    ClockTextRoundTrip(t.hour, t.minute, t.second);
    FractionTextRoundTrip(t.microsecond);
  }

  /** The time text shows a fraction exactly when the microseconds are not zero. */
  lemma TimeTextFraction(t: DateTime)
    requires ValidDateTime(t)
    ensures '.' in TimeText(t) <==> t.microsecond != 0
  {
    var s := TimeText(t);
    if t.microsecond == 0 {
      assert s == ClockText(t.hour, t.minute, t.second) + "+00:00";
    } else {
      assert s[8] == '.';
    }
  }

  /** `s.split(sep)`: every occurrence of `sep` splits, and empty pieces are kept. */
  function Split(s: string, sep: char): (parts: seq<string>)
    ensures |parts| >= 1
  {
    if |s| == 0 then [""]
    else
      var rest := Split(s[1..], sep);
      if s[0] == sep then [""] + rest else [[s[0]] + rest[0]] + rest[1..]
  }

  lemma {:induction false} SplitWithoutSeparator(s: string, sep: char)
    requires sep !in s
    ensures Split(s, sep) == [s]
  {
    if |s| > 0 {
      SplitWithoutSeparator(s[1..], sep);
      assert s == [s[0]] + s[1..];
    }
  }

  /** A text with exactly one separator splits into the two pieces around it. */
  lemma {:induction false} SplitOnce(a: string, b: string, sep: char)
    requires sep !in a && sep !in b
    ensures Split(a + [sep] + b, sep) == [a, b]
  {
    if |a| == 0 {
      assert (a + [sep] + b)[1..] == b;
      SplitWithoutSeparator(b, sep);
    } else {
      assert (a + [sep] + b)[1..] == a[1..] + [sep] + b;
      SplitOnce(a[1..], b, sep);
      assert a == [a[0]] + a[1..];
    }
  }

  /** `str(dt).split(" ")` gives exactly the date text and the time text. */
  lemma DateTimeTextSplits(t: DateTime)
    requires ValidDateTime(t)
    ensures Split(DateTimeText(t), ' ') == [DateText(t.date), TimeText(t)]
  {
    SplitOnce(DateText(t.date), TimeText(t), ' ');
  }
}
