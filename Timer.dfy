/** The elapsed-time display of the recording widget: a second count shown
    as `HH:MM:SS`, each field rendered in decimal, prefixed with "0" and cut
    down to its last two characters. */
module Timer {

  /** A decimal digit character. */
  predicate IsDigit(c: char) {
    '0' <= c <= '9'
  }

  /** The numeric value of a digit character. */
  function DigitValue(c: char): int {
    c as int - '0' as int
  }

  /** The character of the decimal digit `d`. */
  function DigitChar(d: nat): (c: char)
    requires d < 10
    ensures IsDigit(c) && DigitValue(c) == d
  {
    ('0' as int + d) as char
  }

  /** JavaScript's `String(n)` for a non-negative integer: its decimal digits,
      most significant first, with no leading zero. */
  function Decimal(n: nat): (s: string)
    ensures 1 <= |s|
    ensures |s| == 1 <==> n < 10
    ensures s[|s| - 1] == DigitChar(n % 10)
    ensures 10 <= n ==> s[|s| - 2] == DigitChar(n / 10 % 10)
  {
    if n < 10 then [DigitChar(n)] else Decimal(n / 10) + [DigitChar(n % 10)]
  }

  /** `Decimal` writes only digits, and no leading zero. */
  lemma {:induction false} DecimalDigits(n: nat)
    ensures forall i :: 0 <= i < |Decimal(n)| ==> IsDigit(Decimal(n)[i])
    ensures 10 <= n ==> Decimal(n)[0] != '0'
  {
    if 10 <= n {
      DecimalDigits(n / 10);
      assert Decimal(n) == Decimal(n / 10) + [DigitChar(n % 10)];
    }
  }

  /** The value of a character read as a digit; a non-digit reads as 0. */
  function DigitOrZero(c: char): (d: nat)
    ensures d < 10
    ensures IsDigit(c) ==> d == DigitValue(c)
  {
    if IsDigit(c) then DigitValue(c) else 0
  }

  /** Reads a string of digits back as a number (the inverse of `Decimal`). */
  function ParseDecimal(s: string): nat
  {
    if s == [] then 0 else ParseDecimal(s[..|s| - 1]) * 10 + DigitOrZero(s[|s| - 1])
  }

  /** Rendering a number and reading it back gives the number. */
  lemma {:induction false} DecimalRoundTrip(n: nat)
    ensures ParseDecimal(Decimal(n)) == n
  {
    if 10 <= n {
      var s := Decimal(n);
      assert s[..|s| - 1] == Decimal(n / 10);
      DecimalRoundTrip(n / 10);
    }
  }

  /** JavaScript's `s.slice(-k)`: the last `k` characters of `s`, or all of
      `s` when it is shorter than `k`; `slice(-0)` is `slice(0)`, the whole
      string. */
  function SliceLast(s: string, k: nat): (r: string)
    ensures |r| == if k == 0 || |s| < k then |s| else k
    ensures r == s[|s| - |r|..]
  {
    if k == 0 || |s| < k then s else s[|s| - k..]
  }

  /** The last two decimal digits of `x` form `x % 100`. */
  lemma LastTwoDigits(x: nat)
    ensures x % 100 == x / 10 % 10 * 10 + x % 10
  {
  }

  /** Two digits read back. */
  lemma ParseTwoDigits(a: nat, b: nat)
    requires a < 10 && b < 10
    ensures ParseDecimal([DigitChar(a), DigitChar(b)]) == 10 * a + b
  {
    var s := [DigitChar(a), DigitChar(b)];
    assert s[..1] == [DigitChar(a)];
    assert [DigitChar(a)][..0] == [];
    assert ParseDecimal([DigitChar(a)]) == a;
  }

  /** `("0" + x).slice(-2)` taken literally: always exactly two characters. */
  function PaddedTail(x: nat): (s: string)
    ensures |s| == 2
  {
    SliceLast("0" + Decimal(x), 2)
  }

  /** The padding keeps exactly the tens and units digits of `x`. */
  lemma PaddedTailDigits(x: nat)
    ensures PaddedTail(x) == [DigitChar(x / 10 % 10), DigitChar(x % 10)]
  {
    var d := Decimal(x);
    var padded := "0" + d;
    assert padded[|padded| - 1] == d[|d| - 1];
    assert |d| >= 2 ==> padded[|padded| - 2] == d[|d| - 2];
    assert |d| == 1 ==> x / 10 % 10 == 0 && padded[0] == DigitChar(0);
  }

  /** One field of the display, `("0" + x).slice(-2)`: always two digit
      characters, which read back as `x % 100`; anything above the hundreds
      is cut off. */
  function Pad2(x: nat): (s: string)
    ensures IsField(s)
    ensures ParseDecimal(s) == x % 100
  {
    PaddedTailDigits(x);
    ParseTwoDigits(x / 10 % 10, x % 10);
    LastTwoDigits(x);
    PaddedTail(x)
  }

  /** Numbers 100 apart give the same field. */
  lemma Pad2Periodic(x: nat)
    ensures Pad2(x + 100) == Pad2(x)
  {
    PaddedTailDigits(x);
    PaddedTailDigits(x + 100);
    var a := x / 10;
    assert (x + 100) / 10 == a + 10;
    assert (a + 10) % 10 == a % 10;
    assert (x + 100) % 10 == x % 10;
  }

  /** Below 100 a field is exactly the two-digit decimal form of its value:
      the decimal digits, with one leading "0" when there is only one. */
  lemma Pad2TwoDigitForm(x: nat)
    requires x < 100
    ensures Pad2(x) == if x < 10 then "0" + Decimal(x) else Decimal(x)
  {
    PaddedTailDigits(x);
  }

  /** Hours of the display: `Math.floor(t / 3600)`, the number of whole
      hours in `t` seconds, without bound. */
  function Hours(t: nat): (h: nat)
    ensures 3600 * h <= t < 3600 * (h + 1)
  {
    t / 3600
  }

  /** Minutes of the display: `Math.floor((t / 60) % 60)`, always below 60. */
  function Minutes(t: nat): (m: nat)
    ensures m < 60
  {
    t / 60 % 60
  }

  /** Seconds of the display: `t % 60`, always below 60. */
  function Seconds(t: nat): (sec: nat)
    ensures sec < 60
  {
    t % 60
  }

  /** A field of the display: exactly two digit characters. */
  predicate IsField(f: string) {
    |f| == 2 && IsDigit(f[0]) && IsDigit(f[1])
  }

  /** Three fields joined as `HH:MM:SS`. */
  function Join(hh: string, mm: string, ss: string): (s: string)
    requires IsField(hh) && IsField(mm) && IsField(ss)
    ensures |s| == 8 && s[2] == ':' && s[5] == ':'
    ensures forall i :: 0 <= i < 8 && i != 2 && i != 5 ==> IsDigit(s[i])
    ensures s[0..2] == hh && s[3..5] == mm && s[6..8] == ss
  {
    hh + ":" + mm + ":" + ss
  }

  /** The text the timer shows for `t` elapsed seconds: the shape
      `DD:DD:DD`. */
  function FormatTime(t: nat): (s: string)
    ensures |s| == 8 && s[2] == ':' && s[5] == ':'
    ensures forall i :: 0 <= i < 8 && i != 2 && i != 5 ==> IsDigit(s[i])
  {
    Join(Pad2(Hours(t)), Pad2(Minutes(t)), Pad2(Seconds(t)))
  }

  /** The three fields of the display read back: the seconds are `t % 60`,
      the minutes `floor(t / 60) % 60` (both 00..59) and the hours only the
      last two digits of `floor(t / 3600)`. */
  lemma FieldsParseBack(t: nat)
    ensures ParseDecimal(FormatTime(t)[0..2]) == Hours(t) % 100
    ensures ParseDecimal(FormatTime(t)[3..5]) == Minutes(t) < 60
    ensures ParseDecimal(FormatTime(t)[6..8]) == Seconds(t) < 60
  {
    var m, sec := Minutes(t), Seconds(t);
    assert m % 100 == m && sec % 100 == sec;
  }

  /** A second count is its hours, minutes and seconds put back together. */
  lemma SecondsDecompose(t: nat)
    ensures t == 3600 * Hours(t) + 60 * Minutes(t) + Seconds(t)
  {
  }

  /** Below 100 hours, hours modulo 100, minutes and seconds give back `t`. */
  lemma RecomposeBelow100Hours(t: nat, hh: nat, mm: nat, ss: nat)
    requires t < 360000
    requires hh == Hours(t) % 100 && mm == Minutes(t) && ss == Seconds(t)
    ensures 3600 * hh + 60 * mm + ss == t
  {
  }

  /** Below 100 hours the display determines the second count:
      `3600 * HH + 60 * MM + SS == t`. */
  lemma FormatTimeRoundTrip(t: nat)
    requires t < 360000
    ensures 3600 * ParseDecimal(FormatTime(t)[0..2])
            + 60 * ParseDecimal(FormatTime(t)[3..5])
            + ParseDecimal(FormatTime(t)[6..8]) == t
  {
    var s := FormatTime(t);
    var hh, mm, ss := ParseDecimal(s[0..2]), ParseDecimal(s[3..5]), ParseDecimal(s[6..8]);
    FieldsParseBack(t);
    assert hh == Hours(t) % 100 && mm == Minutes(t) && ss == Seconds(t);
    RecomposeBelow100Hours(t, hh, mm, ss);
  }

  /** Consequently no two second counts below 100 hours look alike. */
  lemma FormatTimeInjective(t1: nat, t2: nat)
    requires t1 < 360000 && t2 < 360000
    requires FormatTime(t1) == FormatTime(t2)
    ensures t1 == t2
  {
    FormatTimeRoundTrip(t1);
    FormatTimeRoundTrip(t2);
  }

  /** From 100 hours on the display wraps: `t` and `t + 360000` (100 hours
      later) show the same text. */
  lemma FormatTimeWraps(t: nat)
    ensures FormatTime(t + 360000) == FormatTime(t)
  {
    var h, q := Hours(t), t / 60;
    assert Hours(t + 360000) == h + 100;
    assert (t + 360000) / 60 == q + 6000;
    assert (q + 6000) % 60 == q % 60;
    assert Minutes(t + 360000) == Minutes(t);
    assert Seconds(t + 360000) == Seconds(t);
    Pad2Periodic(h);
  }

  /** JavaScript's `%` on non-negative numbers: `x - m * trunc(x / m)`, the
      truncation being a floor there. */
  function JsRemainder(x: real, m: real): real
    requires 0.0 <= x && 0.0 < m
  {
    x - m * ((x / m).Floor as real)
  }

  /** `a / b` on reals, floored, is integer division. */
  lemma FloorOfQuotient(a: nat, b: nat)
    requires 0 < b
    ensures (a as real / b as real).Floor == a / b
  {
    var q, r := a / b, a % b;
    assert a as real == (q * b) as real + r as real;
    assert a as real / b as real == q as real + r as real / b as real;
  }

  /** `Math.floor((t / 60) % 60)` on exact reals is the minutes field. */
  lemma MinutesAsWritten(t: nat)
    ensures JsRemainder(t as real / 60.0, 60.0).Floor == Minutes(t)
  {
    var h, r := t / 3600, t % 3600;
    FloorOfQuotient(t, 3600);
    FloorOfQuotient(r, 60);
    assert t as real / 60.0 / 60.0 == t as real / 3600.0;
    assert t as real / 60.0 - 60.0 * h as real == r as real / 60.0 by {
      assert t as real == 3600.0 * h as real + r as real;
    }
    assert t / 60 == 60 * h + r / 60 by {
      assert t == 60 * (60 * h + r / 60) + r % 60;
    }
  }

  /** `t % 60` on exact reals is the seconds field. */
  lemma SecondsAsWritten(t: nat)
    ensures JsRemainder(t as real, 60.0) == Seconds(t) as real
  {
    FloorOfQuotient(t, 60);
    assert t as real - 60.0 * (t / 60) as real == (t % 60) as real by {
      assert t == 60 * (t / 60) + t % 60;
    }
  }

  /** The expression as written, on exact reals (JavaScript numbers without
      rounding), agrees with the integer fields for every whole second count. */
  lemma AsWrittenAgrees(t: nat)
    ensures (t as real / 3600.0).Floor == Hours(t)
    ensures JsRemainder(t as real / 60.0, 60.0).Floor == Minutes(t)
    ensures JsRemainder(t as real, 60.0) == Seconds(t) as real
  {
    FloorOfQuotient(t, 3600);
    MinutesAsWritten(t);
    SecondsAsWritten(t);
  }
}
