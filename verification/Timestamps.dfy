/** Timestamps are stored as chrono's `to_rfc3339` text and compared as text by SQLite.
    For UTC instants of the years 0 to 9999 that is the order of time itself. */
module Timestamps {
  import opened Text

  /** A UTC instant as calendar fields. */
  datatype Instant = Instant(year: nat, month: nat, day: nat, hour: nat, minute: nat, second: nat, nano: nat)

  const NANOS := 1_000_000_000

  predicate Leap(y: nat) {
    y % 4 == 0 && (y % 100 != 0 || y % 400 == 0)
  }

  function MonthLength(y: nat, m: nat): nat {
    if m == 2 then (if Leap(y) then 29 else 28)
    else if m == 4 || m == 6 || m == 9 || m == 11 then 30 else 31
  }

  predicate Valid(t: Instant) {
    && t.year <= 9999 && 1 <= t.month <= 12 && 1 <= t.day <= MonthLength(t.year, t.month)
    && t.hour < 24 && t.minute < 60 && t.second < 60 && t.nano < NANOS
  }

  // ── Time ───────────────────────────────────────────────────────────────────

  function DaysBeforeYear(y: nat): nat {
    if y == 0 then 0 else DaysBeforeYear(y - 1) + if Leap(y - 1) then 366 else 365
  }

  function DaysBeforeMonth(y: nat, m: nat): nat {
    if m <= 1 then 0 else DaysBeforeMonth(y, m - 1) + MonthLength(y, m - 1)
  }

  function Day(t: Instant): int {
    DaysBeforeYear(t.year) + DaysBeforeMonth(t.year, t.month) + t.day
  }

  /** Nanoseconds since the start of year 0. */
  function Nanos(t: Instant): int {
    (((Day(t) * 24 + t.hour) * 60 + t.minute) * 60 + t.second) * NANOS + t.nano
  }

  /** The days before a year in closed form: one more every fourth year, but for centuries that 400
      does not divide. */
  lemma {:induction false} DaysBeforeYearClosed(y: nat)
    ensures DaysBeforeYear(y) == 365 * y + (y + 3) / 4 - (y + 99) / 100 + (y + 399) / 400
  {
    if y > 0 {
      DaysBeforeYearClosed(y - 1);
      EveryFourth(y - 1);
      EveryHundredth(y - 1);
      EveryFourHundredth(y - 1);
    }
  }

  lemma EveryFourth(x: nat)
    ensures (x + 4) / 4 - (x + 3) / 4 == if x % 4 == 0 then 1 else 0
  {}

  lemma EveryHundredth(x: nat)
    ensures (x + 100) / 100 - (x + 99) / 100 == if x % 100 == 0 then 1 else 0
    ensures x % 100 == 0 ==> x % 4 == 0
  {
    var q, r := x / 100, x % 100;
    assert x == 100 * q + r;
    assert x + 100 == 100 * (q + 1) + r;
    assert x + 99 == if r == 0 then 100 * q + 99 else 100 * (q + 1) + (r - 1);
  }

  lemma EveryFourHundredth(x: nat)
    ensures (x + 400) / 400 - (x + 399) / 400 == if x % 400 == 0 then 1 else 0
    ensures x % 400 == 0 ==> x % 100 == 0
  {
    var q, r := x / 400, x % 400;
    assert x == 400 * q + r;
    assert x + 400 == 400 * (q + 1) + r;
    assert x + 399 == if r == 0 then 400 * q + 399 else 400 * (q + 1) + (r - 1);
  }

  /** And the days before a month, by the table. */
  lemma DaysBeforeMonthTable(y: nat, m: nat)
    requires 1 <= m <= 13
    ensures DaysBeforeMonth(y, m) == [0, 31, 59, 90, 120, 151, 181, 212, 243, 273, 304, 334, 365][m - 1]
                                     + if m > 2 && DaysBeforeYear(y + 1) - DaysBeforeYear(y) == 366 then 1 else 0
  {
    hide DaysBeforeYear;
    YearLength(y);
    if m > 1 {
      DaysBeforeMonthTable(y, m - 1);
    }
  }

  lemma YearLength(y: nat)
    ensures DaysBeforeYear(y + 1) - DaysBeforeYear(y) == if Leap(y) then 366 else 365
  {}

  /** Time elapsed: whole days, and the hours, minutes, seconds and nanoseconds of the last. */
  lemma NanosElapsed(t: Instant)
    ensures Nanos(t) == Day(t) * 86_400_000_000_000 + t.hour * 3_600_000_000_000 + t.minute * 60_000_000_000
                        + t.second * 1_000_000_000 + t.nano
    ensures Day(t) == DaysBeforeYear(t.year) + DaysBeforeMonth(t.year, t.month) + t.day
  {}

  // ── Text ───────────────────────────────────────────────────────────────────

  /** `n` in decimal, zero-padded to `w` digits. */
  function Pad(n: nat, w: nat): (r: string)
    ensures |r| == w
    ensures forall i :: 0 <= i < w ==> '0' <= r[i] <= '9'
  {
    if w == 0 then "" else Pad(n / 10, w - 1) + [('0' as int + n % 10) as char]
  }

  /** chrono's automatic precision: no fraction, or 3, 6 or 9 digits, whichever is exact. */
  function Fraction(nano: nat): string {
    if nano == 0 then ""
    else if nano % 1_000_000 == 0 then "." + Pad(nano / 1_000_000, 3)
    else if nano % 1_000 == 0 then "." + Pad(nano / 1_000, 6)
    else "." + Pad(nano, 9)
  }

  const UTC := "+00:00"

  function Render(t: Instant): string {
    Pad(t.year, 4) + ("-" + (Pad(t.month, 2) + ("-" + (Pad(t.day, 2) + ("T" +
    (Pad(t.hour, 2) + (":" + (Pad(t.minute, 2) + (":" + (Pad(t.second, 2) + (Fraction(t.nano) + UTC)))))))))))
  }

  // ── Digits ─────────────────────────────────────────────────────────────────

  function Pow10(w: nat): nat {
    if w == 0 then 1 else 10 * Pow10(w - 1)
  }

  /** Equal-width decimal text has the order, and the identity, of its numbers. */
  lemma {:induction false} PadOrder(m: nat, n: nat, w: nat)
    requires m < Pow10(w) && n < Pow10(w)
    ensures Less(Pad(m, w), Pad(n, w)) <==> m < n
    ensures Pad(m, w) == Pad(n, w) <==> m == n
  {
    if w > 0 {
      PadOrder(m / 10, n / 10, w - 1);
      var a, b := ('0' as int + m % 10) as char, ('0' as int + n % 10) as char;
      LessConcat(Pad(m / 10, w - 1), Pad(n / 10, w - 1), [a], [b]);
      assert Pad(m, w)[..w - 1] == Pad(m / 10, w - 1) && Pad(n, w)[..w - 1] == Pad(n / 10, w - 1);
      assert Pad(m, w)[w - 1] == a && Pad(n, w)[w - 1] == b;
    }
  }

  lemma PadSplit(n: nat, w: nat)
    ensures Pad(n, w + 3) == Pad(n / 1_000, w) + Pad(n % 1_000, 3)
  {
    hide Pad;
    LastDigits(n);
    PadThree(n, w);
    PadThree(n % 1_000, 0);
    assert Pad(n % 1_000 / 1_000, 0) == "";
    assert Pad(n % 1_000, 3) == LastThree(n % 1_000) == LastThree(n);
  }

  function LastThree(n: nat): string {
    [('0' as int + (n / 100) % 10) as char, ('0' as int + (n / 10) % 10) as char, ('0' as int + n % 10) as char]
  }

  lemma TensApart(a: nat, b: nat)
    ensures (10 * a + b) % 10 == b % 10
  {}

  lemma LastDigits(n: nat)
    ensures var d := n % 1_000;
            d / 1_000 == 0 && (n / 100) % 10 == (d / 100) % 10 && (n / 10) % 10 == (d / 10) % 10 && n % 10 == d % 10
  {
    var q, d := n / 1_000, n % 1_000;
    assert n == 1_000 * q + d;
    assert n / 100 == 10 * q + d / 100;
    assert n / 10 == 10 * (10 * q) + d / 10;
    TensApart(q, d / 100);
    TensApart(10 * q, d / 10);
    TensApart(100 * q, d);
  }

  lemma PadThree(n: nat, w: nat)
    ensures Pad(n, w + 3) == Pad(n / 1_000, w) + LastThree(n)
  {
    assert n / 10 / 10 == n / 100 && n / 100 / 10 == n / 1_000;
    assert Pad(n / 100, w + 1) == Pad(n / 1_000, w) + [('0' as int + (n / 100) % 10) as char];
    assert Pad(n / 10, w + 2) == Pad(n / 100, w + 1) + [('0' as int + (n / 10) % 10) as char];
    assert Pad(n, w + 3) == Pad(n / 10, w + 2) + [('0' as int + n % 10) as char];
  }

  // ── Fractions of different width ───────────────────────────────────────────

  /** `x`, in whole units of 1000^-k, against `y`, which needs more digits: the shorter text is
      the smaller exactly when its number is, because the sign that follows it sorts below digits. */
  lemma ShorterFraction(a: nat, w: nat, y: nat)
    requires a < Pow10(w) && y < Pow10(w + 3) && y % 1_000 != 0
    ensures Less(Pad(a, w) + UTC, Pad(y, w + 3) + UTC) <==> 1_000 * a < y
  {
    PadSplit(y, w);
    assert Pow10(w + 3) == 1_000 * Pow10(w) by {
      assert Pow10(w + 3) == 10 * Pow10(w + 2) && Pow10(w + 2) == 10 * Pow10(w + 1);
    }
    PadOrder(a, y / 1_000, w);
    var rest := Pad(y % 1_000, 3) + UTC;
    assert Pad(y, w + 3) + UTC == Pad(y / 1_000, w) + rest;
    LessConcat(Pad(a, w), Pad(y / 1_000, w), UTC, rest);
    assert rest[0] == Pad(y % 1_000, 3)[0];
  }

  lemma Powers()
    ensures Pow10(0) == 1 && Pow10(2) == 100 && Pow10(3) == 1_000 && Pow10(4) == 10_000
    ensures Pow10(6) == 1_000_000 && Pow10(9) == NANOS
  {
    assert Pow10(1) == 10 && Pow10(2) == 100 && Pow10(3) == 1_000 && Pow10(4) == 10_000;
    assert Pow10(5) == 100_000 && Pow10(6) == 1_000_000 && Pow10(7) == 10_000_000 && Pow10(8) == 100_000_000;
  }

  /** Three digits against nine: through the six-digit prefix. */
  lemma MuchShorterFraction(a: nat, y: nat)
    requires a < 1_000 && y < NANOS && y % 1_000 != 0
    ensures Less(Pad(a, 3) + UTC, Pad(y, 9) + UTC) <==> 1_000_000 * a < y
  {
    Powers();
    PadSplit(y, 6);
    PadSplit(y / 1_000, 3);
    var hi := y / 1_000 / 1_000;
    PadOrder(a, hi, 3);
    var rest := Pad(y / 1_000 % 1_000, 3) + (Pad(y % 1_000, 3) + UTC);
    assert Pad(y, 9) + UTC == Pad(hi, 3) + rest;
    LessConcat(Pad(a, 3), Pad(hi, 3), UTC, rest);
    assert rest[0] == Pad(y / 1_000 % 1_000, 3)[0];
    assert hi == y / 1_000_000;
  }

  function Width(nano: nat): nat {
    if nano == 0 then 0 else if nano % 1_000_000 == 0 then 3 else if nano % 1_000 == 0 then 6 else 9
  }

  /** The nanoseconds one last digit of the fraction stands for. */
  function Unit(nano: nat): nat {
    if nano % 1_000_000 == 0 then 1_000_000 else if nano % 1_000 == 0 then 1_000 else 1
  }

  lemma FractionText(nano: nat)
    requires 0 < nano < NANOS
    ensures Fraction(nano) + UTC == "." + (Pad(nano / Unit(nano), Width(nano)) + UTC)
    ensures nano / Unit(nano) < Pow10(Width(nano)) && nano == nano / Unit(nano) * Unit(nano)
  {
    hide Pad, Pow10;
    Powers();
  }

  lemma NoFraction(y: nat)
    requires 0 < y < NANOS
    ensures Less(UTC, Fraction(y) + UTC)
  {
    hide Pad, Pow10;
    FractionText(y);
  }

  lemma FractionPoint(x: nat, y: nat)
    requires 0 < x < NANOS && 0 < y < NANOS
    ensures Less(Fraction(x) + UTC, Fraction(y) + UTC) <==>
              Less(Pad(x / Unit(x), Width(x)) + UTC, Pad(y / Unit(y), Width(y)) + UTC)
  {
    hide Pad, Pow10, Less, Fraction, Width, Unit;
    FractionText(x);
    FractionText(y);
    LessTrichotomy(".", ".");
    LessConcat(".", ".", Pad(x / Unit(x), Width(x)) + UTC, Pad(y / Unit(y), Width(y)) + UTC);
  }

  lemma FractionOrderNarrow(x: nat, y: nat)
    requires x < NANOS && y < NANOS && Width(x) < Width(y)
    ensures Less(Fraction(x) + UTC, Fraction(y) + UTC) <==> x < y
  {
    hide Pad, Pow10, Less, Fraction;
    if x == 0 {
      FractionLength(x);
      assert Fraction(x) + UTC == UTC;
      NoFraction(y);
    } else {
      FractionPoint(x, y);
      Powers();
      if Width(x) == 3 && Width(y) == 6 {
        ShorterFraction(x / 1_000_000, 3, y / 1_000);
      } else if Width(x) == 6 {
        ShorterFraction(x / 1_000, 6, y);
      } else {
        MuchShorterFraction(x / 1_000_000, y);
      }
    }
  }

  lemma FractionOrder(x: nat, y: nat)
    requires x < NANOS && y < NANOS
    ensures Less(Fraction(x) + UTC, Fraction(y) + UTC) <==> x < y
  {
    hide Pad, Less, Fraction;
    LessTrichotomy(Fraction(x) + UTC, Fraction(y) + UTC);
    if Width(x) < Width(y) {
      FractionOrderNarrow(x, y);
    } else if Width(y) < Width(x) {
      FractionOrderNarrow(y, x);
      FractionLength(x);
      FractionLength(y);
    } else if Width(x) > 0 {
      FractionText(x);
      FractionText(y);
      PadOrder(x / Unit(x), y / Unit(y), Width(x));
      LessConcat(".", ".", Pad(x / Unit(x), Width(x)) + UTC, Pad(y / Unit(y), Width(y)) + UTC);
      LessConcat(Pad(x / Unit(x), Width(x)), Pad(y / Unit(y), Width(y)), UTC, UTC);
      LessTrichotomy(UTC, UTC);
      LessTrichotomy(".", ".");
    }
  }

  lemma FractionLength(nano: nat)
    ensures |Fraction(nano)| == if Width(nano) == 0 then 0 else 1 + Width(nano)
  {}

  // ── Calendar fields ────────────────────────────────────────────────────────

  lemma {:induction false} LaterYear(a: nat, b: nat)
    requires a < b
    ensures DaysBeforeYear(a) + (if Leap(a) then 366 else 365) <= DaysBeforeYear(b)
  {
    if a + 1 < b {
      LaterYear(a, b - 1);
    }
  }

  lemma {:induction false} LaterMonth(y: nat, a: nat, b: nat)
    requires 1 <= a < b
    ensures DaysBeforeMonth(y, a) + MonthLength(y, a) <= DaysBeforeMonth(y, b)
  {
    if a + 1 < b {
      LaterMonth(y, a, b - 1);
    }
  }

  lemma YearEnd(y: nat)
    ensures DaysBeforeMonth(y, 13) == if Leap(y) then 366 else 365
  {
    var leap := if Leap(y) then 1 else 0;
    assert DaysBeforeMonth(y, 2) == 31;
    assert DaysBeforeMonth(y, 3) == 59 + leap;
    assert DaysBeforeMonth(y, 5) == 120 + leap;
    assert DaysBeforeMonth(y, 7) == 181 + leap;
    assert DaysBeforeMonth(y, 9) == 243 + leap;
    assert DaysBeforeMonth(y, 11) == 304 + leap;
  }

  /** Days count up exactly as (year, month, day) does. */
  lemma DayOrder(a: Instant, b: Instant)
    requires Valid(a) && Valid(b)
    ensures Day(a) < Day(b) <==>
            a.year < b.year || (a.year == b.year && (a.month < b.month || (a.month == b.month && a.day < b.day)))
    ensures Day(a) == Day(b) <==> a.year == b.year && a.month == b.month && a.day == b.day
  {
    DateBefore(a, b);
    DateBefore(b, a);
  }

  lemma DateBefore(a: Instant, b: Instant)
    requires Valid(a) && Valid(b)
    ensures a.year < b.year ==> Day(a) < Day(b)
    ensures a.year == b.year && a.month < b.month ==> Day(a) < Day(b)
  {
    hide DaysBeforeYear, DaysBeforeMonth;
    if a.year < b.year {
      LaterYear(a.year, b.year);
      LaterMonth(a.year, a.month, 13);
      YearEnd(a.year);
    } else if a.year == b.year && a.month < b.month {
      LaterMonth(a.year, a.month, b.month);
    }
  }

  /** One more field: equal-width decimal, separator, rest. */
  lemma FieldOrder(m: nat, n: nat, w: nat, sep: string, a: string, b: string)
    requires m < Pow10(w) && n < Pow10(w)
    ensures Less(Pad(m, w) + (sep + a), Pad(n, w) + (sep + b)) <==> m < n || (m == n && Less(a, b))
  {
    PadOrder(m, n, w);
    LessConcat(Pad(m, w), Pad(n, w), sep + a, sep + b);
    LessConcat(sep, sep, a, b);
    LessTrichotomy(sep, sep);
  }

  function FromDay(t: Instant): string {
    Pad(t.day, 2) + ("T" + FromHour(t))
  }

  function FromHour(t: Instant): string {
    Pad(t.hour, 2) + (":" + (Pad(t.minute, 2) + (":" + FromSecond(t))))
  }

  function FromSecond(t: Instant): string {
    Pad(t.second, 2) + (Fraction(t.nano) + UTC)
  }

  lemma ClockOrder(a: Instant, b: Instant)
    requires Valid(a) && Valid(b)
    ensures Less(FromHour(a), FromHour(b)) <==>
            ((a.hour * 60 + a.minute) * 60 + a.second) * NANOS + a.nano <
            ((b.hour * 60 + b.minute) * 60 + b.second) * NANOS + b.nano
  {
    hide Pad, Less, Fraction, Pow10;
    Powers();
    FractionOrder(a.nano, b.nano);
    PadOrder(a.second, b.second, 2);
    LessConcat(Pad(a.second, 2), Pad(b.second, 2), Fraction(a.nano) + UTC, Fraction(b.nano) + UTC);
    FieldOrder(a.minute, b.minute, 2, ":", FromSecond(a), FromSecond(b));
    FieldOrder(a.hour, b.hour, 2, ":", Pad(a.minute, 2) + (":" + FromSecond(a)),
        Pad(b.minute, 2) + (":" + FromSecond(b)));
  }

  /** For years 0 to 9999, comparing the stored texts is comparing the instants, whatever mix of
      0, 3, 6 or 9 fraction digits they carry. */
  lemma TextOrderIsTimeOrder(a: Instant, b: Instant)
    requires Valid(a) && Valid(b)
    ensures Less(Render(a), Render(b)) <==> Nanos(a) < Nanos(b)
    ensures Render(a) == Render(b) <==> Nanos(a) == Nanos(b)
  {
    RenderOrder(a, b);
    RenderOrder(b, a);
    LessTrichotomy(Render(a), Render(b));
  }

  lemma RenderOrder(a: Instant, b: Instant)
    requires Valid(a) && Valid(b)
    ensures Less(Render(a), Render(b)) <==> Nanos(a) < Nanos(b)
  {
    hide Pad, Less, Fraction, Pow10, Day, FromHour;
    Powers();
    ClockOrder(a, b);
    DayOrder(a, b);
    FieldOrder(a.day, b.day, 2, "T", FromHour(a), FromHour(b));
    FieldOrder(a.month, b.month, 2, "-", FromDay(a), FromDay(b));
    FieldOrder(a.year, b.year, 4, "-", Pad(a.month, 2) + ("-" + FromDay(a)), Pad(b.month, 2) + ("-" + FromDay(b)));
    RenderParts(a);
    RenderParts(b);
  }

  lemma RenderParts(t: Instant)
    ensures Render(t) == Pad(t.year, 4) + ("-" + (Pad(t.month, 2) + ("-" + FromDay(t))))
  {
    hide Pad, Fraction;
  }
}
