/** How a time stamp prints: `str(Timestamp)`, which is
    `YYYY-MM-DD HH:MM:SS` followed by `.ffffff` when the microsecond part
    is not zero, on the proleptic Gregorian calendar. */
module Clock {
  import opened Series
  import opened Text

  // ---------------------------------------------------------------------
  // Calendar
  // ---------------------------------------------------------------------

  predicate IsLeap(y: int) {
    y % 4 == 0 && (y % 100 != 0 || y % 400 == 0)
  }

  function YearLength(y: int): nat {
    if IsLeap(y) then 366 else 365
  }

  function MonthLength(y: int, m: int): nat
    requires 1 <= m <= 12
  {
    if m == 2 then (if IsLeap(y) then 29 else 28)
    else if m == 4 || m == 6 || m == 9 || m == 11 then 30
    else 31
  }

  /** Day number of 1 January of year `y` (day 0 is 1970-01-01). */
  function YearStart(y: int): int
    decreases if y >= 1970 then y - 1970 else 1970 - y
  {
    if y == 1970 then 0
    else if y > 1970 then YearStart(y - 1) + YearLength(y - 1)
    else YearStart(y + 1) - YearLength(y)
  }

  /** Days in the months before month `m` of year `y`. */
  function MonthStart(y: int, m: int): nat
    requires 1 <= m <= 13
  {
    if m == 1 then 0 else MonthStart(y, m - 1) + MonthLength(y, m - 1)
  }

  lemma MonthsFillYear(y: int)
    ensures MonthStart(y, 13) == YearLength(y)
  {
    assert MonthStart(y, 1) == 0;
    assert MonthStart(y, 2) == MonthStart(y, 1) + MonthLength(y, 1);
    assert MonthStart(y, 3) == MonthStart(y, 2) + MonthLength(y, 2);
    assert MonthStart(y, 4) == MonthStart(y, 3) + MonthLength(y, 3);
    assert MonthStart(y, 5) == MonthStart(y, 4) + MonthLength(y, 4);
    assert MonthStart(y, 6) == MonthStart(y, 5) + MonthLength(y, 5);
    assert MonthStart(y, 7) == MonthStart(y, 6) + MonthLength(y, 6);
    assert MonthStart(y, 8) == MonthStart(y, 7) + MonthLength(y, 7);
    assert MonthStart(y, 9) == MonthStart(y, 8) + MonthLength(y, 8);
    assert MonthStart(y, 10) == MonthStart(y, 9) + MonthLength(y, 9);
    assert MonthStart(y, 11) == MonthStart(y, 10) + MonthLength(y, 10);
    assert MonthStart(y, 12) == MonthStart(y, 11) + MonthLength(y, 11);
    assert MonthStart(y, 13) == MonthStart(y, 12) + MonthLength(y, 12);
  }

  /** The year holding day `days`, counted from 1 January of year `y`, and
      the day's 0-based position in that year. */
  function YearOf(y: int, days: int): (r: (int, nat))
    ensures r.1 < YearLength(r.0)
    ensures YearStart(r.0) + r.1 == YearStart(y) + days
    decreases if days >= 0 then days else -days
  {
    if days < 0 then
      var back := days + YearLength(y - 1);
      if back >= 0 then (y - 1, back) else YearOf(y - 1, back)
    else if days < YearLength(y) then (y, days)
    else YearOf(y + 1, days - YearLength(y))
  }

  /** Month and 1-based day of the 0-based day `doy` of year `y`, looking
      from month `m` on. */
  function MonthOf(y: int, m: int, doy: int): (r: (int, int))
    requires 1 <= m <= 12 && MonthStart(y, m) <= doy < YearLength(y)
    ensures m <= r.0 <= 12 && 1 <= r.1 <= MonthLength(y, r.0)
    ensures MonthStart(y, r.0) + r.1 - 1 == doy
    decreases 12 - m
  {
    MonthsFillYear(y);
    if doy < MonthStart(y, m + 1) || m == 12 then (m, doy - MonthStart(y, m) + 1)
    else MonthOf(y, m + 1, doy)
  }

  /** A calendar date. */
  datatype Date = Date(year: int, month: int, day: int)

  predicate ValidDate(d: Date) {
    1 <= d.month <= 12 && 1 <= d.day <= MonthLength(d.year, d.month)
  }

  /** The day number of a valid date. */
  function DayNumber(d: Date): int
    requires ValidDate(d)
  {
    YearStart(d.year) + MonthStart(d.year, d.month) + d.day - 1
  }

  /** The calendar date of day number `n`. */
  function DateOf(n: int): (d: Date)
    ensures ValidDate(d)
    ensures DayNumber(d) == n
  {
    var (y, doy) := YearOf(1970, n);
    var (m, day) := MonthOf(y, 1, doy);
    Date(y, m, day)
  }

  lemma {:induction false} YearStartMono(a: int, b: int)
    requires a < b
    ensures YearStart(a) + 365 <= YearStart(b)
    decreases b - a
  {
    if a + 1 < b {
      YearStartMono(a + 1, b);
      YearStartStep(a);
    } else {
      YearStartStep(a);
    }
  }

  lemma YearStartStep(y: int)
    ensures YearStart(y + 1) == YearStart(y) + YearLength(y)
  {
  }

  /** Dates are numbered without gaps or repeats: two valid dates share a
      day number only when they are the same date. */
  lemma DayNumberInjective(d: Date, e: Date)
    requires ValidDate(d) && ValidDate(e) && DayNumber(d) == DayNumber(e)
    ensures d == e
  {
    MonthStartBounds(d.year, d.month);
    MonthStartBounds(e.year, e.month);
    if d.year < e.year {
      YearStartMono(d.year, e.year);
      YearLengthAtLeast(d.year, e.year);
    } else if e.year < d.year {
      YearStartMono(e.year, d.year);
      YearLengthAtLeast(e.year, d.year);
    }
    assert d.year == e.year;
    MonthStartOrder(d.year, d.month, e.month);
    MonthStartOrder(d.year, e.month, d.month);
  }

  /** The days of a year all come before the next year starts. */
  lemma YearLengthAtLeast(a: int, b: int)
    requires a < b
    ensures YearStart(a) + YearLength(a) <= YearStart(b)
  {
    YearStartStep(a);
    if a + 1 < b {
      YearStartMono(a + 1, b);
    }
  }

  lemma MonthStartBounds(y: int, m: int)
    requires 1 <= m <= 12
    ensures MonthStart(y, m) + MonthLength(y, m) <= YearLength(y)
  {
    MonthsFillYear(y);
    MonthStartRises(y, m + 1, 13);
  }

  lemma {:induction false} MonthStartRises(y: int, a: int, b: int)
    requires 1 <= a <= b <= 13
    ensures MonthStart(y, a) <= MonthStart(y, b)
    decreases b - a
  {
    if a < b {
      MonthStartRises(y, a, b - 1);
    }
  }

  /** A later month starts after the earlier one has ended. */
  lemma MonthStartOrder(y: int, a: int, b: int)
    requires 1 <= a <= 12 && 1 <= b <= 12
    ensures a < b ==> MonthStart(y, a) + MonthLength(y, a) <= MonthStart(y, b)
  {
    if a < b {
      MonthStartRises(y, a + 1, b);
    }
  }

  /** Reading a day number back from its date gives the date. */
  lemma DateRoundTrip(d: Date)
    requires ValidDate(d)
    ensures DateOf(DayNumber(d)) == d
  {
    DayNumberInjective(DateOf(DayNumber(d)), d);
  }

  // ---------------------------------------------------------------------
  // Time stamps
  // ---------------------------------------------------------------------

  /** The stamps a pandas datetime64[ns] index can hold, about 1677-09-21
      to 2262-04-11, in microseconds. */
  predicate Representable(ts: int) {
    -9_223_372_036_854_775 <= ts <= 9_223_372_036_854_775
  }

  /** A time stamp split into its printed fields. */
  datatype Moment = Moment(date: Date, hour: int, minute: int, second: int, micro: int)

  function MomentOf(ts: int): (t: Moment)
    ensures ValidDate(t.date)
    ensures 0 <= t.hour < 24 && 0 <= t.minute < 60 && 0 <= t.second < 60
    ensures 0 <= t.micro < MicrosPerSecond
    ensures DayNumber(t.date) * MicrosPerDay
      + ((t.hour * 60 + t.minute) * 60 + t.second) * MicrosPerSecond + t.micro == ts
  {
    var days := ts / MicrosPerDay;
    var rest := ts % MicrosPerDay;
    assert days * MicrosPerDay + rest == ts;
    var secs := rest / MicrosPerSecond;
    var micro := rest % MicrosPerSecond;
    assert secs * MicrosPerSecond + micro == rest;
    var inHour := secs % 3600;
    assert secs / 3600 * 3600 + inHour == secs;
    assert inHour / 60 * 60 + inHour % 60 == inHour;
    Moment(DateOf(days), secs / 3600, inHour / 60, inHour % 60, micro)
  }

  lemma {:induction false} YearStartBelow(y: int)
    requires y <= 1970
    ensures YearStart(y) <= (y - 1970) * 365
    decreases 1970 - y
  {
    if y < 1970 {
      YearStartBelow(y + 1);
    }
  }

  lemma {:induction false} YearStartAbove(y: int)
    requires y >= 1970
    ensures YearStart(y) >= (y - 1970) * 365
    decreases y - 1970
  {
    if y > 1970 {
      YearStartAbove(y - 1);
    }
  }

  /** Every representable stamp falls in a four-digit year. */
  lemma RepresentableYears(ts: int)
    requires Representable(ts)
    ensures 1000 <= MomentOf(ts).date.year <= 9999
  {
    var d := MomentOf(ts).date;
    var n := ts / MicrosPerDay;
    assert -106_752 <= n <= 106_751;
    assert YearStart(d.year) <= n < YearStart(d.year) + 366 by {
      MonthStartBounds(d.year, d.month);
    }
    if d.year <= 1970 {
      YearStartBelow(d.year);
    } else {
      YearStartAbove(d.year);
    }
  }

  function Two(n: nat): (r: string)
    requires n < 100
    ensures |r| == 2 && AllDigits(r) && DigitsValue(r) == n
  {
    DecimalFits(n, 2);
    ZeroPadded(n, 2)
  }

  /** `YYYY-MM-DD` */
  function DateText(year: string, month: string, day: string): (s: string)
    requires |year| == 4 && |month| == |day| == 2
    ensures |s| == 10
    ensures s[4] == '-' && s[7] == '-'
    ensures s[..4] == year && s[5..7] == month && s[8..10] == day
  {
    year + "-" + month + "-" + day
  }

  /** `HH:MM:SS` */
  function ClockText(hour: string, minute: string, second: string): (s: string)
    requires |hour| == |minute| == |second| == 2
    ensures |s| == 8
    ensures s[2] == ':' && s[5] == ':'
    ensures s[..2] == hour && s[3..5] == minute && s[6..8] == second
  {
    hour + ":" + minute + ":" + second
  }

  /** Lays out the whole-second fields as `YYYY-MM-DD HH:MM:SS`. */
  function Layout(year: string, month: string, day: string, hour: string, minute: string, second: string)
    : (s: string)
    requires |year| == 4 && |month| == |day| == |hour| == |minute| == |second| == 2
    ensures |s| == 19
    ensures s[4] == '-' && s[7] == '-' && s[10] == ' ' && s[13] == ':' && s[16] == ':'
    ensures s[..4] == year && s[5..7] == month && s[8..10] == day
    ensures s[11..13] == hour && s[14..16] == minute && s[17..19] == second
  {
    var d := DateText(year, month, day);
    var c := ClockText(hour, minute, second);
    var s := d + " " + c;
    assert s[..10] == d && s[11..] == c;
    assert s[..4] == d[..4] && s[5..7] == d[5..7] && s[8..10] == d[8..10];
    assert s[11..13] == c[..2] && s[14..16] == c[3..5] && s[17..19] == c[6..8];
    s
  }

  function Year(y: int): (r: string)
    requires 1000 <= y <= 9999
    ensures |r| == 4 && AllDigits(r) && DigitsValue(r) == y
  {
    assert Pow10(4) == 10_000 by {
      assert Pow10(2) == 100;
    }
    DecimalFits(y, 4);
    ZeroPadded(y, 4)
  }

  function Micros(n: nat): (r: string)
    requires n < MicrosPerSecond
    ensures |r| == 6 && AllDigits(r) && DigitsValue(r) == n
  {
    assert Pow10(6) == 1_000_000 by {
      assert Pow10(3) == 1000;
    }
    DecimalFits(n, 6);
    ZeroPadded(n, 6)
  }

  /** The text of the whole-second part of a stamp. */
  function WholeText(ts: int): (s: string)
    requires Representable(ts)
    ensures |s| == 19
    ensures s[4] == '-' && s[7] == '-' && s[10] == ' ' && s[13] == ':' && s[16] == ':'
    ensures AllDigits(s[..4]) && DigitsValue(s[..4]) == MomentOf(ts).date.year
    ensures AllDigits(s[5..7]) && DigitsValue(s[5..7]) == MomentOf(ts).date.month
    ensures AllDigits(s[8..10]) && DigitsValue(s[8..10]) == MomentOf(ts).date.day
    ensures AllDigits(s[11..13]) && DigitsValue(s[11..13]) == MomentOf(ts).hour
    ensures AllDigits(s[14..16]) && DigitsValue(s[14..16]) == MomentOf(ts).minute
    ensures AllDigits(s[17..19]) && DigitsValue(s[17..19]) == MomentOf(ts).second
  {
    var t := MomentOf(ts);
    RepresentableYears(ts);
    assert t.date.day <= 31;
    var year := Year(t.date.year);
    var month := Two(t.date.month);
    var day := Two(t.date.day);
    var hour := Two(t.hour);
    var minute := Two(t.minute);
    var second := Two(t.second);
    Layout(year, month, day, hour, minute, second)
  }

  /** The whole-second text, then `.ffffff` when `micro` is not zero. */
  function WithFraction(whole: string, micro: nat): (s: string)
    requires |whole| == 19 && micro < MicrosPerSecond
    ensures |s| == if micro == 0 then 19 else 26
    ensures s[..19] == whole
    ensures |s| == 26 ==> s[19] == '.' && AllDigits(s[20..]) && DigitsValue(s[20..]) == micro
  {
    if micro == 0 then
      assert whole[..19] == whole;
      whole
    else
      var f := Micros(micro);
      var s := whole + "." + f;
      assert s[..19] == whole && s[20..] == f;
      s
  }

  /** `str(Timestamp)`: `YYYY-MM-DD HH:MM:SS`, then `.ffffff` when the
      microsecond part is not zero. */
  function TimestampText(ts: int): (s: string)
    requires Representable(ts)
    ensures |s| == if MomentOf(ts).micro == 0 then 19 else 26
    ensures s[..19] == WholeText(ts)
    ensures |s| == 26 ==> s[19] == '.' && AllDigits(s[20..]) && DigitsValue(s[20..]) == MomentOf(ts).micro
  {
    WithFraction(WholeText(ts), MomentOf(ts).micro)
  }

  // ---------------------------------------------------------------------
  // Dropping the sub-second part
  // ---------------------------------------------------------------------

  /** `re.sub(r'\.\d+$', '', s)` can match at position `p`: a '.' there,
      followed by one or more digits up to the end. */
  predicate FractionAt(s: string, p: int) {
    0 <= p < |s| - 1 && s[p] == '.' && AllDigits(s[p + 1..])
  }

  /** Length of the run of digits that ends the text. */
  function TrailingDigits(s: string): (k: nat)
    ensures k <= |s|
    ensures forall i :: |s| - k <= i < |s| ==> IsDigit(s[i])
    ensures k < |s| ==> !IsDigit(s[|s| - k - 1])
  {
    if |s| == 0 || !IsDigit(s[|s| - 1]) then 0
    else
      var t := s[..|s| - 1];
      var k := TrailingDigits(t);
      assert forall i :: 0 <= i < |t| ==> t[i] == s[i];
      k + 1
  }

  /** A run of digits up to the end is part of the trailing run. */
  lemma {:induction false} TrailingAtLeast(s: string, j: int)
    ensures 0 <= j <= |s| && AllDigits(s[j..]) ==> TrailingDigits(s) >= |s| - j
    decreases |s|
  {
    if 0 <= j < |s| && AllDigits(s[j..]) {
      assert s[j..][|s| - 1 - j] == s[|s| - 1];
      assert s[..|s| - 1][j..] == s[j..][..|s| - 1 - j];
      TrailingAtLeast(s[..|s| - 1], j);
    }
  }

  /** The trailing run stops at any character that is not a digit. */
  lemma {:induction false} TrailingStops(s: string, p: int)
    ensures 0 <= p < |s| && !IsDigit(s[p]) ==> TrailingDigits(s) <= |s| - p - 1
    decreases |s|
  {
    if 0 <= p < |s| - 1 && !IsDigit(s[p]) {
      assert s[..|s| - 1][p] == s[p];
      TrailingStops(s[..|s| - 1], p);
    }
  }

  /** A match of the fraction pattern can only start right before the
      trailing digits, so there is at most one. */
  lemma FractionPosition(s: string, p: int)
    ensures FractionAt(s, p) ==> p == |s| - TrailingDigits(s) - 1
  {
    TrailingAtLeast(s, p + 1);
    TrailingStops(s, p);
  }

  /** The regex substitution the aggregation summary uses: removes a final
      `.digits`, and leaves any other text alone. Python's `$` would also
      match before a final line break, which a stamp's text never holds. */
  function StripFraction(s: string): (r: string)
    ensures r <= s
    ensures r != s <==> exists p :: FractionAt(s, p)
    ensures r != s ==> FractionAt(s, |r|)
  {
    var k := TrailingDigits(s);
    if 1 <= k < |s| && s[|s| - k - 1] == '.' then
      assert AllDigits(s[|s| - k..]);
      assert s[|s| - k..] == s[|s| - k - 1 + 1..];
      assert FractionAt(s, |s| - k - 1);
      s[..|s| - k - 1]
    else
      forall p ensures !FractionAt(s, p) {
        FractionPosition(s, p);
      }
      s
  }

  /** `s[:-n]` for a positive `n`. */
  function DropLast(s: string, n: nat): (r: string)
    ensures r <= s
    ensures |r| == if |s| >= n then |s| - n else 0
  {
    if |s| >= n then s[..|s| - n] else []
  }

  /** Removing the fraction from a stamp's text leaves its whole-second
      text, whether or not it had a fraction. */
  lemma StripFractionOfStamp(ts: int)
    requires Representable(ts)
    ensures StripFraction(TimestampText(ts)) == WholeText(ts)
  {
    var s := TimestampText(ts);
    var r := StripFraction(s);
    if |s| == 19 {
      forall p | 0 <= p < 19
        ensures s[p] != '.'
      {
        StampSeparators(ts, p);
      }
    } else {
      assert FractionAt(s, 19);
      FractionPosition(s, 19);
      FractionPosition(s, |r|);
    }
  }

  /** No '.' occurs in the whole-second text. */
  lemma StampSeparators(ts: int, p: int)
    requires Representable(ts) && 0 <= p < 19
    ensures WholeText(ts)[p] != '.'
  {
    LayoutHasNoDot(WholeText(ts), p);
  }

  /** Digits and the separators `-`, ` ` and `:` leave no room for a '.'. */
  lemma LayoutHasNoDot(s: string, p: int)
    requires |s| == 19 && 0 <= p < 19
    requires s[4] == '-' && s[7] == '-' && s[10] == ' ' && s[13] == ':' && s[16] == ':'
    requires AllDigits(s[..4]) && AllDigits(s[5..7]) && AllDigits(s[8..10])
    requires AllDigits(s[11..13]) && AllDigits(s[14..16]) && AllDigits(s[17..19])
    ensures s[p] != '.'
  {
    if p < 4 {
      assert s[..4][p] == s[p];
    } else if 5 <= p < 7 {
      assert s[5..7][p - 5] == s[p];
    } else if 8 <= p < 10 {
      assert s[8..10][p - 8] == s[p];
    } else if 11 <= p < 13 {
      assert s[11..13][p - 11] == s[p];
    } else if 14 <= p < 16 {
      assert s[14..16][p - 14] == s[p];
    } else if 17 <= p {
      assert s[17..19][p - 17] == s[p];
    }
  }

  /** The start/end stamp of the load summary as the source writes it,
      `str(ts)[:-7]`: the last seven characters of the text are cut off,
      which assumes a `.ffffff` part is always present. */
  function CutStamp(ts: int): (s: string)
    requires Representable(ts)
    ensures s <= TimestampText(ts)
    ensures |s| == |TimestampText(ts)| - 7
  {
    DropLast(TimestampText(ts), 7)
  }

  /** The cut is right only for stamps with a fraction. Without one it
      also takes the minutes, the seconds and the last digit of the hour:
      `2023-08-01 12:34:56` becomes `2023-08-01 1`. */
  lemma SevenCharacterCut(ts: int)
    requires Representable(ts)
    ensures MomentOf(ts).micro != 0 ==> CutStamp(ts) == WholeText(ts)
    ensures MomentOf(ts).micro == 0 ==>
      && CutStamp(ts) == WholeText(ts)[..12]
      && CutStamp(ts) != WholeText(ts)
  {
  }

  /** The start/end text of the load summary with the fraction removed
      the way the aggregation summary removes it: always the whole-second
      text. */
  function SummaryStamp(ts: int): (s: string)
    requires Representable(ts)
    ensures s == WholeText(ts)
    ensures |s| == 19
  {
    StripFractionOfStamp(ts);
    StripFraction(TimestampText(ts))
  }
}
