/** The averaging intervals offered to the user and what they do to the
    merged series: `resample(rule).sum()` into fixed buckets aligned to
    midnight, followed by the `[from:to]` calendar-date slice. */
module Resample {
  import opened Series
  import opened Text
  import opened Arith

  // ---------------------------------------------------------------------
  // The MEAN_TIMES table
  // ---------------------------------------------------------------------

  /** What an interval does: keep the series, or sum it into buckets of
      `seconds` seconds. */
  datatype Rule = Org | Every(seconds: nat)

  /** The menu entries and the pandas rule each one selects, in menu order. */
  const MeanTimes: seq<(string, string)> := [
    ("生データ", "org"),
    ("10秒平均", "10S"),
    ("15秒平均", "15S"),
    ("30秒平均", "30S"),
    ("1分平均", "1T"),
    ("2分平均", "2T"),
    ("5分平均", "5T"),
    ("10分平均", "10T"),
    ("15分平均", "15T"),
    ("30分平均", "30T"),
    ("1時間平均", "1H"),
    ("3時間平均", "3H"),
    ("6時間平均", "6H"),
    ("12時間平均", "12H"),
    ("1日平均", "1D")
  ]

  /** Seconds in one unit of a pandas offset alias letter. */
  function UnitSeconds(c: char): Option<nat> {
    match c
    case 'S' => Some(1)
    case 'T' => Some(60)
    case 'H' => Some(3600)
    case 'D' => Some(SecondsPerDay)
    case _ => None
  }

  /** A count of decimal digits followed by one unit letter. */
  predicate CountAndUnit(code: string) {
    |code| >= 2 && AllDigits(code[..|code| - 1]) && UnitSeconds(code[|code| - 1]).Some?
  }

  /** Reads a rule code: "org", or a count followed by one unit letter,
      which selects buckets of the count times the unit's seconds. */
  function ParseRule(code: string): (r: Option<Rule>)
    ensures r == Some(Org) <==> code == "org"
    ensures r.Some? <==> code == "org" || CountAndUnit(code)
    ensures r.Some? && r.value.Every? ==>
      && CountAndUnit(code)
      && r.value.seconds == DigitsValue(code[..|code| - 1]) * UnitSeconds(code[|code| - 1]).value
  {
    if code == "org" then Some(Org)
    else if |code| >= 2 && AllDigits(code[..|code| - 1]) then
      match UnitSeconds(code[|code| - 1])
      case None => None
      case Some(u) => Some(Every(DigitsValue(code[..|code| - 1]) * u))
    else None
  }

  /** The rule selected by a menu entry. */
  function RuleOf(entry: string): Option<Rule> {
    LookUp(MeanTimes, entry)
  }

  function LookUp(table: seq<(string, string)>, entry: string): Option<Rule> {
    if |table| == 0 then None
    else if table[0].0 == entry then ParseRule(table[0].1)
    else LookUp(table[1..], entry)
  }

  /** A bucket width that splits every day into whole buckets, so that
      buckets counted from the epoch line up with buckets counted from each
      day's midnight, where pandas starts them. */
  predicate DividesDay(seconds: nat) {
    seconds > 0 && SecondsPerDay % seconds == 0
  }

  /** A code that names a rule whose bucket width, if any, divides a day. */
  predicate ValidCode(code: string) {
    match ParseRule(code)
    case None => false
    case Some(Org) => true
    case Some(Every(s)) => DividesDay(s)
  }

  lemma OneDigit(a: char)
    requires IsDigit(a)
    ensures DigitsValue([a]) == a as int - '0' as int
  {
    assert [a][..0] == [];
  }

  lemma TwoDigits(a: char, b: char)
    requires IsDigit(a) && IsDigit(b)
    ensures DigitsValue([a, b]) == 10 * (a as int - '0' as int) + (b as int - '0' as int)
  {
    assert [a, b][..1] == [a];
    OneDigit(a);
  }

  /** A count followed by a unit letter reads as the count times the unit. */
  lemma CountThenUnit(n: string, u: char)
    requires |n| >= 1 && AllDigits(n) && UnitSeconds(u).Some?
    ensures ParseRule(n + [u]) == Some(Every(DigitsValue(n) * UnitSeconds(u).value))
  {
    assert (n + [u])[..|n|] == n;
    assert (n + [u])[0] != "org"[0];
  }


  /** A code with a known count and unit names that many seconds. */
  lemma CodeIs(n: string, u: char, count: nat, seconds: nat)
    requires |n| >= 1 && AllDigits(n) && DigitsValue(n) == count && UnitSeconds(u) == Some(seconds)
    ensures ParseRule(n + [u]) == Some(Every(count * seconds))
  {
    CountThenUnit(n, u);
  }

  lemma SecondCodes()
    ensures ParseRule("10S") == Some(Every(10))
    ensures ParseRule("15S") == Some(Every(15))
    ensures ParseRule("30S") == Some(Every(30))
  {
    TwoDigits('1', '0'); TwoDigits('1', '5'); TwoDigits('3', '0');
    CodeIs("10", 'S', 10, 1); assert "10S" == "10" + ['S'];
    CodeIs("15", 'S', 15, 1); assert "15S" == "15" + ['S'];
    CodeIs("30", 'S', 30, 1); assert "30S" == "30" + ['S'];
  }

  lemma MinuteCodes()
    ensures ParseRule("1T") == Some(Every(60))
    ensures ParseRule("2T") == Some(Every(120))
    ensures ParseRule("5T") == Some(Every(300))
    ensures ParseRule("10T") == Some(Every(600))
    ensures ParseRule("15T") == Some(Every(900))
    ensures ParseRule("30T") == Some(Every(1800))
  {
    OneDigit('1'); OneDigit('2'); OneDigit('5');
    TwoDigits('1', '0'); TwoDigits('1', '5'); TwoDigits('3', '0');
    CodeIs("1", 'T', 1, 60); assert "1T" == "1" + ['T'];
    CodeIs("2", 'T', 2, 60); assert "2T" == "2" + ['T'];
    CodeIs("5", 'T', 5, 60); assert "5T" == "5" + ['T'];
    CodeIs("10", 'T', 10, 60); assert "10T" == "10" + ['T'];
    CodeIs("15", 'T', 15, 60); assert "15T" == "15" + ['T'];
    CodeIs("30", 'T', 30, 60); assert "30T" == "30" + ['T'];
  }

  lemma HourAndDayCodes()
    ensures ParseRule("1H") == Some(Every(3600))
    ensures ParseRule("3H") == Some(Every(10800))
    ensures ParseRule("6H") == Some(Every(21600))
    ensures ParseRule("12H") == Some(Every(43200))
    ensures ParseRule("1D") == Some(Every(86400))
  {
    OneDigit('1'); OneDigit('3'); OneDigit('6');
    TwoDigits('1', '2');
    CodeIs("1", 'H', 1, 3600); assert "1H" == "1" + ['H'];
    CodeIs("3", 'H', 3, 3600); assert "3H" == "3" + ['H'];
    CodeIs("6", 'H', 6, 3600); assert "6H" == "6" + ['H'];
    CodeIs("12", 'H', 12, 3600); assert "12H" == "12" + ['H'];
    CodeIs("1", 'D', 1, SecondsPerDay); assert "1D" == "1" + ['D'];
  }

  /** The rule each menu entry's label names, in menu order: the raw
      series, then buckets of 10, 15 and 30 seconds, of 1, 2, 5, 10, 15
      and 30 minutes, of 1, 3, 6 and 12 hours, and of 1 day. */
  const MenuRules: seq<Rule> := [
    Org, Every(10), Every(15), Every(30),
    Every(60), Every(120), Every(300), Every(600), Every(900), Every(1800),
    Every(3600), Every(10800), Every(21600), Every(43200), Every(86400)
  ]

  /** Every code of the table selects the rule its label names, and every
      bucket width divides a day. */
  lemma MeanTimesAreValid()
    ensures |MenuRules| == |MeanTimes|
    ensures forall k :: 0 <= k < |MeanTimes| ==> ParseRule(MeanTimes[k].1) == Some(MenuRules[k])
    ensures forall k :: 0 <= k < |MenuRules| && MenuRules[k].Every? ==> DividesDay(MenuRules[k].seconds)
    ensures forall k :: 0 <= k < |MeanTimes| ==> ValidCode(MeanTimes[k].1)
  {
    SecondCodes();
    MinuteCodes();
    HourAndDayCodes();
    assert ParseRule(MeanTimes[0].1) == Some(Org);
    MenuWidthsDivideDay();
    forall k | 0 <= k < |MeanTimes| ensures ValidCode(MeanTimes[k].1) {
      assert ParseRule(MeanTimes[k].1) == Some(MenuRules[k]);
    }
  }

  lemma MenuWidthsDivideDay()
    ensures forall k :: 0 <= k < |MenuRules| && MenuRules[k].Every? ==> DividesDay(MenuRules[k].seconds)
  {
  }

  /** A table lookup finds the code of the first entry with that name. */
  lemma {:induction false} LookUpFinds(table: seq<(string, string)>, entry: string)
    ensures LookUp(table, entry).Some? ==>
      exists k :: 0 <= k < |table| && table[k].0 == entry && ParseRule(table[k].1) == LookUp(table, entry)
    ensures (forall k :: 0 <= k < |table| ==> ValidCode(table[k].1)) ==>
      (LookUp(table, entry).Some? <==> exists k :: 0 <= k < |table| && table[k].0 == entry)
    decreases |table|
  {
    if |table| > 0 && table[0].0 != entry {
      var rest := table[1..];
      LookUpFinds(rest, entry);
      assert forall k :: 1 <= k < |table| ==> table[k] == rest[k - 1];
      if (exists k :: 0 <= k < |table| && table[k].0 == entry) {
        var k :| 0 <= k < |table| && table[k].0 == entry;
        assert rest[k - 1].0 == entry;
      }
    }
  }

  /** `MEAN_TIMES[entry]`: exactly the menu's entries select a rule, and a
      selected bucket width always divides a day. */
  lemma RuleOfMenu(entry: string)
    ensures RuleOf(entry).Some? <==> exists k :: 0 <= k < |MeanTimes| && MeanTimes[k].0 == entry
    ensures RuleOf(entry).Some? ==>
      exists k :: 0 <= k < |MeanTimes| && MeanTimes[k].0 == entry && RuleOf(entry) == Some(MenuRules[k])
    ensures RuleOf(entry).Some? && RuleOf(entry).value.Every? ==> DividesDay(RuleOf(entry).value.seconds)
  {
    MeanTimesAreValid();
    LookUpFinds(MeanTimes, entry);
    if RuleOf(entry).Some? {
      var k :| 0 <= k < |MeanTimes| && MeanTimes[k].0 == entry && ParseRule(MeanTimes[k].1) == RuleOf(entry);
      assert RuleOf(entry) == Some(MenuRules[k]);
    }
  }

  // ---------------------------------------------------------------------
  // Buckets
  // ---------------------------------------------------------------------

  /** The label of the bucket of width `w` holding time `t`: `t` rounded
      down to a multiple of `w`. */
  function BucketOf(t: int, w: nat): (b: int)
    requires w > 0
    ensures b <= t < b + w
    ensures b % w == 0
  {
    Floor(t, w);
    MulDiv(t / w, w);
    (t / w) * w
  }

  /** The summed columns; an undefined delta counts as zero, as `sum`
      skips NaN. */
  datatype Column = Recv | Send | Delta

  function Value(r: Row, c: Column): nat {
    match c
    case Recv => r.recv
    case Send => r.send
    case Delta => DeltaOrZero(r.delta)
  }

  /** Sum of column `c` over the rows whose time lies in `[lo, hi)`. */
  function WindowSum(rows: seq<Row>, lo: int, hi: int, c: Column): nat {
    if |rows| == 0 then 0
    else
      var last := rows[|rows| - 1];
      WindowSum(rows[..|rows| - 1], lo, hi, c) + (if lo <= last.ts < hi then Value(last, c) else 0)
  }

  /** Sum of column `c` over all rows. */
  function Total(rows: seq<Row>, c: Column): nat {
    if |rows| == 0 then 0 else Total(rows[..|rows| - 1], c) + Value(rows[|rows| - 1], c)
  }

  /** The bucket starting at `start`: the sums of its rows. */
  function Bucket(rows: seq<Row>, start: int, w: nat): Row {
    Row(start, WindowSum(rows, start, start + w, Recv), WindowSum(rows, start, start + w, Send),
        Some(WindowSum(rows, start, start + w, Delta)))
  }

  /** The `n` buckets that start at `k0 * w`, `(k0 + 1) * w`, ... */
  function Buckets(rows: seq<Row>, k0: int, n: nat, w: nat): (out: seq<Row>)
    ensures |out| == n
    ensures forall i :: 0 <= i < n ==> out[i] == Bucket(rows, (k0 + i) * w, w)
  {
    seq(n, i requires 0 <= i < n => Bucket(rows, (k0 + i) * w, w))
  }

  /** Bucket labels are multiples of `w`, each `w` after the previous. */
  lemma BucketsAligned(rows: seq<Row>, k0: int, n: nat, w: nat)
    requires w > 0
    ensures forall i :: 0 <= i < n ==> Buckets(rows, k0, n, w)[i].ts % w == 0
    ensures forall i :: 0 < i < n ==> Buckets(rows, k0, n, w)[i].ts == Buckets(rows, k0, n, w)[i - 1].ts + w
  {
    var out := Buckets(rows, k0, n, w);
    forall i | 0 <= i < n
      ensures out[i].ts % w == 0
    {
      assert out[i].ts == (k0 + i) * w;
      MulDiv(k0 + i, w);
    }
    forall i | 0 < i < n
      ensures out[i].ts == out[i - 1].ts + w
    {
      MulNext(k0 + i - 1, w);
    }
  }

  /** `resample(rule).sum()` for a width of `w` microseconds: one row per
      bucket from the first sample's bucket to the last sample's, empty
      buckets included with zero sums. */
  function Resample(rows: seq<Row>, w: nat): (out: seq<Row>)
    requires w > 0 && Sorted(rows)
    ensures |rows| == 0 <==> |out| == 0
    ensures |rows| > 0 ==>
      && |out| == rows[|rows| - 1].ts / w - rows[0].ts / w + 1
      && out[0].ts == BucketOf(rows[0].ts, w)
      && out[|out| - 1].ts == BucketOf(rows[|rows| - 1].ts, w)
      && (forall i :: 0 <= i < |out| ==> out[i].ts == (rows[0].ts / w + i) * w)
    ensures forall i :: 0 <= i < |out| ==> out[i].ts % w == 0
    ensures forall i :: 0 < i < |out| ==> out[i].ts == out[i - 1].ts + w
    ensures forall i :: 0 <= i < |out| ==>
      && out[i].recv == WindowSum(rows, out[i].ts, out[i].ts + w, Recv)
      && out[i].send == WindowSum(rows, out[i].ts, out[i].ts + w, Send)
      && out[i].delta == Some(WindowSum(rows, out[i].ts, out[i].ts + w, Delta))
  {
    if |rows| == 0 then []
    else
      var k0 := rows[0].ts / w;
      var k1 := rows[|rows| - 1].ts / w;
      FloorMono(rows[0].ts, rows[|rows| - 1].ts, w);
      var out := Buckets(rows, k0, k1 - k0 + 1, w);
      BucketsAligned(rows, k0, k1 - k0 + 1, w);
      out
  }

  // ---------------------------------------------------------------------
  // Bucket properties
  // ---------------------------------------------------------------------

  /** The buckets tile the whole span: every multiple of `w` from the first
      sample's bucket to the last sample's is a label, and every sample
      falls in a bucket. */
  lemma ResampleCovers(rows: seq<Row>, w: nat)
    requires w > 0 && Sorted(rows) && |rows| > 0
    ensures var out := Resample(rows, w);
      forall m :: BucketOf(rows[0].ts, w) <= m <= BucketOf(rows[|rows| - 1].ts, w) && m % w == 0 ==>
        exists i :: 0 <= i < |out| && out[i].ts == m
    ensures var out := Resample(rows, w);
      forall j :: 0 <= j < |rows| ==>
        exists i :: 0 <= i < |out| && out[i].ts <= rows[j].ts < out[i].ts + w
  {
    var out := Resample(rows, w);
    var k0 := rows[0].ts / w;
    var k1 := rows[|rows| - 1].ts / w;
    forall m | BucketOf(rows[0].ts, w) <= m <= BucketOf(rows[|rows| - 1].ts, w) && m % w == 0
      ensures exists i :: 0 <= i < |out| && out[i].ts == m
    {
      FloorMono(k0 * w, m, w);
      FloorMono(m, k1 * w, w);
      MulDiv(k0, w);
      MulDiv(k1, w);
      Multiple(m, w);
      var i := m / w - k0;
      assert out[i].ts == m;
    }
    forall j | 0 <= j < |rows|
      ensures exists i :: 0 <= i < |out| && out[i].ts <= rows[j].ts < out[i].ts + w
    {
      assert rows[0].ts <= rows[j].ts <= rows[|rows| - 1].ts;
      FloorMono(rows[0].ts, rows[j].ts, w);
      FloorMono(rows[j].ts, rows[|rows| - 1].ts, w);
      Floor(rows[j].ts, w);
      var i := rows[j].ts / w - k0;
      assert out[i].ts == (rows[j].ts / w) * w;
    }
  }

  /** Sums over adjacent windows add up. */
  lemma {:induction false} WindowSplit(rows: seq<Row>, a: int, b: int, d: int, c: Column)
    requires a <= b <= d
    ensures WindowSum(rows, a, b, c) + WindowSum(rows, b, d, c) == WindowSum(rows, a, d, c)
    decreases |rows|
  {
    if |rows| > 0 {
      WindowSplit(rows[..|rows| - 1], a, b, d, c);
    }
  }

  /** A window that holds every row sums the whole column. */
  lemma {:induction false} WindowAll(rows: seq<Row>, a: int, d: int, c: Column)
    requires forall j :: 0 <= j < |rows| ==> a <= rows[j].ts < d
    ensures WindowSum(rows, a, d, c) == Total(rows, c)
    decreases |rows|
  {
    if |rows| > 0 {
      WindowAll(rows[..|rows| - 1], a, d, c);
    }
  }

  /** The first `k` buckets together hold the sum of the first `k` windows. */
  lemma {:induction false} BucketPrefix(rows: seq<Row>, k0: int, n: nat, w: nat, k: nat, c: Column)
    requires w > 0 && k <= n
    ensures Total(Buckets(rows, k0, n, w)[..k], c) == WindowSum(rows, k0 * w, (k0 + k) * w, c)
    decreases k
  {
    var out := Buckets(rows, k0, n, w);
    if k > 0 {
      BucketPrefix(rows, k0, n, w, k - 1, c);
      assert out[..k][..k - 1] == out[..k - 1];
      var lo := (k0 + k - 1) * w;
      MulNext(k0 + k - 1, w);
      MulLe(k0, k0 + k - 1, w);
      WindowSplit(rows, k0 * w, lo, lo + w, c);
      assert out[k - 1] == Bucket(rows, lo, w);
      assert Value(out[k - 1], c) == WindowSum(rows, lo, lo + w, c);
    } else {
      assert out[..0] == [];
      assert (k0 + 0) * w == k0 * w;
      WindowSplit(rows, k0 * w, k0 * w, k0 * w, c);
    }
  }

  /** Resampling moves sums between rows but never creates or loses any:
      the column totals of the buckets equal those of the input, with an
      undefined delta counted as zero. */
  lemma ResampleConserves(rows: seq<Row>, w: nat, c: Column)
    requires w > 0 && Sorted(rows)
    ensures Total(Resample(rows, w), c) == Total(rows, c)
  {
    var out := Resample(rows, w);
    if |rows| > 0 {
      var k0 := rows[0].ts / w;
      var k1 := rows[|rows| - 1].ts / w;
      var n := |out|;
      assert out == Buckets(rows, k0, n, w);
      BucketPrefix(rows, k0, n, w, n, c);
      assert out[..n] == out;
      Floor(rows[0].ts, w);
      Floor(rows[|rows| - 1].ts, w);
      MulNext(k1, w);
      assert k0 + n == k1 + 1;
      forall j | 0 <= j < |rows|
        ensures k0 * w <= rows[j].ts < (k0 + n) * w
      {
        assert rows[0].ts <= rows[j].ts <= rows[|rows| - 1].ts;
      }
      WindowAll(rows, k0 * w, (k0 + n) * w, c);
    }
  }

  /** The buckets come out in strictly increasing label order. */
  lemma ResampleSorted(rows: seq<Row>, w: nat)
    requires w > 0 && Sorted(rows)
    ensures forall i, j :: 0 <= i < j < |Resample(rows, w)| ==> Resample(rows, w)[i].ts < Resample(rows, w)[j].ts
  {
    var out := Resample(rows, w);
    if |rows| > 0 {
      var k0 := rows[0].ts / w;
      forall i, j | 0 <= i < j < |out|
        ensures out[i].ts < out[j].ts
      {
        MulLe(k0 + i + 1, k0 + j, w);
        MulNext(k0 + i, w);
      }
    }
  }

  /** A width that divides a day in seconds divides it in microseconds. */
  lemma WidthDividesDay(seconds: nat)
    requires DividesDay(seconds)
    ensures MicrosPerDay % (seconds * MicrosPerSecond) == 0
  {
    var c := SecondsPerDay / seconds;
    assert SecondsPerDay == c * seconds;
    assert MicrosPerDay == c * (seconds * MicrosPerSecond);
    MulDiv(c, seconds * MicrosPerSecond);
  }

  /** With a width that divides a day, a bucket never straddles midnight:
      buckets counted from the epoch are the buckets pandas counts from
      each day's midnight. */
  lemma BucketWithinDay(start: int, w: nat)
    requires w > 0 && MicrosPerDay % w == 0 && start % w == 0
    ensures Day(start) == Day(start + w - 1)
  {
    var d := MicrosPerDay;
    var q := start / d;
    var r := start % d;
    var b := d / w;
    var k := start / w;
    Multiple(d, w);
    Multiple(start, w);
    assert r == (k - q * b) * w by {
      assert start == q * d + r;
      assert q * d == (q * b) * w;
    }
    MulDiv(k - q * b, w);
    assert r + w <= d by {
      Multiple(r, w);
      MulLe(r / w + 1, b, w);
      MulNext(r / w, w);
      if r / w + 1 > b {
        MulLe(b, r / w, w);
      }
    }
    DivUnique(start + w - 1, d, q, r + w - 1);
  }

  /** The series the chosen rule produces: unchanged for "org". */
  function Apply(rows: seq<Row>, rule: Rule): (out: seq<Row>)
    requires Sorted(rows)
    requires rule.Every? ==> DividesDay(rule.seconds)
    ensures rule == Org ==> out == rows
    ensures rule.Every? ==> out == Resample(rows, rule.seconds * MicrosPerSecond)
    ensures Sorted(out)
    ensures forall c :: Total(out, c) == Total(rows, c)
    ensures rule.Every? ==> forall i :: 0 <= i < |out| ==>
      Day(out[i].ts) == Day(out[i].ts + rule.seconds * MicrosPerSecond - 1)
  {
    match rule
    case Org => rows
    case Every(s) =>
      var w := s * MicrosPerSecond;
      ResampleSorted(rows, w);
      WidthDividesDay(s);
      forall i | 0 <= i < |Resample(rows, w)|
        ensures Day(Resample(rows, w)[i].ts) == Day(Resample(rows, w)[i].ts + w - 1)
      {
        BucketWithinDay(Resample(rows, w)[i].ts, w);
      }
      forall c ensures Total(Resample(rows, w), c) == Total(rows, c) {
        ResampleConserves(rows, w, c);
      }
      Resample(rows, w)
  }

  // ---------------------------------------------------------------------
  // The date slice
  // ---------------------------------------------------------------------

  /** The row's calendar date lies in `[from, to]` (days since the epoch). */
  predicate InDates(r: Row, from: int, to: int) {
    from <= Day(r.ts) <= to
  }

  /** Reference meaning of `df[from:to]`: the rows whose date is in range,
      in their order. */
  function FilterDates(rows: seq<Row>, from: int, to: int): (out: seq<Row>)
    ensures forall r :: r in out <==> r in rows && InDates(r, from, to)
    ensures |out| <= |rows|
  {
    if |rows| == 0 then []
    else (if InDates(rows[0], from, to) then [rows[0]] else []) + FilterDates(rows[1..], from, to)
  }

  /** `searchsorted(t)`: the number of leading rows earlier than `t`. */
  function FirstFrom(rows: seq<Row>, t: int): (k: nat)
    ensures k <= |rows|
  {
    if |rows| == 0 || rows[0].ts >= t then 0 else 1 + FirstFrom(rows[1..], t)
  }

  /** The position found is preceded only by rows earlier than `t` and, on
      a sorted series, followed only by rows at or after `t`. */
  lemma {:induction false} FirstFromBounds(rows: seq<Row>, t: int)
    ensures forall j :: 0 <= j < FirstFrom(rows, t) ==> rows[j].ts < t
    ensures Sorted(rows) ==> forall j :: FirstFrom(rows, t) <= j < |rows| ==> rows[j].ts >= t
    decreases |rows|
  {
    if |rows| > 0 && rows[0].ts < t {
      var rest := rows[1..];
      FirstFromBounds(rest, t);
      assert forall j :: 1 <= j < |rows| ==> rows[j] == rest[j - 1];
    }
  }

  /** `df[from:to]` on a time-ordered index: the block of rows from the first
      one at or after midnight of `from` up to the last one before midnight
      after `to`. It keeps exactly the rows whose date lies in range. */
  function SliceDates(rows: seq<Row>, from: int, to: int): (out: seq<Row>)
    requires Sorted(rows)
    ensures out == FilterDates(rows, from, to)
  {
    var lo := FirstFrom(rows, from * MicrosPerDay);
    var hi := FirstFrom(rows, (to + 1) * MicrosPerDay);
    SliceIsFilter(rows, from, to);
    if lo <= hi then rows[lo..hi] else []
  }

  /** A date bound on a time stamp is a bound on the stamp itself. */
  lemma DayBounds(t: int, from: int, to: int)
    ensures from <= Day(t) <==> from * MicrosPerDay <= t
    ensures Day(t) <= to <==> t < (to + 1) * MicrosPerDay
  {
    var d := MicrosPerDay;
    Floor(t, d);
    MulLe(from, t / d, d);
    MulLe(t / d + 1, to + 1, d);
    MulNext(t / d, d);
    if from * d <= t {
      MulDiv(from, d);
      FloorMono(from * d, t, d);
    }
    if t < (to + 1) * d {
      MulDiv(to + 1, d);
      FloorMono(t, (to + 1) * d, d);
    }
  }

  /** The rows whose time lies in `[a, b)`, in their order. */
  function FilterWindow(rows: seq<Row>, a: int, b: int): seq<Row> {
    if |rows| == 0 then []
    else (if a <= rows[0].ts < b then [rows[0]] else []) + FilterWindow(rows[1..], a, b)
  }

  /** The date filter is the window filter between the two midnights. */
  lemma {:induction false} DatesAreWindow(rows: seq<Row>, from: int, to: int)
    ensures FilterDates(rows, from, to) == FilterWindow(rows, from * MicrosPerDay, (to + 1) * MicrosPerDay)
    decreases |rows|
  {
    if |rows| > 0 {
      DayBounds(rows[0].ts, from, to);
      DatesAreWindow(rows[1..], from, to);
    }
  }

  /** `rows[lo:hi]` in Python's terms: empty when the bounds cross. */
  function Block(rows: seq<Row>, lo: nat, hi: nat): (out: seq<Row>)
    requires lo <= |rows| && hi <= |rows|
    ensures |out| == if lo <= hi then hi - lo else 0
  {
    if lo <= hi then rows[lo..hi] else []
  }

  /** On sorted rows the window filter is the block between the two
      `searchsorted` positions. */
  lemma {:induction false} SliceIsWindow(rows: seq<Row>, a: int, b: int)
    requires Sorted(rows)
    ensures FilterWindow(rows, a, b) == Block(rows, FirstFrom(rows, a), FirstFrom(rows, b))
    decreases |rows|
  {
    if |rows| > 0 {
      var rest := rows[1..];
      assert Sorted(rest);
      SliceIsWindow(rest, a, b);
      if rows[0].ts < a && rows[0].ts < b {
        SliceBefore(rows, a, b);
      } else if rows[0].ts < b {
        SliceInside(rows, a, b);
      } else {
        WindowNone(rows, a, b);
      }
    }
  }

  /** Step case: the first row is before the window. */
  lemma {:induction false} SliceBefore(rows: seq<Row>, a: int, b: int)
    requires |rows| > 0 && rows[0].ts < a && rows[0].ts < b
    requires FilterWindow(rows[1..], a, b) == Block(rows[1..], FirstFrom(rows[1..], a), FirstFrom(rows[1..], b))
    ensures FilterWindow(rows, a, b) == Block(rows, FirstFrom(rows, a), FirstFrom(rows, b))
  {
    BeforeStep(rows, a, b);
  }

  /** Dropping a first row that precedes the window changes neither the
      window nor the block between the two positions. */
  lemma BeforeStep(rows: seq<Row>, a: int, b: int)
    requires |rows| > 0 && rows[0].ts < a && rows[0].ts < b
    ensures FilterWindow(rows, a, b) == FilterWindow(rows[1..], a, b)
    ensures Block(rows, FirstFrom(rows, a), FirstFrom(rows, b)) == Block(rows[1..], FirstFrom(rows[1..], a), FirstFrom(rows[1..], b))
  {
    FirstFromStep(rows, a);
    FirstFromStep(rows, b);
    WindowSkip(rows, a, b);
    BlockShift(rows, FirstFrom(rows[1..], a), FirstFrom(rows[1..], b));
  }

  lemma FirstFromStep(rows: seq<Row>, t: int)
    requires |rows| > 0 && rows[0].ts < t
    ensures FirstFrom(rows, t) == 1 + FirstFrom(rows[1..], t)
    ensures FirstFrom(rows[1..], t) < |rows|
  {
  }

  /** A first row outside the window is not kept. */
  lemma WindowSkip(rows: seq<Row>, a: int, b: int)
    requires |rows| > 0 && !(a <= rows[0].ts < b)
    ensures FilterWindow(rows, a, b) == FilterWindow(rows[1..], a, b)
  {
    assert FilterWindow(rows, a, b) == [] + FilterWindow(rows[1..], a, b);
  }

  /** Dropping the first row shifts a block's bounds down by one. */
  lemma BlockShift(rows: seq<Row>, lo: nat, hi: nat)
    requires |rows| > 0 && lo < |rows| && hi < |rows|
    ensures Block(rows, 1 + lo, 1 + hi) == Block(rows[1..], lo, hi)
  {
    if lo <= hi {
      var x := rows[1 + lo..1 + hi];
      var y := rows[1..][lo..hi];
      assert |x| == |y|;
      assert forall i :: 0 <= i < |x| ==> x[i] == rows[1 + lo + i] == y[i];
    }
  }

  /** Step case: the first row is inside the window. */
  lemma {:induction false} SliceInside(rows: seq<Row>, a: int, b: int)
    requires Sorted(rows) && |rows| > 0 && a <= rows[0].ts < b
    requires FilterWindow(rows[1..], a, b) == Block(rows[1..], FirstFrom(rows[1..], a), FirstFrom(rows[1..], b))
    ensures FilterWindow(rows, a, b) == Block(rows, FirstFrom(rows, a), FirstFrom(rows, b))
  {
    InsideStep(rows, a, b);
  }

  /** A first row inside the window heads both the window and the block,
      and the rest of the block starts at the rest's first position. */
  lemma InsideStep(rows: seq<Row>, a: int, b: int)
    requires Sorted(rows) && |rows| > 0 && a <= rows[0].ts < b
    ensures FilterWindow(rows, a, b) == [rows[0]] + FilterWindow(rows[1..], a, b)
    ensures Block(rows, FirstFrom(rows, a), FirstFrom(rows, b))
      == [rows[0]] + Block(rows[1..], FirstFrom(rows[1..], a), FirstFrom(rows[1..], b))
  {
    var rest := rows[1..];
    var hi := FirstFrom(rest, b);
    assert FirstFrom(rows, a) == 0;
    assert FirstFrom(rows, b) == hi + 1;
    assert FirstFrom(rest, a) == 0 by {
      if |rest| > 0 {
        assert rest[0].ts >= rows[0].ts;
      }
    }
    assert FilterWindow(rows, a, b) == [rows[0]] + FilterWindow(rest, a, b);
    assert rows[0..hi + 1] == [rows[0]] + rest[0..hi];
  }

  lemma {:induction false} WindowNone(rows: seq<Row>, a: int, b: int)
    requires Sorted(rows) && |rows| > 0 && rows[0].ts >= b
    ensures FilterWindow(rows, a, b) == []
    decreases |rows|
  {
    if |rows| > 1 {
      assert Sorted(rows[1..]);
      WindowNone(rows[1..], a, b);
    }
  }

  lemma SliceIsFilter(rows: seq<Row>, from: int, to: int)
    requires Sorted(rows)
    ensures var lo := FirstFrom(rows, from * MicrosPerDay);
      var hi := FirstFrom(rows, (to + 1) * MicrosPerDay);
      FilterDates(rows, from, to) == if lo <= hi then rows[lo..hi] else []
  {
    DatesAreWindow(rows, from, to);
    SliceIsWindow(rows, from * MicrosPerDay, (to + 1) * MicrosPerDay);
  }
}
