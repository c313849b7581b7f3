/** The views built on a loaded series: the file summary shown after
    loading, the list of calendar dates offered for the range, and the
    aggregation behind the chart with its two maximum lines. */
module Aggregate {
  import opened Series
  import opened Text
  import opened Resample
  import opened Throughput
  import opened Format
  import opened Clock
  import Arith

  datatype Side = Received | Sent

  function Bytes(r: Row, side: Side): nat {
    match side
    case Received => r.recv
    case Sent => r.send
  }

  /** No row carries bytes over a zero gap, in either direction. */
  predicate AllFinite(rows: seq<Row>) {
    forall i :: 0 <= i < |rows| ==>
      Finite(rows[i].recv, rows[i].delta) && Finite(rows[i].send, rows[i].delta)
  }

  predicate AllRepresentable(rows: seq<Row>) {
    forall i :: 0 <= i < |rows| ==> Representable(rows[i].ts)
  }

  /** A row whose gap is defined and positive has a rate in both columns. */
  predicate Timed(r: Row) {
    r.delta.Some? && r.delta.value > 0
  }

  /** The throughput column `recv_<unit>` or `send_<unit>`. */
  function RateColumn(rows: seq<Row>, side: Side, u: Unit): (col: Rates)
    requires AllFinite(rows)
    ensures |col| == |rows|
    ensures forall i :: 0 <= i < |rows| ==> (col[i].Some? <==> Timed(rows[i]))
    ensures forall i :: 0 <= i < |rows| && Timed(rows[i]) ==>
      col[i] == Some(Scaled(Rate(Bytes(rows[i], side), rows[i].delta).value, u))
  {
    seq(|rows|, i requires 0 <= i < |rows| =>
      match Rate(Bytes(rows[i], side), rows[i].delta)
      case None => None
      case Some(rate) => Some(Scaled(rate, u)))
  }

  /** Whether any row of the series has a rate. */
  lemma TimedHasValue(rows: seq<Row>, side: Side, u: Unit)
    requires AllFinite(rows)
    ensures HasValue(RateColumn(rows, side, u)) <==> exists i :: 0 <= i < |rows| && Timed(rows[i])
  {
    var col := RateColumn(rows, side, u);
    if exists i :: 0 <= i < |rows| && Timed(rows[i]) {
      var i :| 0 <= i < |rows| && Timed(rows[i]);
      assert col[i].Some?;
    }
  }

  /** The unit only divides the column: the row where it peaks is the
      row where the bits-per-second column peaks. */
  lemma UnitKeepsPeakRow(rows: seq<Row>, side: Side, u: Unit)
    requires AllFinite(rows)
    requires HasValue(RateColumn(rows, side, Bps))
    ensures HasValue(RateColumn(rows, side, u))
    ensures FirstMax(RateColumn(rows, side, u)) == FirstMax(RateColumn(rows, side, Bps))
  {
    var bps := RateColumn(rows, side, Bps);
    var col := RateColumn(rows, side, u);
    var d := Divisor(u) as real;
    ScalingKeepsFirstMax(bps, d);
    var scaled := Scale(bps, d);
    forall i | 0 <= i < |rows|
      ensures col[i] == scaled[i]
    {
      if Timed(rows[i]) {
        ScaledInBps(Rate(Bytes(rows[i], side), rows[i].delta).value, u);
      }
    }
    assert col == scaled;
  }

  lemma ScaledInBps(rate: nat, u: Unit)
    ensures Scaled(rate, u) == Scaled(rate, Bps) / Divisor(u) as real
  {
  }

  /** Where a column peaks: the rate in bits per second and the time of
      the first row that reaches it. */
  datatype Peak = Peak(rate: nat, at: int)

  /** `peak` is the maximum of the side's rates and the time of the first
      row reaching it. */
  predicate IsPeak(rows: seq<Row>, side: Side, peak: Peak)
    requires AllFinite(rows)
  {
    exists k :: 0 <= k < |rows| && IsFirstMax(RateColumn(rows, side, Bps), k) &&
      peak == Peak(Rate(Bytes(rows[k], side), rows[k].delta).value, rows[k].ts)
  }

  function PeakOf(rows: seq<Row>, side: Side): (p: Peak)
    requires AllFinite(rows) && HasValue(RateColumn(rows, side, Bps))
    ensures IsPeak(rows, side, p)
    ensures p.at == rows[FirstMax(RateColumn(rows, side, Bps))].ts
    ensures forall i :: 0 <= i < |rows| && Timed(rows[i]) ==>
      Rate(Bytes(rows[i], side), rows[i].delta).value <= p.rate
  {
    var col := RateColumn(rows, side, Bps);
    var k := FirstMax(col);
    var p := Peak(Rate(Bytes(rows[k], side), rows[k].delta).value, rows[k].ts);
    forall i | 0 <= i < |rows| && Timed(rows[i])
      ensures Rate(Bytes(rows[i], side), rows[i].delta).value <= p.rate
    {
      assert col[i].value <= col[k].value;
    }
    p
  }

  // ---------------------------------------------------------------------
  // The aggregation view
  // ---------------------------------------------------------------------

  /** What the user picked: interval, unit and the date range (day numbers,
      both ends included). */
  datatype Request = Request(rule: Rule, unit: Unit, from: int, to: int)

  predicate ValidRequest(req: Request) {
    req.rule.Every? ==> DividesDay(req.rule.seconds)
  }

  /** Summing into buckets can create a zero gap with positive bytes: the
      first loaded row's undefined delta sums to 0 in its bucket. With a
      single sample in the first minute, the one-minute view after a load
      holds such a bucket; the source then shows an infinite maximum, and
      this model does not cover that selection. */
  lemma FirstBucketNotFinite()
    ensures var rows := [Row(10 * MicrosPerSecond, 100, 100, None),
                         Row(70 * MicrosPerSecond, 100, 100, Some(60 * MicrosPerSecond))];
      var req := Request(Every(60), Mbps, 0, 0);
      && Sorted(rows) && DeltasAreGaps(rows) && ValidRequest(req)
      && !AllFinite(Selected(rows, req))
  {
    var rows := [Row(10 * MicrosPerSecond, 100, 100, None),
                 Row(70 * MicrosPerSecond, 100, 100, Some(60 * MicrosPerSecond))];
    var req := Request(Every(60), Mbps, 0, 0);
    var w := 60 * MicrosPerSecond;
    assert DividesDay(60);
    var out := Apply(rows, req.rule);
    assert out == Resample.Resample(rows, w);
    var first := rows[..1];
    assert first[..0] == [];
    forall c ensures WindowSum(rows, 0, w, c) == Value(rows[0], c) {
      assert WindowSum(first[..0], 0, w, c) == 0;
      assert WindowSum(first, 0, w, c) == Value(rows[0], c);
      assert rows[..|rows| - 1] == first;
    }
    assert out[0].ts == 0;
    assert out[0].recv == 100 && out[0].delta == Some(0);
    assert InDates(out[0], 0, 0);
    var sel := Selected(rows, req);
    assert out[0] in sel;
    var k :| 0 <= k < |sel| && sel[k] == out[0];
    assert !Finite(sel[k].recv, sel[k].delta);
  }

  /** Every interval the menu offers makes a valid request, whatever the
      unit and the date range. */
  lemma MenuRequestValid(entry: string, unit: Unit, from: int, to: int)
    requires RuleOf(entry).Some?
    ensures ValidRequest(Request(RuleOf(entry).value, unit, from, to))
  {
    RuleOfMenu(entry);
  }

  /** The series after the interval and the date range are applied. */
  function Selected(rows: seq<Row>, req: Request): (out: seq<Row>)
    requires Sorted(rows) && ValidRequest(req)
    ensures out == FilterDates(Apply(rows, req.rule), req.from, req.to)
  {
    SliceDates(Apply(rows, req.rule), req.from, req.to)
  }

  /** The aggregated frame, its throughput columns and the two summary
      lines. */
  datatype View = View(series: seq<Row>, recv: Rates, send: Rates, recvPeak: Peak, sendPeak: Peak,
                       lines: (string, string))

  /** The maximum is NaN: no selected row has a rate, and the source fails
      looking up the row that reaches it. */
  datatype AggregateError = NoThroughput

  /** `_resample_df`. */
  function Aggregate(rows: seq<Row>, req: Request): (r: Result<View, AggregateError>)
    requires Sorted(rows) && ValidRequest(req)
    requires AllFinite(Selected(rows, req)) && AllRepresentable(Selected(rows, req))
    ensures var series := Selected(rows, req);
      r.Ok? <==> exists i :: 0 <= i < |series| && Timed(series[i])
    ensures r.Ok? ==>
      var v := r.value;
      && v.series == FilterDates(Apply(rows, req.rule), req.from, req.to)
      && v.recv == RateColumn(v.series, Received, req.unit)
      && v.send == RateColumn(v.series, Sent, req.unit)
      && IsPeak(v.series, Received, v.recvPeak)
      && IsPeak(v.series, Sent, v.sendPeak)
      && v.recvPeak == PeakOf(v.series, Received)
      && v.sendPeak == PeakOf(v.series, Sent)
      && v.lines == MaxLines(MaxText(v.recvPeak.rate, req.unit), MaxText(v.sendPeak.rate, req.unit), req.unit,
                             WholeText(v.recvPeak.at), WholeText(v.sendPeak.at))
  {
    var series := Selected(rows, req);
    TimedHasValue(series, Received, Bps);
    TimedHasValue(series, Sent, Bps);
    if !HasValue(RateColumn(series, Received, Bps)) then Err(NoThroughput)
    else
      var recv := PeakOf(series, Received);
      var send := PeakOf(series, Sent);
      var recvAt := SummaryStamp(recv.at);
      var sendAt := SummaryStamp(send.at);
      var lines := MaxLines(MaxText(recv.rate, req.unit), MaxText(send.rate, req.unit), req.unit, recvAt, sendAt);
      Ok(View(series, RateColumn(series, Received, req.unit), RateColumn(series, Sent, req.unit), recv, send, lines))
  }

  /** In the displayed unit, too, the reported time is that of the first
      row reaching the column's maximum. */
  lemma AggregatePeaksInUnit(rows: seq<Row>, req: Request)
    requires Sorted(rows) && ValidRequest(req)
    requires AllFinite(Selected(rows, req)) && AllRepresentable(Selected(rows, req))
    requires Aggregate(rows, req).Ok?
    ensures var v := Aggregate(rows, req).value;
      && (exists k :: 0 <= k < |v.series| && IsFirstMax(v.recv, k) && v.series[k].ts == v.recvPeak.at)
      && (exists k :: 0 <= k < |v.series| && IsFirstMax(v.send, k) && v.series[k].ts == v.sendPeak.at)
  {
    var v := Aggregate(rows, req).value;
    UnitKeepsPeakRow(v.series, Received, req.unit);
    UnitKeepsPeakRow(v.series, Sent, req.unit);
    var kr := FirstMax(v.recv);
    var ks := FirstMax(v.send);
    assert v.series[kr].ts == v.recvPeak.at;
    assert v.series[ks].ts == v.sendPeak.at;
  }

  /** Raw data over a range that holds every row is the whole series:
      nothing is added or dropped. */
  lemma RawFullRange(rows: seq<Row>, req: Request)
    requires Sorted(rows) && ValidRequest(req) && req.rule == Org
    requires forall i :: 0 <= i < |rows| ==> req.from <= Day(rows[i].ts) <= req.to
    ensures Selected(rows, req) == rows
  {
    FilterKeepsAll(rows, req.from, req.to);
  }

  lemma {:induction false} FilterKeepsAll(rows: seq<Row>, from: int, to: int)
    requires forall i :: 0 <= i < |rows| ==> InDates(rows[i], from, to)
    ensures FilterDates(rows, from, to) == rows
    decreases |rows|
  {
    if |rows| > 0 {
      FilterKeepsAll(rows[1..], from, to);
      assert [rows[0]] + rows[1..] == rows;
    }
  }

  // ---------------------------------------------------------------------
  // After loading
  // ---------------------------------------------------------------------

  /** `sorted(set(df.index.date))`: the calendar days that hold a row, in
      increasing order, each once. */
  function Period(rows: seq<Row>): (days: seq<int>)
    requires Sorted(rows)
    ensures forall i, j :: 0 <= i < j < |days| ==> days[i] < days[j]
    ensures forall d :: d in days <==> exists i :: 0 <= i < |rows| && Day(rows[i].ts) == d
    ensures |rows| > 0 ==> |days| > 0 && days[|days| - 1] == Day(rows[|rows| - 1].ts)
  {
    if |rows| == 0 then []
    else
      var init := rows[..|rows| - 1];
      var p := Period(init);
      var d := Day(rows[|rows| - 1].ts);
      assert forall i :: 0 <= i < |init| ==> init[i] == rows[i];
      DaysRise(rows);
      if |p| > 0 && p[|p| - 1] == d then p else p + [d]
  }

  /** Later rows are on the same day or a later one. */
  lemma DaysRise(rows: seq<Row>)
    requires Sorted(rows)
    ensures forall i, j :: 0 <= i < j < |rows| ==> Day(rows[i].ts) <= Day(rows[j].ts)
  {
    forall i, j | 0 <= i < j < |rows|
      ensures Day(rows[i].ts) <= Day(rows[j].ts)
    {
      Arith.FloorMono(rows[i].ts, rows[j].ts, MicrosPerDay);
    }
  }

  const StartCaption: string := "開始日時: "
  const EndCaption: string := "終了日時: "
  const CountCaption: string := "取得行数: "
  const RecvBandCaption: string := "受信帯域: 最大 "
  const SendBandCaption: string := "送信帯域: 最大 "
  const BpsSuffix: string := " bps"

  /** The text reads back as `n` once the thousands separators are removed. */
  predicate Reads(text: string, n: nat) {
    AllDigits(Ungroup(text)) && DigitsValue(Ungroup(text)) == n
  }

  datatype SummaryError =
    | NoRows     // the series is empty; the source fails on `index[0]`
    | NoRate     // no row has a rate; the source fails on `int(NaN)`

  /** The file summary written after loading: first and last time stamp,
      row count and the two maxima in bits per second. The line with the
      range of gaps is not modelled. */
  function FileSummary(rows: seq<Row>): (r: Result<seq<string>, SummaryError>)
    requires AllFinite(rows) && AllRepresentable(rows)
    ensures r == Err(NoRows) <==> |rows| == 0
    ensures r == Err(NoRate) <==> |rows| > 0 && forall i :: 0 <= i < |rows| ==> !Timed(rows[i])
    ensures r.Ok? ==>
      && |r.value| == 5
      && r.value[0] == StartCaption + WholeText(rows[0].ts)
      && r.value[1] == EndCaption + WholeText(rows[|rows| - 1].ts)
      && CountCaption <= r.value[2] && Reads(r.value[2][|CountCaption|..|r.value[2]|], |rows|)
      && RecvBandCaption <= r.value[3] && |r.value[3]| >= |RecvBandCaption| + |BpsSuffix|
      && Reads(r.value[3][|RecvBandCaption|..|r.value[3]| - |BpsSuffix|], PeakOf(rows, Received).rate)
      && SendBandCaption <= r.value[4] && |r.value[4]| >= |SendBandCaption| + |BpsSuffix|
      && Reads(r.value[4][|SendBandCaption|..|r.value[4]| - |BpsSuffix|], PeakOf(rows, Sent).rate)
      && r.value[2] == CountCaption + Grouped(|rows|)
      && r.value[3] == RecvBandCaption + Grouped(PeakOf(rows, Received).rate) + BpsSuffix
      && r.value[4] == SendBandCaption + Grouped(PeakOf(rows, Sent).rate) + BpsSuffix
  {
    TimedHasValue(rows, Received, Bps);
    if |rows| == 0 then Err(NoRows)
    else if !HasValue(RateColumn(rows, Received, Bps)) then Err(NoRate)
    else
      Ok(SummaryLines(SummaryStamp(rows[0].ts), SummaryStamp(rows[|rows| - 1].ts), |rows|,
                      PeakOf(rows, Received).rate, PeakOf(rows, Sent).rate))
  }

  /** The five summary lines from their values: the two stamps as given,
      then the row count and the two maxima with thousands separators. */
  function SummaryLines(startAt: string, endAt: string, count: nat, recv: nat, send: nat): (lines: seq<string>)
    ensures |lines| == 5
    ensures lines[0] == StartCaption + startAt && lines[1] == EndCaption + endAt
    ensures CountCaption <= lines[2] && Reads(lines[2][|CountCaption|..|lines[2]|], count)
    ensures RecvBandCaption <= lines[3] && |lines[3]| >= |RecvBandCaption| + |BpsSuffix|
    ensures Reads(lines[3][|RecvBandCaption|..|lines[3]| - |BpsSuffix|], recv)
    ensures SendBandCaption <= lines[4] && |lines[4]| >= |SendBandCaption| + |BpsSuffix|
    ensures Reads(lines[4][|SendBandCaption|..|lines[4]| - |BpsSuffix|], send)
    ensures lines[2] == CountCaption + Grouped(count)
    ensures lines[3] == RecvBandCaption + Grouped(recv) + BpsSuffix
    ensures lines[4] == SendBandCaption + Grouped(send) + BpsSuffix
  {
    var countLine := NumberLine(CountCaption, count, "");
    assert |countLine| - |""| == |countLine|;
    NumberLineText(CountCaption, count, "");
    NumberLineText(RecvBandCaption, recv, BpsSuffix);
    NumberLineText(SendBandCaption, send, BpsSuffix);
    [StartCaption + startAt, EndCaption + endAt, countLine,
     NumberLine(RecvBandCaption, recv, BpsSuffix), NumberLine(SendBandCaption, send, BpsSuffix)]
  }

  /** A number line spelled out. */
  lemma NumberLineText(caption: string, n: nat, suffix: string)
    ensures NumberLine(caption, n, suffix) == caption + Grouped(n) + suffix
  {
  }

  /** The summary's start and end lines agree with the source's
      `str(ts)[:-7]` exactly when the stamp has a sub-second part; for a
      whole-second stamp the source's cut text differs. */
  lemma FileSummaryStamps(rows: seq<Row>)
    requires AllFinite(rows) && AllRepresentable(rows)
    requires FileSummary(rows).Ok?
    ensures FileSummary(rows).value[0] == StartCaption + CutStamp(rows[0].ts) <==> MomentOf(rows[0].ts).micro != 0
    ensures FileSummary(rows).value[1] == EndCaption + CutStamp(rows[|rows| - 1].ts)
      <==> MomentOf(rows[|rows| - 1].ts).micro != 0
  {
    var lines := FileSummary(rows);
    SevenCharacterCut(rows[0].ts);
    SevenCharacterCut(rows[|rows| - 1].ts);
    SameCaption(StartCaption, WholeText(rows[0].ts), CutStamp(rows[0].ts));
    SameCaption(EndCaption, WholeText(rows[|rows| - 1].ts), CutStamp(rows[|rows| - 1].ts));
  }

  /** Two lines with the same caption are equal exactly when their texts are. */
  lemma SameCaption(caption: string, x: string, y: string)
    ensures caption + x == caption + y <==> x == y
  {
    if caption + x == caption + y {
      assert x == (caption + x)[|caption|..];
    }
  }

  /** `caption`, then `n` with thousands separators, then `suffix`. */
  function NumberLine(caption: string, n: nat, suffix: string): (line: string)
    ensures caption <= line && |line| >= |caption| + |suffix|
    ensures line[|line| - |suffix|..] == suffix
    ensures Reads(line[|caption|..|line| - |suffix|], n)
    ensures line[|caption|..|line| - |suffix|] == Grouped(n)
  {
    var digits := Grouped(n);
    GroupedRoundTrip(n);
    Concat3(caption, digits, suffix);
    caption + digits + suffix
  }
}
