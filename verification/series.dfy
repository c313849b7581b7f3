/** The records that flow through the throughput-log pipeline.

    Time stamps are integers counting microseconds since 1970-01-01 00:00
    (pandas' naive datetime epoch), so midnight of every day is a multiple of
    MicrosPerDay and sub-second parts are kept exactly. */
module Series {

  datatype Option<T> = None | Some(value: T)

  datatype Result<T, E> = Ok(value: T) | Err(error: E)

  const MicrosPerSecond: nat := 1_000_000
  const SecondsPerDay: nat := 86_400
  const MicrosPerDay: nat := 86_400_000_000

  /** One body line of an STG log as read: the date text, the uptime
      counter, and the received and sent byte counts. */
  datatype RawRow = RawRow(date: string, uptime: int, recv: nat, send: nat)

  /** One body line after cleaning: the uptime column is gone and the date
      has become a time stamp. */
  datatype Sample = Sample(ts: int, recv: nat, send: nat)

  /** One row of the merged series: a sample plus `delta_time`, the
      microseconds since the previous row, undefined (NaN in the source)
      for the first row. */
  datatype Row = Row(ts: int, recv: nat, send: nat, delta: Option<nat>)

  function SampleOf(r: Row): Sample {
    Sample(r.ts, r.recv, r.send)
  }

  /** The (date, recv, send) projection of every row. */
  function Samples(rows: seq<Row>): (s: seq<Sample>)
    ensures |s| == |rows|
    ensures forall i :: 0 <= i < |rows| ==> s[i] == SampleOf(rows[i])
  {
    seq(|rows|, i requires 0 <= i < |rows| => SampleOf(rows[i]))
  }

  /** Calendar day number of a time stamp (day 0 is 1970-01-01). */
  function Day(ts: int): int {
    ts / MicrosPerDay
  }

  predicate SortedSamples(s: seq<Sample>) {
    forall i, j :: 0 <= i < j < |s| ==> s[i].ts <= s[j].ts
  }

  predicate Sorted(rows: seq<Row>) {
    forall i, j :: 0 <= i < j < |rows| ==> rows[i].ts <= rows[j].ts
  }

  /** The first row's delta is undefined and every other row's delta is the
      gap to the row before it. */
  predicate DeltasAreGaps(rows: seq<Row>) {
    && (|rows| > 0 ==> rows[0].delta == None)
    && (forall i {:trigger rows[i].delta} :: 0 < i < |rows| ==>
          rows[i].delta.Some? && rows[i].delta.value == rows[i].ts - rows[i - 1].ts)
  }

  /** No element occurs twice. */
  predicate NoRepeats<T(==)>(s: seq<T>) {
    forall i, j :: 0 <= i < j < |s| ==> s[i] != s[j]
  }

  /** Undefined deltas count as zero, as pandas' `sum` treats NaN. */
  function DeltaOrZero(d: Option<nat>): nat {
    match d
    case None => 0
    case Some(v) => v
  }
}
