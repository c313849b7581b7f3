/** Loading a batch: per-file cleaning, concatenation, duplicate removal,
    sorting by time, dropping the earliest time stamp, and `delta_time`. */
module Merge {
  import opened Series
  import opened Text
  import opened Header

  // ---------------------------------------------------------------------
  // Per-file cleaning
  // ---------------------------------------------------------------------

  /** A body line as a sample: the month fix is applied to the date text
      before it is parsed. Date parsing itself (pandas' `to_datetime`) is
      not part of this model and is supplied by the caller as `parse`. */
  function ToSample(row: RawRow, parse: string -> int): Sample {
    Sample(parse(FixMonth(row.date)), row.recv, row.send)
  }

  /** Cleans one file body: lines whose uptime is 0 are failed reads and
      are dropped, every other line becomes a sample, in file order. */
  function CleanFile(body: seq<RawRow>, parse: string -> int): (r: seq<Sample>)
    ensures |r| <= |body|
    ensures forall row :: row in body && row.uptime != 0 ==> ToSample(row, parse) in r
    ensures forall x :: x in r ==> exists row :: row in body && row.uptime != 0 && x == ToSample(row, parse)
  {
    if |body| == 0 then []
    else
      var front := body[..|body| - 1];
      var last := body[|body| - 1];
      assert body == front + [last];
      CleanFile(front, parse) + (if last.uptime == 0 then [] else [ToSample(last, parse)])
  }

  /** Cleaning works line by line: cleaning a concatenation is concatenating
      the cleaned parts, so the kept lines stay in their relative order. */
  lemma {:induction false} CleanFileAppend(a: seq<RawRow>, b: seq<RawRow>, parse: string -> int)
    ensures CleanFile(a + b, parse) == CleanFile(a, parse) + CleanFile(b, parse)
    decreases |b|
  {
    if |b| == 0 {
      assert a + b == a;
    } else {
      var b' := b[..|b| - 1];
      assert (a + b)[..|a + b| - 1] == a + b';
      CleanFileAppend(a, b', parse);
    }
  }

  /** Exactly the lines with a non-zero uptime survive. */
  lemma {:induction false} CleanFileCount(body: seq<RawRow>, parse: string -> int)
    ensures |CleanFile(body, parse)| == |body| - ZeroUptimes(body)
    decreases |body|
  {
    if |body| > 0 {
      CleanFileCount(body[..|body| - 1], parse);
    }
  }

  function ZeroUptimes(body: seq<RawRow>): nat {
    if |body| == 0 then 0
    else ZeroUptimes(body[..|body| - 1]) + (if body[|body| - 1].uptime == 0 then 1 else 0)
  }

  /** The cleaned bodies of all files, one after the other (`pd.concat`). */
  function Concat(files: seq<LogFile>, parse: string -> int): (r: seq<Sample>)
    ensures forall i, row :: 0 <= i < |files| && row in files[i].body && row.uptime != 0 ==> ToSample(row, parse) in r
  {
    if |files| == 0 then []
    else Concat(files[..|files| - 1], parse) + CleanFile(files[|files| - 1].body, parse)
  }

  // ---------------------------------------------------------------------
  // Duplicate removal
  // ---------------------------------------------------------------------

  /** `drop_duplicates()`: keeps the first occurrence of every sample. */
  function Dedup(s: seq<Sample>): (r: seq<Sample>)
    ensures NoRepeats(r)
    ensures forall x :: x in r <==> x in s
    ensures |r| <= |s|
  {
    if |s| == 0 then []
    else
      var front := s[..|s| - 1];
      var last := s[|s| - 1];
      assert s == front + [last];
      if last in front then Dedup(front) else Dedup(front) + [last]
  }

  /** A sequence has no repeats exactly when no element occurs twice in its
      multiset. */
  lemma {:induction false} NoRepeatsMultiset<T>(s: seq<T>)
    ensures NoRepeats(s) <==> forall x :: multiset(s)[x] <= 1
    decreases |s|
  {
    if !NoRepeats(s) {
      var i, j :| 0 <= i < j < |s| && s[i] == s[j];
      RepeatCounts(s, i, j);
    } else if |s| > 0 {
      var front := s[..|s| - 1];
      var last := s[|s| - 1];
      assert s == front + [last];
      assert NoRepeats(front);
      NoRepeatsMultiset(front);
      assert last !in front by {
        forall k | 0 <= k < |front|
          ensures front[k] != last
        {
          assert s[k] == front[k];
        }
      }
    }
  }

  lemma {:induction false} RepeatCounts<T>(s: seq<T>, i: nat, j: nat)
    requires i < j < |s| && s[i] == s[j]
    ensures multiset(s)[s[i]] >= 2
  {
    assert s == s[..j] + [s[j]] + s[j + 1..];
    assert s[i] in s[..j];
  }

  /** The multiplicity view of duplicate removal: each sample of the input
      occurs exactly once in the result, and nothing else does. */
  lemma {:induction false} DedupMultiset(s: seq<Sample>)
    ensures forall x :: multiset(Dedup(s))[x] == if x in s then 1 else 0
  {
    var r := Dedup(s);
    NoRepeatsMultiset(r);
  }

  // ---------------------------------------------------------------------
  // Sorting by time
  // ---------------------------------------------------------------------

  function Insert(x: Sample, s: seq<Sample>): (r: seq<Sample>)
    requires SortedSamples(s)
    ensures SortedSamples(r)
    ensures |r| == |s| + 1
    ensures forall k :: 0 <= k < |r| ==> r[k] == x || r[k] in s
  {
    if |s| == 0 then [x]
    else if x.ts <= s[0].ts then [x] + s
    else
      var t := Insert(x, s[1..]);
      assert forall k :: 0 <= k < |t| ==> s[0].ts <= t[k].ts;
      [s[0]] + t
  }

  /** Inserting adds exactly the one sample. */
  lemma {:induction false} InsertPermutes(x: Sample, s: seq<Sample>)
    requires SortedSamples(s)
    ensures multiset(Insert(x, s)) == multiset(s) + multiset{x}
    decreases |s|
  {
    if |s| > 0 && x.ts > s[0].ts {
      var rest := s[1..];
      InsertPermutes(x, rest);
      assert s == [s[0]] + rest;
      assert Insert(x, s) == [s[0]] + Insert(x, rest);
    }
  }

  /** `sort_index()`: orders the samples by time stamp. pandas' default sort
      does not promise an order among equal time stamps; this one keeps the
      input order there, which is one of the orders pandas may produce. */
  function SortByTime(s: seq<Sample>): (r: seq<Sample>)
    ensures SortedSamples(r)
    ensures multiset(r) == multiset(s)
    ensures |r| == |s|
  {
    if |s| == 0 then []
    else
      assert s == [s[0]] + s[1..];
      InsertPermutes(s[0], SortByTime(s[1..]));
      Insert(s[0], SortByTime(s[1..]))
  }

  // ---------------------------------------------------------------------
  // Dropping the first row, by label
  // ---------------------------------------------------------------------

  /** `df.drop(df.index[0])` removes rows by their index label, so every
      sample carrying the time stamp `t` goes, not only the first one. */
  function DropTime(s: seq<Sample>, t: int): (r: seq<Sample>)
    ensures |r| <= |s|
    ensures forall k :: 0 <= k < |r| ==> r[k] in s && r[k].ts != t
  {
    if |s| == 0 then []
    else
      var rest := DropTime(s[1..], t);
      var head := if s[0].ts == t then [] else [s[0]];
      assert forall k :: 0 <= k < |rest| ==> rest[k] in s;
      head + rest
  }

  /** Exactly the samples at `t` go: every other sample keeps its count. */
  lemma {:induction false} DropTimeCounts(s: seq<Sample>, t: int)
    ensures forall x :: multiset(DropTime(s, t))[x] == if x.ts == t then 0 else multiset(s)[x]
    decreases |s|
  {
    if |s| > 0 {
      var rest := DropTime(s[1..], t);
      var head := if s[0].ts == t then [] else [s[0]];
      DropTimeCounts(s[1..], t);
      assert s == [s[0]] + s[1..];
      assert multiset(s) == multiset{s[0]} + multiset(s[1..]);
      assert DropTime(s, t) == head + rest;
      assert multiset(head + rest) == multiset(head) + multiset(rest);
    }
  }

  /** Dropping keeps the survivors in their order, so a sorted input stays
      sorted. */
  lemma {:induction false} DropTimeSorted(s: seq<Sample>, t: int)
    requires SortedSamples(s)
    ensures SortedSamples(DropTime(s, t))
    decreases |s|
  {
    if |s| > 0 {
      var rest := DropTime(s[1..], t);
      DropTimeSorted(s[1..], t);
      assert forall k :: 0 <= k < |rest| ==> s[0].ts <= rest[k].ts;
    }
  }

  // ---------------------------------------------------------------------
  // delta_time
  // ---------------------------------------------------------------------

  /** `index.to_series().diff()`: each row gets the time since the previous
      row; the first row's is undefined. */
  function WithDeltas(s: seq<Sample>): (rows: seq<Row>)
    requires SortedSamples(s)
    ensures |rows| == |s| && Samples(rows) == s
    ensures Sorted(rows)
    ensures DeltasAreGaps(rows)
  {
    var rows := seq(|s|, i requires 0 <= i < |s| => Row(s[i].ts, s[i].recv, s[i].send, Gap(s, i)));
    assert forall i :: 0 <= i < |s| ==> SampleOf(rows[i]) == s[i];
    rows
  }

  /** The delta of position `i`: undefined for the first sample. */
  function Gap(s: seq<Sample>, i: nat): (d: Option<nat>)
    requires SortedSamples(s) && i < |s|
    ensures i == 0 <==> d.None?
    ensures i > 0 ==> d.value == s[i].ts - s[i - 1].ts
  {
    if i == 0 then None else Some(s[i].ts - s[i - 1].ts)
  }

  /** Total of the defined deltas of `rows`. */
  function Elapsed(rows: seq<Row>): nat {
    if |rows| == 0 then 0 else Elapsed(rows[..|rows| - 1]) + DeltaOrZero(rows[|rows| - 1].delta)
  }

  /** The deltas rebuild the time line: each time stamp is the first one
      plus the deltas up to it. */
  lemma {:induction false} DeltasRebuildTimes(s: seq<Sample>, k: nat)
    requires SortedSamples(s) && 0 < k <= |s|
    ensures s[k - 1].ts == s[0].ts + Elapsed(WithDeltas(s)[..k])
    decreases k
  {
    var rows := WithDeltas(s);
    if k > 1 {
      DeltasRebuildTimes(s, k - 1);
      assert rows[..k][..k - 1] == rows[..k - 1];
    } else {
      assert rows[..1][..0] == [];
    }
  }

  // ---------------------------------------------------------------------
  // The merged series
  // ---------------------------------------------------------------------

  /** The smallest time stamp of a non-empty sequence. */
  function Earliest(s: seq<Sample>): (t: int)
    requires |s| > 0
    ensures exists i :: 0 <= i < |s| && s[i].ts == t
    ensures forall i :: 0 <= i < |s| ==> t <= s[i].ts
  {
    if |s| == 1 then s[0].ts
    else
      var t := Earliest(s[1..]);
      assert forall i :: 1 <= i < |s| ==> s[i] == s[1..][i - 1];
      if s[0].ts <= t then s[0].ts else t
  }

  /** Concatenated, deduplicated, sorted and stripped of every sample at
      the earliest time stamp. */
  function Kept(all: seq<Sample>): (kept: seq<Sample>)
    requires |all| > 0
  {
    var unique := Dedup(all);
    assert all[0] in unique;
    var sorted := SortByTime(unique);
    DropTime(sorted, sorted[0].ts)
  }

  /** What the merge promises of the samples it keeps. */
  ghost predicate KeptShape(all: seq<Sample>, kept: seq<Sample>)
    requires |all| > 0
  {
    && SortedSamples(kept)
    && NoRepeats(kept)
    && (forall x :: multiset(kept)[x] == if x in all && x.ts != Earliest(all) then 1 else 0)
    && (forall i :: 0 <= i < |kept| ==> kept[i].ts > Earliest(all))
  }

  lemma KeptFacts(all: seq<Sample>)
    requires |all| > 0
    ensures KeptShape(all, Kept(all))
  {
    var unique := Dedup(all);
    assert all[0] in unique;
    var sorted := SortByTime(unique);
    DropTimeSorted(sorted, sorted[0].ts);
    DropTimeCounts(sorted, sorted[0].ts);
    MergeFacts(all, sorted, Kept(all));
  }

  /** The merged series: the kept samples, given deltas. */
  function Merge(all: seq<Sample>): (rows: seq<Row>)
    requires |all| > 0
    ensures Sorted(rows)
    ensures NoRepeats(Samples(rows))
    ensures forall x :: multiset(Samples(rows))[x] == if x in all && x.ts != Earliest(all) then 1 else 0
    ensures forall i :: 0 <= i < |rows| ==> rows[i].ts > Earliest(all)
    ensures DeltasAreGaps(rows)
  {
    KeptFacts(all);
    Numbered(all, Kept(all))
  }

  /** Gives the kept samples their deltas; what holds of the kept samples
      holds of the rows. */
  function Numbered(all: seq<Sample>, kept: seq<Sample>): (rows: seq<Row>)
    requires |all| > 0 && KeptShape(all, kept)
    ensures Sorted(rows)
    ensures NoRepeats(Samples(rows))
    ensures forall x :: multiset(Samples(rows))[x] == if x in all && x.ts != Earliest(all) then 1 else 0
    ensures forall i :: 0 <= i < |rows| ==> rows[i].ts > Earliest(all)
    ensures DeltasAreGaps(rows)
  {
    var rows := WithDeltas(kept);
    assert forall i :: 0 <= i < |rows| ==> rows[i].ts == kept[i].ts;
    rows
  }

  lemma {:induction false} MergeFacts(all: seq<Sample>, sorted: seq<Sample>, kept: seq<Sample>)
    requires |all| > 0 && |sorted| > 0
    requires SortedSamples(sorted) && multiset(sorted) == multiset(Dedup(all))
    requires forall x :: multiset(kept)[x] == if x.ts == sorted[0].ts then 0 else multiset(sorted)[x]
    ensures NoRepeats(kept)
    ensures forall x :: multiset(kept)[x] == if x in all && x.ts != Earliest(all) then 1 else 0
    ensures forall i :: 0 <= i < |kept| ==> kept[i].ts > Earliest(all)
  {
    var unique := Dedup(all);
    forall x
      ensures x in sorted <==> x in all
    {
      assert x in sorted <==> x in multiset(unique);
    }
    EarliestOfSorted(all, sorted);
    MergeCounts(all, unique, sorted, kept);
    NoRepeatsMultiset(kept);
    forall i | 0 <= i < |kept|
      ensures kept[i].ts > Earliest(all)
    {
      assert kept[i] in kept;
    }
  }

  lemma {:induction false} EarliestOfSorted(all: seq<Sample>, sorted: seq<Sample>)
    requires |all| > 0 && |sorted| > 0
    requires SortedSamples(sorted)
    requires forall x :: x in sorted <==> x in all
    ensures sorted[0].ts == Earliest(all)
  {
    var t := Earliest(all);
    var i :| 0 <= i < |all| && all[i].ts == t;
    assert all[i] in sorted;
    assert sorted[0] in all;
  }

  lemma {:induction false} MergeCounts(all: seq<Sample>, unique: seq<Sample>, sorted: seq<Sample>, kept: seq<Sample>)
    requires |all| > 0 && |sorted| > 0
    requires unique == Dedup(all) && multiset(sorted) == multiset(unique)
    requires sorted[0].ts == Earliest(all)
    requires forall x :: multiset(kept)[x] == if x.ts == sorted[0].ts then 0 else multiset(sorted)[x]
    ensures forall x :: multiset(kept)[x] == if x in all && x.ts != Earliest(all) then 1 else 0
  {
    DedupMultiset(all);
  }

  /** A series as the merge produces it: time-ordered, without two rows with
      the same (time, recv, send), first delta undefined, each other delta the
      gap to the row before. */
  predicate WellFormed(rows: seq<Row>) {
    && Sorted(rows)
    && NoRepeats(Samples(rows))
    && DeltasAreGaps(rows)
  }

  // ---------------------------------------------------------------------
  // Loading a batch
  // ---------------------------------------------------------------------

  datatype LoadError =
    | NothingSelected        // the file dialog returned no file
    | BadHeader(cause: HeaderError)
    | NoSamples              // no body line survived; the source fails on `index[0]`

  /** A loaded batch: the first file's target and the merged series. */
  datatype Batch = Batch(target: Target, rows: seq<Row>)

  /** `read_stg`: all first lines are checked before any body is cleaned;
      then the cleaned bodies are merged. */
  function LoadBatch(files: seq<LogFile>, parse: string -> int): (r: Result<Batch, LoadError>)
    ensures r.Ok? ==> WellFormed(r.value.rows)
  {
    if |files| == 0 then Err(NothingSelected)
    else match CheckHeaders(files)
      case Err(e) => Err(BadHeader(e))
      case Ok(target) =>
        var all := Concat(files, parse);
        if |all| == 0 then Err(NoSamples) else Ok(Batch(target, Merge(all)))
  }

  /** The outcome of a load: it succeeds exactly when every first line
      passes and some body line survives cleaning; the series then holds,
      once each, every cleaned sample not at the earliest time stamp. */
  lemma {:induction false} LoadBatchOutcome(files: seq<LogFile>, parse: string -> int)
    ensures LoadBatch(files, parse).Ok? <==>
      && |files| > 0
      && (forall j :: 0 <= j < |files| ==> !Offends(Heads(files), j))
      && |Concat(files, parse)| > 0
    ensures LoadBatch(files, parse).Ok? ==>
      var all := Concat(files, parse);
      var rows := LoadBatch(files, parse).value.rows;
      && LoadBatch(files, parse).value.target == ReadHeader(files[0], 0).value
      && forall x :: multiset(Samples(rows))[x] == if x in all && x.ts != Earliest(all) then 1 else 0
  {
  }

  /** A rejected selection is rejected whatever its bodies hold: no body is
      consulted before all first lines have passed. */
  lemma {:induction false} HeaderErrorsComeFirst(files: seq<LogFile>, other: seq<LogFile>, parse: string -> int)
    requires |files| >= 1 && |files| == |other|
    requires forall i :: 0 <= i < |files| ==> files[i].name == other[i].name && files[i].first == other[i].first
    requires CheckHeaders(files).Err?
    ensures LoadBatch(files, parse) == LoadBatch(other, parse) == Err(BadHeader(CheckHeaders(files).error))
  {
    HeadersIgnoreBodies(files, other);
  }
}
