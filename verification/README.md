# STG throughput-log pipeline, modelled in Dafny

`stg_graph_plot.py` loads rotation logs written by an STG traffic
generator and charts the received and sent throughput of the monitored
target. Behind its tkinter callbacks sits a sequential pipeline, and that
pipeline is what this project models as pure functions over immutable
records:

1. **Header checks** (`header.dfy`, module `Header`). Every selected file's
   first line must start with `STG`, split on `,` into exactly five fields,
   and carry `Target Address:<addr>` in field 2. Fields 2 to 5 (the target
   descriptor) must equal the first file's. Checking stops at the first
   rejected file, and no body is read before every first line has passed.
2. **Per-file cleaning** (`merge.dfy`, module `Merge`, and `text.dfy`).
   `Avg` in a date text becomes `Aug`, lines with `uptime == 0` are dropped
   and the uptime column goes away.
3. **Merge** (`merge.dfy`). The files are concatenated, duplicate
   `(date, recv, send)` rows are removed, the rows are sorted by time, the
   earliest time stamp is dropped and `delta_time` is computed.
4. **Aggregation** (`resample.dfy`, `throughput.dfy`, `aggregate.dfy`). The
   interval table `MEAN_TIMES` selects either the raw series or
   `resample(rule).sum()`. The date slice `df[from:to]` follows. Then come
   the throughput columns `bytes * 8 // delta_time / divisor` and the
   first row that reaches each column's maximum.
5. **Summary text** (`format.dfy`, `clock.dfy`, `aggregate.dfy`). This covers
   the two `MAX` lines of the chart view and the file summary written after
   loading, with its time stamps, row count and maxima.

Time stamps are integers counting microseconds since 1970-01-01 00:00.
`delta_time` is held in microseconds, and `None` stands for pandas' NaN.
`arith.dfy` (module `Arith`) holds the division facts the bucket proofs
rest on. `series.dfy` (module `Series`) holds the shared records.

Points of the code the model follows closely:

- `df.drop(df.index[0])` drops by label: every row that shares the
  earliest time stamp goes.
- `resample().sum()` emits every bucket from the first sample's to the
  last sample's, and an empty bucket gets zero sums.
- Throughput is floored in bits per second first, then truly divided by
  the unit's divisor.
- Bucket labels are multiples of the width counted from the epoch. Every
  width in the table divides a day, so these are the buckets pandas counts
  from each day's midnight (`Resample.BucketWithinDay`).
- `sort_index` is not stable. The model sorts stably, and its contracts
  state only what any sort guarantees: the order and the multiset.

One place departs from the code on purpose: the start and end lines of the
file summary use the corrected stamp text (see "## Findings");
`Aggregate.FileSummaryStamps` states exactly when they agree with the
code's `str(ts)[:-7]`.

## Model

| member | source | states |
|---|---|---|
| `Text.RStrip` | stg_graph_plot.py:409 | the stripped line is a prefix of the line read, does not end in whitespace, and only whitespace was removed |
| `Text.Split` | stg_graph_plot.py:421 | splitting on `,` yields at least one field and no field contains a `,` |
| `Text.JoinSplit` | stg_graph_plot.py:421 | joining the fields with `,` gives back the line |
| `Text.SplitCount` | stg_graph_plot.py:421-422 | the number of fields is the number of commas plus one |
| `Text.FixMonth` | stg_graph_plot.py:470 | the Avg→Aug fix keeps the length, and every character is either unchanged or a `v` turned into `u` |
| `Text.FixMonthChanges` | stg_graph_plot.py:470 | exactly the `v` of each `Avg` becomes `u`; every other character, including the `v` of `Nov`, is kept |
| `Text.FixMonthLeavesNoAvg` | stg_graph_plot.py:470 | no `Avg` is left after the fix |
| `Text.FixMonthIdempotent` | stg_graph_plot.py:470 | fixing a fixed text changes nothing |
| `Text.GroupedRoundTrip` | stg_graph_plot.py:504-506 | removing the separators from `f'{n:,}'` reads back `n` |
| `Text.GroupedShape` | stg_graph_plot.py:504-506 | `f'{n:,}'` is a group of one to three digits followed by groups of exactly three |
| `Text.PadLeft` | stg_graph_plot.py:572-573 | right alignment in a field: the text ends the field, only spaces precede it, and the field is as wide as asked or as the text |
| `Header.MatchAddress` | stg_graph_plot.py:430-438 | the field matches exactly when it starts with `Target Address:` followed by a character other than a line break; the capture follows the label and runs greedily to the end of the field or the first line break |
| `Header.ParseHeader` | stg_graph_plot.py:421-438 | a first line is accepted if and only if it starts with `STG`, has five fields and field 2 matches; the descriptor is fields 2 to 5 verbatim, and on a line without a line break the address is all of field 2 after the label |
| `Header.ReadHeader` | stg_graph_plot.py:407-438 | a file passes exactly when it opens, decodes and its stripped first line parses; a failure names that file and its position, with an open error, an encoding error or a format error according to its cause |
| `Header.CheckHeaders` | stg_graph_plot.py:404-449 | the batch passes if and only if no file is rejected; on failure the error names the first rejected file and is that file's own open, decode or format error, or else a target mismatch; on success the target is the first file's |
| `Header.AcceptedFilesAgree` | stg_graph_plot.py:438-449 | in an accepted batch every file yields the first file's target, so the address kept from the last file is the first file's |
| `Header.HeadersIgnoreBodies` | stg_graph_plot.py:404-461 | two selections that differ only in their bodies get the same header verdict |
| `Merge.CleanFile` | stg_graph_plot.py:470-474 | a sample is kept exactly when it comes from a line with non-zero uptime, with the month fix applied to its date |
| `Merge.CleanFileAppend` | stg_graph_plot.py:472 | cleaning works line by line, so kept lines stay in their relative order |
| `Merge.CleanFileCount` | stg_graph_plot.py:472 | exactly the lines with uptime 0 are removed |
| `Merge.Concat` | stg_graph_plot.py:475 | every kept line of every file is in the concatenation |
| `Merge.Dedup` | stg_graph_plot.py:484 | after duplicate removal no sample occurs twice, and the set of samples is unchanged |
| `Merge.DedupMultiset` | stg_graph_plot.py:484 | every sample of the input occurs exactly once after duplicate removal |
| `Merge.InsertPermutes` | stg_graph_plot.py:486-488 | inserting a sample into an ordered series adds exactly that sample |
| `Merge.SortByTime` | stg_graph_plot.py:486-488 | the sorted series is ordered by time and is a permutation of its input |
| `Merge.DropTime` | stg_graph_plot.py:490 | every sample left after dropping a label is an input sample whose time stamp differs from the label |
| `Merge.DropTimeCounts` | stg_graph_plot.py:490 | dropping a label removes every sample at that time stamp and keeps every other sample as often as it occurred |
| `Merge.WithDeltas` | stg_graph_plot.py:492 | the first delta is undefined, every other delta is the gap to the previous row, and the samples are unchanged |
| `Merge.DeltasRebuildTimes` | stg_graph_plot.py:492 | summing the deltas from the first row rebuilds every time stamp |
| `Merge.Merge` | stg_graph_plot.py:475-492 | the merged series is sorted, repeat-free, has the gaps as deltas, and holds once each every input sample not at the earliest time stamp |
| `Merge.LoadBatch` | stg_graph_plot.py:404-492 | a loaded series is sorted, repeat-free and carries gap deltas |
| `Merge.LoadBatchOutcome` | stg_graph_plot.py:404-492 | a load succeeds exactly when files were selected, every first line passes and some body line survives cleaning; it then carries the first file's target and holds, once each, every cleaned sample not at the earliest time stamp |
| `Merge.HeaderErrorsComeFirst` | stg_graph_plot.py:404-461 | a batch rejected on its first lines is rejected with the same error whatever its bodies hold |
| `Resample.ParseRule` | stg_graph_plot.py:26-42 | a code names a rule exactly when it is `org` or a count of digits followed by one of the unit letters S, T, H, D; `org` is the raw series, and a bucket rule's width is the count times the unit's seconds |
| `Resample.CountThenUnit` | stg_graph_plot.py:26-42 | any count followed by a unit letter reads as a bucket rule of the count times the unit's seconds |
| `Resample.RuleOfMenu` | stg_graph_plot.py:26-42 | exactly the menu's entries select a rule, the rule an entry selects is the one its label names, and a selected bucket width divides a day |
| `Aggregate.MenuRequestValid` | stg_graph_plot.py:524 | every interval the menu offers makes a valid aggregation request |
| `Resample.MeanTimesAreValid` | stg_graph_plot.py:26-42 | each code in the table selects the width its label names (`org`, then 10, 15, 30, 60, 120, 300, 600, 900, 1800, 3600, 10800, 21600, 43200 and 86400 seconds), and every bucket width divides a day |
| `Resample.BucketOf` | stg_graph_plot.py:531 | a time stamp's bucket label is the multiple of the width at or below it, less than one width away |
| `Resample.Resample` | stg_graph_plot.py:531 | one bucket per multiple of the width from the first sample's bucket to the last sample's, each holding the sums of recv, send and delta over its window |
| `Resample.ResampleCovers` | stg_graph_plot.py:531 | every multiple of the width between the first and last label is a label, and every sample lies in some bucket |
| `Resample.ResampleConserves` | stg_graph_plot.py:531 | the column totals of the buckets equal those of the input, an undefined delta counting as zero |
| `Resample.ResampleSorted` | stg_graph_plot.py:531 | the labels increase strictly |
| `Resample.BucketWithinDay` | stg_graph_plot.py:26-42 | with a width that divides a day, no bucket crosses midnight |
| `Resample.Apply` | stg_graph_plot.py:527-531 | `org` leaves the series unchanged and a bucket rule gives the series resampled at that width; any rule keeps it sorted, keeps the column totals and never puts a bucket across midnight |
| `Resample.FirstFromBounds` | stg_graph_plot.py:535 | the position found by the date slice is preceded only by rows earlier than the bound and, on a sorted series, followed only by rows at or after it |
| `Resample.SliceDates` | stg_graph_plot.py:535 | the date slice keeps exactly the rows whose calendar date lies in the range, in order |
| `Resample.SliceIsFilter` | stg_graph_plot.py:535 | on a sorted series the block between the two midnights is the date filter |
| `Throughput.UnitOf` | stg_graph_plot.py:538-545 | only the four unit names select a divisor, and the name read back is the one given |
| `Throughput.Rate` | stg_graph_plot.py:549-550 | the rate is undefined exactly when the gap is undefined or zero, and is otherwise the floor of bits per second |
| `Throughput.Scaled` | stg_graph_plot.py:549-550 | the rate in a unit times the divisor is the rate in bits per second |
| `Throughput.FirstMax` | stg_graph_plot.py:557-560 | the position found holds the largest defined value, and no earlier position holds the same value |
| `Throughput.FirstMaxUnique` | stg_graph_plot.py:557-560 | only one position has that property |
| `Throughput.ScalingKeepsFirstMax` | stg_graph_plot.py:549-560 | dividing a column by a positive amount does not move the first maximum |
| `Format.Thousandths` | stg_graph_plot.py:563-565 | the value is rounded to the nearest thousandth, ties up |
| `Format.ThousandthsNearest` | stg_graph_plot.py:563-565 | no other count of thousandths is closer to the value |
| `Format.MaxText` | stg_graph_plot.py:563-568 | Mbps and Gbps show the `:,`-grouped whole units, a point and three digits that read back as the rounded thousandths; bps and kbps show the `:,`-grouped truncated value, without a point |
| `Format.MaxLine` | stg_graph_plot.py:572-573 | a line is the caption, the value right-aligned in the field, the unit and the time in parentheses |
| `Format.MaxLines` | stg_graph_plot.py:570-573 | each line is its caption, its value right-aligned with spaces in a field as wide as the longer of the two values, the unit and the time in parentheses; the longer value is not padded |
| `Format.MaxLinesAlign` | stg_graph_plot.py:570-573 | the unit names line up, and the longer value is not padded |
| `Clock.MonthOf` | stg_graph_plot.py:559 | a day of the year falls in a month and a day within that month's length |
| `Clock.DateOf` | stg_graph_plot.py:559 | a day number's calendar date is valid and numbers back to the same day |
| `Clock.DateRoundTrip` | stg_graph_plot.py:559 | a valid date numbered and read back is the same date |
| `Clock.DayNumberInjective` | stg_graph_plot.py:559 | two valid dates with the same day number are the same date |
| `Clock.MomentOf` | stg_graph_plot.py:559 | the printed fields of a time stamp are in range and rebuild the stamp |
| `Clock.RepresentableYears` | stg_graph_plot.py:559 | every stamp a pandas index can hold has a four-digit year |
| `Clock.TimestampText` | stg_graph_plot.py:559 | `str(ts)` is the 19-character whole-second text, followed by `.` and six digits exactly when the microsecond part is not zero |
| `Clock.StripFraction` | stg_graph_plot.py:559 | the substitution removes a final `.digits` when there is one and leaves the text alone otherwise |
| `Clock.FractionPosition` | stg_graph_plot.py:559 | the pattern can match at only one position |
| `Clock.StripFractionOfStamp` | stg_graph_plot.py:559 | stripping a stamp's text leaves its whole-second text, with or without a fraction |
| `Clock.CutStamp` | stg_graph_plot.py:501-502 | the text as written is the stamp's text without its last seven characters |
| `Clock.SevenCharacterCut` | stg_graph_plot.py:501-502 | the cut is the whole-second text when there is a fraction, and loses `:MM:SS` and a digit of the hour when there is none |
| `Clock.SummaryStamp` | stg_graph_plot.py:501-502 | the start and end stamps, with the fraction removed the way line 559 does it, are always the whole-second text |
| `Aggregate.RateColumn` | stg_graph_plot.py:549-550 | a row has a rate exactly when its gap is defined and positive, and the rate is its floored bits per second in the unit |
| `Aggregate.UnitKeepsPeakRow` | stg_graph_plot.py:549-560 | the unit does not change which row first reaches the maximum |
| `Aggregate.PeakOf` | stg_graph_plot.py:557-560 | the reported rate is at least every defined rate, and the reported time is that of the first row reaching it |
| `Aggregate.Selected` | stg_graph_plot.py:527-535 | the selected series is the interval rule applied, then filtered to the date range |
| `Aggregate.Aggregate` | stg_graph_plot.py:520-575 | the view exists exactly when some selected row has a rate; it holds the selected series, its rate columns, both peaks and the two aligned lines |
| `Aggregate.FirstBucketNotFinite` | stg_graph_plot.py:527-550 | summing into buckets turns the first row's undefined delta into a zero gap with positive bytes, so the one-minute view can hold a row with an infinite rate |
| `Aggregate.AggregatePeaksInUnit` | stg_graph_plot.py:555-560 | in the displayed unit, the reported time is that of the first row reaching the column's maximum |
| `Aggregate.RawFullRange` | stg_graph_plot.py:527-535 | raw data over a range holding every row is the whole series |
| `Aggregate.Period` | stg_graph_plot.py:510 | the offered dates are the days holding a row, each once, in increasing order |
| `Aggregate.NumberLine` | stg_graph_plot.py:504-506 | a summary line is its caption, then the `:,`-grouped number, which reads back, then its suffix |
| `Aggregate.FileSummary` | stg_graph_plot.py:497-507 | the summary fails on an empty series or one without rates; otherwise it shows the first and last whole-second stamps, then the row count and the two maxima with `:,` thousands separators, each reading back as its value |
| `Aggregate.FileSummaryStamps` | stg_graph_plot.py:501-502 | the start and end lines equal the code's `str(ts)[:-7]` lines exactly when the stamp has a sub-second part |

## Left out

- The tkinter widgets, menus, button states, threading and the `ExecTime` timer are not modelled. They are interface and wall-clock code.
- Opening files and decoding them as UTF-8 or SHIFT-JIS are not modelled. A first line is given as decoded text, as "not UTF-8" or as "cannot open". Bodies are given as parsed rows.
- `pd.to_datetime` is not modelled. It is a parameter `parse` from date text to a time stamp; only the Avg→Aug fix before it is modelled.
- The message texts and dialogs of the header errors are not modelled. An error carries its kind, the file's position and the file's name.
- `os.chdir`, the CSV export and all plotting are not modelled. They are I/O and rendering.
- The `取得間隔` line of the file summary is not modelled. It formats floats with `:,.2`.
- Float behaviour is not modelled. Rates are exact rationals here, and `:,.3f` is modelled as rounding the exact quotient to the nearest thousandth with ties going up. Python rounds the nearest binary float instead, which can differ at ties.
- Scaling a column to a unit is exact here, so the row of the maximum never moves. In floats, two close large rates could collapse to the same value and make an earlier row the reported one.
- A zero gap with positive bytes is not modelled: pandas yields an infinite rate. `Aggregate.Aggregate` and `Aggregate.FileSummary` require that no such row is present.
- `Aggregate.Aggregate`: does not cover a bucketed selection whose first bucket holds only the first loaded row. That row's undefined delta sums to 0 while its bytes are positive, so the bucket has a zero gap. This is the one-minute, Mbps view shown right after a load whenever the first minute holds one sample. The source shows an infinite maximum in Mbps and Gbps and raises `OverflowError` at `int(inf)` in bps and kbps. Infinite rates are not modelled, so the requires excludes the case; `Aggregate.FirstBucketNotFinite` exhibits such an input.
- `Aggregate.Aggregate` and `Aggregate.FileSummary` require time stamps a pandas index can hold (about 1677 to 2262), because only those print with a four-digit year.
- A selection with no defined rate is not modelled as a crash. The source raises at the maximum lookup or at `int(NaN)`; the model returns an error value there.
- Nanosecond time stamps are not modelled. Time stamps have microsecond resolution, so `str(ts)` never shows nine fractional digits.
- Leading and trailing spaces in a `from`/`to` entry are not modelled, and neither is the combobox correction. The range is given as two day numbers.
- Python's `\d` also matches non-ASCII digits, and its `$` also matches just before a final `'\n'`, so `re.sub(r'\.\d+$', '', s)` turns `"12:00:00.5\n"` into `"12:00:00\n"`; `Clock.StripFraction` matches ASCII digits at the very end only. The pattern is only ever applied to a stamp's text, which holds ASCII digits and no line break, so the two agree there.
- `Aggregate.FileSummary`: shows the corrected whole-second stamps, not the code's `str(ts)[:-7]`, which cuts a whole-second stamp to `YYYY-MM-DD H` (see "## Findings"); `Aggregate.FileSummaryStamps` states when the two agree.
- An empty merge is not modelled as a crash. The source raises `IndexError` at `df.index[0]` before the drop; `Merge.LoadBatch` returns `NoSamples` instead.
- An empty series in the file summary is not modelled as a crash. The source raises at `index[0]`; `Aggregate.FileSummary` returns `NoRows` instead.
- A menu entry outside `MEAN_TIMES` raises `KeyError` in the source; `Resample.RuleOf` returns no rule. The combobox offers only the table's entries.
- `Merge.Concat`: states only that every kept line is in the concatenation, not the exact order. `Merge.CleanFileAppend` states the order file by file.

## Findings

| source | as written | input that shows it | evidently intended | confidence | as-written member | corrected member |
|---|---|---|---|---|---|---|
| stg_graph_plot.py:501-502 | `str(ts)[:-7]` cuts seven characters, assuming a `.ffffff` part | any stamp with no sub-second part, e.g. `2023-08-01 12:34:56` shows as `2023-08-01 1` | drop only the fraction, as line 559 does with `re.sub(r'\.\d+$', '', ...)` | not executed; medium, depends on whether the logs' dates carry sub-second parts | `Clock.CutStamp` (`Clock.SevenCharacterCut`) | `Clock.SummaryStamp` (`Clock.StripFractionOfStamp`) |
