# dcgmi_tui sampling pipeline, modelled in Dafny

dcgmi_tui is a terminal dashboard for one GPU. It runs the `dcgmi dmon` monitor and reads its text output line by line. Each sample line of device 0 becomes a record of eleven metric values, one per catalog name (SMACT … NVLRX). Each value is pushed into that metric's bounded history of the 300 newest samples. Every panel shows p50, p90 and p99 of its metric's strictly positive history values. The PCIe and NVLink throughput metrics show them as byte rates in B/s … TB/s; every other metric shows them as percentages.

This project models that pipeline. It is split into these modules:

- `Catalog` (`catalog.dfy`): the fixed metric catalog and the byte-rate name test.
- `LineParser` (`line_parser.dfy`):
  - the sample-line parser, with a whitespace split over the Unicode White_Space set that Rust's `split_whitespace` uses;
  - the all-or-nothing numeric rule;
  - the dropped entity id.
  - Number parsing is a parameter `parseNum: string -> Option<real>`, a partial function from a token to its value.
- `History` (`history.dfy`):
  - the history table, as a class `MetricHistory` over an array of buffers, updated in place;
  - a ghost record of every value pushed to each buffer;
  - the invariant that each buffer is the newest 300 of those values, in arrival order;
  - one pass of the ingest loop (`IngestRead`).
- `Statistics` (`statistics.dfy`): linear-rank percentile, positive filter, sort, and the p50/p90/p99 summary, over `real`.
- `Units` (`units.dfy`): unit selection for byte rates (powers of 1024), as a unit and a scaled magnitude.
- `Dashboard` (`dashboard.dfy`): what a metric's statistics panel shows.
- `Wrappers` (`wrappers.dfy`): the `Option` type.

The parser (`src/main.rs:85-99`) drops only the token after `GPU`, the entity id, so `GPU 0 5 10 0 0 0 0 0 0 0 0 0` yields `[5, 10, 0, …, 0]`; `LineParser.ExampleRow` proves this.

## Model

| member | source | states |
|---|---|---|
| Catalog.CatalogShape | src/main.rs:23-25 | the catalog has 11 distinct names, and a name is a byte-rate metric exactly when it is one of the last four (PCITX, PCIRX, NVLTX, NVLRX) |
| LineParser.SplitWhitespace | src/main.rs:89 | every token of the split is non-empty and free of whitespace; which tokens a laid-out line yields is stated by SplitInterleave |
| LineParser.SplitBlankPrefix | src/main.rs:89 | leading whitespace of any kind and width does not change the split |
| LineParser.SplitInterleave | src/main.rs:89 | words laid out with any non-empty whitespace runs between them, and optional whitespace before and after, split back into exactly those words, in order |
| LineParser.JoinIsInterleave | src/main.rs:89 | the single-space layout is the layout whose separators are one space between words and nothing at the ends |
| LineParser.SplitJoin | src/main.rs:89 | splitting a single-space layout of tokens gives the same tokens back |
| LineParser.FilterMap | src/main.rs:93 | keeps at most as many values as tokens; keeps all of them exactly when every token parses, and then the values are the parsed tokens in order |
| LineParser.ParseMetricLine | src/main.rs:85-99 | a record is returned exactly when the line starts with "GPU 0", splits into 13 tokens and tokens 1..12 all parse (a single bad token gives None, never a partial record); the record has as many values as the catalog has names, and value i is the parse of token i+2 |
| LineParser.SamplePrefixTokens | src/main.rs:86-89 | a line with the prefix splits into "GPU" followed by a token starting with the entity id 0, which is the token the parser drops |
| LineParser.FormattedLineParses | src/main.rs:85-99 | round trip for column-aligned lines: "GPU", one space, "0" and one numeric token per metric, separated by whitespace runs of any width, parse to exactly those metric values |
| LineParser.ExampleRow | src/main.rs:85-99 | the line "GPU 0 5 10 0 0 0 0 0 0 0 0 0" yields [5, 10, 0, 0, 0, 0, 0, 0, 0, 0, 0] |
| History.PushBounded | src/main.rs:147-151 | one push ends with the pushed value, after the buffer's newest values; it grows the buffer by one while under capacity and keeps its length once at capacity, so it never exceeds the capacity |
| History.PushWindow | src/main.rs:146-152 | pushing onto the newest-300 window of a value stream gives the newest-300 window of the stream extended by that value |
| History.PushAllWindow | src/main.rs:146-152 | any run of pushes onto a window leaves the window of the whole stream: FIFO eviction, oldest first |
| History.PushAllFromEmpty | src/main.rs:139-152 | from an empty buffer, any sequence of pushes leaves the newest min(n, 300) values in arrival order, never more than 300 |
| History.MetricHistory.constructor | src/main.rs:140 | one empty buffer per catalog entry, with the window invariant holding |
| History.MetricHistory.Ingest | src/main.rs:146-152 | value i is appended as the newest value of metric i only; buffers past the record are untouched; every buffer stays the newest 300 of its own values and within 300 |
| History.RecordOf | src/main.rs:144-145 | a read yields a record exactly when it delivered a sample line; failed reads and the end of the stream yield none |
| History.IngestRead | src/main.rs:143-159 | a parsed line is pushed into every metric's history and handed to the logger when logging is on; anything else changes no buffer and sends nothing |
| Statistics.RankBounds | src/main.rs:62 | the rank of a percentile of at most 100 lies within 0..len-1 |
| Statistics.RankMonotone | src/main.rs:62 | a larger percentile never has a smaller rank |
| Statistics.LowIndex | src/main.rs:62-63 | the low index is a valid index and the floor of the rank |
| Statistics.HighIndex | src/main.rs:62-64 | low ≤ high < len, high ≤ low + 1, and high equals low exactly when the rank is whole |
| Statistics.Percentile | src/main.rs:58-71 | 0 for an empty input; the only element for a single one, whatever pct ≤ 100 is; otherwise the linear interpolation between the values at the low and high indices, exceeding the low one by (rank − low) times their difference, hence between them; the first value at pct 0 and the last at pct 100 |
| Statistics.PercentileOfPair | src/main.rs:58-71 | of two values, the percentile lies pct percent of the way from the first to the second |
| Statistics.PercentileInRange | src/main.rs:58-71 | on an ascending input the percentile lies between its neighbours, so within [min, max] |
| Statistics.PercentileMonotone | src/main.rs:58-71 | on an ascending input the percentile never decreases as pct grows |
| Statistics.Positives | src/main.rs:177 | keeps exactly the strictly positive values, each as often as it occurs |
| Statistics.Sort | src/main.rs:178 | the result is ascending and a permutation of the input |
| Statistics.SortedUnique | src/main.rs:178 | two ascending sequences with the same values are equal, so the sorted order depends only on the values |
| Statistics.Summarize | src/main.rs:177-187 | p50, p90 and p99 are the 50th, 90th and 99th percentiles of any ascending arrangement of the positive values; 0 ≤ p50 ≤ p90 ≤ p99; all three are zero exactly when no history value is positive; a positive p50 is at least some positive sample, and a positive p99 is at most some sample |
| Statistics.SummaryBounds | src/main.rs:177-187 | for an ascending arrangement of the positive values, 0 < p50 ≤ p90 ≤ p99, p50 is at least some positive sample and p99 at most some sample |
| Statistics.AnySortingOfPositives | src/main.rs:177-178 | every ascending arrangement of the positive values equals the sorted one, so the sort's tie handling does not matter |
| Statistics.SummaryDependsOnPositiveValues | src/main.rs:177-187 | two histories with the same positive values, counted with multiplicity, have the same summary |
| Statistics.SummaryIgnoresOrder | src/main.rs:177-187 | reordering a history does not change its summary |
| Statistics.SummaryIgnoresNonPositive | src/main.rs:177 | adding a zero or negative sample does not change the summary |
| Units.FormatBytesPerSec | src/main.rs:39-56 | the scaled value times the unit size is the rate; the unit is the largest of KB..TB whose size the rate reaches, else B; B exactly below 1024 and then unscaled; the value is in [1, 1024) for KB..GB and at least 1 for TB |
| Units.FormatMonotone | src/main.rs:39-56 | a larger rate never gets a smaller unit |
| Units.FormatBoundary | src/main.rs:45-54 | 1024 is 1.0 KB/s; 1023.999 stays in unit B with value 1023.999; 0 is value 0 in unit B |
| Dashboard.Display | src/main.rs:203-219 | a statistic is shown as a byte rate exactly for the byte-rate metrics, with the unit and value that the byte-rate formatter picks (scaling back to p), and as p × 100 percent for all others |
| Dashboard.MetricPanel | src/main.rs:170-219 | panel i is titled with the i-th catalog name and shows the p50, p90 and p99 of its history's summary, each as that name displays it |
| Dashboard.PanelOrdered | src/main.rs:177-219 | the last four panels show byte rates whose units never shrink from p50 to p99; the others show percentages that never decrease from p50 to p99 |
| Dashboard.IdlePanel | src/main.rs:179-215 | a metric with no positive sample shows 0.0 % or 0 B/s for all three statistics |

## Left out

- Statistics.Percentile: requires pct ≤ 100. For a larger pct and two or more values the source indexes past the end and panics (with one value the rank is 0 and it returns that value); the program only calls it with 50, 90 and 99.
- Number parsing (`str::parse::<f64>`) is the parameter `parseNum`. Its acceptance of `NaN`, `inf` and other spellings is not modelled.
- f64 arithmetic is modelled as `real`: IEEE rounding in the rank, floor, ceiling, interpolation and unit division is not captured. The `partial_cmp` fallback of the sort (for NaN) is not captured either, since a real has no NaN.
- Units.FormatBytesPerSec: models the unit and the scaled magnitude, not the `{:.2}` / `{:.0}` decimal text.
- Units.FormatBoundary: states the unit and value, not the printed text; the B/s case prints with no decimals, so 1023.999 renders as "1024 B/s".
- Dashboard.Display: models the percentage value p × 100, not its `{:.1}` text.
- History.MetricHistory: the `VecDeque` ring (head index, capacity reservation) is modelled as a sequence per buffer; only contents and order are captured.
- History.IngestRead: models one pass of the outer loop's read step, not the endless loop itself. Each blocking read through `BufReader::lines` is modelled as a `ReadOutcome` value: a line, a failed read, or the end of the monitor's output.
- Spawning `dcgmi` (process I/O) is not part of this model.
- The logger thread, its channel, log file, CSV header and timestamps (concurrency and I/O) are not part of this model. Only the record handed to the channel is modelled, as `IngestRead`'s `sent`.
- The render tick gate (`Instant::elapsed`), the key poll and quit key, terminal setup and teardown, ratatui layout and widgets, the bar glyph set, and the `sqrt` bar scaling with its truncating cast are user interface and wall-clock concerns, not modelled.
- Command-line parsing with clap is not modelled; the sampling interval only feeds the monitor process and the render gate.
