# findAngular: the pairwise angular-distance engine

`findAngular` (`src/main.c`) reads a catalog of `NUM_STARS = 30000` stars. It computes the
angular distance of every pair of stars and reports their average, minimum and maximum.
This project models its compute phase:

- the row-block partition that gives thread `c` of `num_threads` the rows
  `[interval * c, interval * (c + 1))`, with `interval = NUM_STARS / num_threads`
  (`main_thread`);
- the worker `determineAverageAngularDistance(arr, start, end)`. For every row `i` in
  `[start, end)` and every column `j`, when `i != j` and `distance_calculated[i][j]` is
  still 0, it:
  - computes the distance;
  - marks `[i][j]` and `[j][i]`;
  - under the mutex, counts the pair and lowers `min` and raises `max` with strict
    comparisons;
- the thread create/join loops, taken as the threads running one after another in index
  order. This is one legal schedule of the real program.
- the aggregation pass of `main`. It scans the upper triangle `i < j` of the matrix,
  counting the marked cells and summing their distances.

The number of stars is a parameter `n`, where the source has the constant 30000. The
angular distance of stars `i` and `j` (`calculateAngularDistance` on
`star_array[i]`, `star_array[j]`) is a parameter `dist: (int, int) -> real`.

Modules:

- `Partition` (`partition.dfy`): the range arithmetic, pure integer functions.
- `Tracker` (`tracker.dfy`): the `distance_calculated` matrix as a value
  (`Grid = seq<seq<bool>>`). It gives:
  - the worker's loops as folds (`Visit`, `RowRun`, `Run`);
  - the pairs those loops compute, in loop order (`RowTrace`, `Trace`);
  - the aggregator's scan (`UpperRow`, `UpperRows`, `UpperPairs`);
  - lemmas relating all of these.
- `Stats` (`stats.dfy`): the running `min`/`max`/sum folds (`Least`, `Greatest`, `Sum`). It
  also holds the class `Shared` for the globals `count`, `min`, `max` and `dist` that the
  workers update, and the source's own `FLT_MAX`/`FLT_MIN` folds.
- `Engine` (`engine.dfy`): the imperative program on an `array2<bool>`:
  - the methods `Worker`, `WorkRow`, `VisitCell`, `MainThread`, `RunWorkers`, `Aggregate`,
    `ScanRow` and `FindAngular`;
  - `Workers`/`WorkersTrace`, the specification of several workers in sequence;
  - the findings about the partition.

Each method is proved against the value-level functions. These are the postconditions:

- `Worker` leaves `Cells(tracker) == Run(old(Cells(tracker)), start, end)`. It appends the
  distances of `Trace(old(Cells(tracker)), start, end)` to what `Shared` has seen.
- `Aggregate` returns the size of `UpperPairs(Cells(tracker))` and the sum of its distances.

The properties are lemmas about `Run`, `Trace` and `UpperPairs`.

## Model

| member | source | states |
|---|---|---|
| Partition.Interval | src/main.c:100 | `interval`, the height of every thread's block of rows: `n / t` rounded down. It is defined only for `t >= 1`, since `t = 0` divides by zero. |
| Partition.RowRange | src/main.c:100-103 | Range `c` has width `n / t` (it is `[n/t*c, n/t*(c+1))`). For `c < t` it lies inside `[0, n]`. It needs `t >= 1`, since `t = 0` divides by zero. |
| Partition.RowRanges | src/main.c:186-189 | The threads `0 .. t-1` get the ranges `RowRange(n, t, c)` in index order. There are no ranges when `t <= 0`. |
| Partition.Covered | src/main.c:100-103 | The row where the last thread's range ends: `(n/t)*t`, or 0 when no thread runs (`t <= 0`). The rows from there to `n` are the tail no thread owns. |
| Partition.RangesAbutAndDisjoint | src/main.c:100-103 | Range `c` ends where range `c+1` starts. Every later range starts at or after the end of range `c`, so distinct ranges never overlap. |
| Partition.RowInExactlyOneRange | src/main.c:100-103 | Every row below `(n/t)*t` lies in exactly one thread's range, that of `row / (n/t)`. |
| Partition.TailSize | src/main.c:100-103 | The rows outside every range, `[(n/t)*t, n)`, number exactly `n % t`. |
| Partition.TailRowsUncovered | src/main.c:100-103 | No row of `[(n/t)*t, n)` lies in any thread's range. |
| Partition.RowRangesAbut | src/main.c:186-189 | Taken in thread order, the ranges run without gap from row 0 to row `(n/t)*t`. |
| Partition.CoveringRowRange | src/main.c:100-103 | Corrected partition: the same as `RowRange`, except that the last thread's range ends at `n`. |
| Partition.CoveringRowRanges | src/main.c:186-189 | The corrected ranges of threads `0 .. t-1`, in index order. |
| Partition.CoveringRangesExact | src/main.c:100-103 | The corrected ranges run without gap from 0 to `n`. Every row of `[0, n)` lies in exactly one of them. |
| Tracker.Mark | src/main.c:73-74 | Marking `(i, j)` sets exactly `[i][j]` and `[j][i]`; every other cell stays as it was. |
| Tracker.IsFresh | src/main.c:125 | The matrix after the `memset`: no cell of the `n × n` matrix is marked. |
| Tracker.Fires | src/main.c:69 | The test of line 69: the worker computes, marks and counts `(i, j)` exactly when `i != j` and `[i][j]` is still 0. |
| Tracker.Visit | src/main.c:69-89 | One inner iteration marks `(i, j)` only when `i != j` and the cell is unmarked. The matrix stays `n × n`. |
| Tracker.RowRun | src/main.c:67-90 | The inner loop over the columns of row `i` keeps the matrix `n × n`. Its contents are given by `RowRunCells`. |
| Tracker.Run | src/main.c:65-91 | The worker over rows `s .. e-1` keeps the matrix `n × n`. Its contents are given by `RunCells`. |
| Tracker.RowTrace | src/main.c:67-90 | The pairs `(i, x)` that row `i`'s inner loop computes over columns `0 .. j-1`, in column order: those at which `Fires` holds on the matrix as the earlier columns left it. |
| Tracker.Trace | src/main.c:65-91 | The pairs a worker over rows `[s, e)` computes, in loop order: each row's `RowTrace` on the matrix the earlier rows left. |
| Tracker.UpperRow | src/main.c:200-210 | The pairs the aggregator's inner loop finds in row `i` up to column `j`: the marked `(i, x)` with `i < x < j`, in column order. |
| Tracker.UpperRows | src/main.c:198-211 | The pairs the aggregator finds in rows `0 .. i-1`, row after row. |
| Tracker.UpperPairs | src/main.c:198-211 | The pairs the whole aggregation pass finds, in scan order; its size is the aggregator's `count`. |
| Tracker.Pairs | src/main.c:198-211 | The number of unordered pairs among `k` rows, the number of cells above the diagonal of a `k × k` matrix. Its closed form is `PairsFormula`. |
| Tracker.PairsFormula | src/main.c:198-211 | `Pairs(k)`, the number of unordered pairs of `k` rows, is `k*(k-1)/2`. |
| Tracker.RowRunFrame | src/main.c:67-90 | Row `i`'s loop only sets cells. Any cell it changes is off the diagonal and is `[i][x]` or `[x][i]` for a visited column `x`. |
| Tracker.RunFrame | src/main.c:65-91 | A worker never unmarks a cell and never writes the diagonal. It changes only cells in its rows `[s, e)` or in their mirror images. |
| Tracker.RowRunKeepsSymmetry | src/main.c:73-74 | On a symmetric matrix, row `i`'s loop leaves it symmetric. |
| Tracker.RunKeepsSymmetry | src/main.c:65-91 | A symmetric matrix stays symmetric through a worker, because every mark writes both cells. |
| Tracker.RowRunCells | src/main.c:67-90 | On a symmetric matrix, row `i`'s loop over columns `0 .. j-1` adds exactly the off-diagonal cells `[i][x]`, `[x][i]` with `x < j`. |
| Tracker.RunCells | src/main.c:65-91 | On a symmetric matrix, cell `[a][b]` after a worker over `[s, e)` is marked iff it was marked before, or `a != b` and `a` or `b` is in `[s, e)`. |
| Tracker.RowTraceMembers | src/main.c:67-90 | On a symmetric matrix, row `i` computes the distance of `(i, x)` iff `x != i` and the cell was unmarked. |
| Tracker.TraceMembers | src/main.c:65-91 | On a symmetric matrix, a worker computes `(a, b)` iff three things hold: `a` is one of its rows, `a != b`, and the cell was unmarked. It also needs `b` not to be an earlier row of the same worker, whose pass already computed that pair as `(b, a)`. |
| Tracker.UpperRowMembers | src/main.c:200-210 | The scan of row `i` up to column `j` finds exactly the marked `(i, x)` with `i < x < j`. |
| Tracker.UpperRowsMembers | src/main.c:198-211 | The scan of rows `0 .. i-1` finds exactly the marked `(a, b)` with `a < i` and `a < b`. |
| Tracker.UpperPairsMembers | src/main.c:198-211 | The aggregation pass finds exactly the marked cells above the diagonal. |
| Tracker.UpperRowDelta | src/main.c:200-210 | Marking one more upper cell adds one pair to the scan of its row, and nothing to the scan of any other row. |
| Tracker.UpperRowsDelta | src/main.c:198-211 | Marking one more upper cell adds exactly one pair to the scan of the rows that contain it. |
| Tracker.VisitCount | src/main.c:69-77 | On a symmetric matrix, one inner iteration adds one marked unordered pair exactly when it counts a distance. |
| Tracker.RowRunCount | src/main.c:67-90 | On a symmetric matrix, the marked unordered pairs grow by the number of distances row `i` computes. |
| Tracker.RunCount | src/main.c:65-91 | On a symmetric matrix, the marked unordered pairs grow by exactly the number of distances the worker computes. `count` therefore matches the aggregator. |
| Tracker.RunCompose | src/main.c:186-193 | A worker over `[a, b)` followed by one over `[b, c)` leaves the same matrix as one worker over `[a, c)`. Together they compute the same pairs, in the same order. |
| Tracker.FreshRowMatchesScan | src/main.c:200-210 | On a fresh matrix, owned row `i` computes `(i, x)` for every `x > i`, in the same order the aggregator later finds them. There are `j-1-i` such pairs up to column `j`. |
| Tracker.FreshRowUnscanned | src/main.c:198-211 | On a fresh matrix, a row beyond the workers' rows has no marked upper cell afterwards. |
| Tracker.FreshTracePrefix | src/main.c:198-211 | The first `k` rows' computed pairs are the aggregator's scan of those rows. `Pairs(n-k)` pairs remain. |
| Tracker.UnscannedRowsAddNothing | src/main.c:198-211 | Scanning rows no worker ran adds no pair. |
| Tracker.FreshTraceIsUpperPairs | src/main.c:196-211 | From a fresh matrix, workers over rows `0 .. e-1` compute exactly the pairs the aggregator finds, in the same order. There are `Pairs(n) - Pairs(n-e)` of them. |
| Tracker.SingleWorkerMarksAll | src/main.c:65-90 | One worker over `[0, n)` on a fresh matrix marks every off-diagonal cell and computes `n*(n-1)/2` distances. |
| Stats.Dists | src/main.c:71-72 | The distances of a list of pairs, one per pair, in order. |
| Stats.DistsSnoc | src/main.c:71-72 | One more pair adds its distance at the end. |
| Stats.DistsAppend | src/main.c:71-72 | The distances of two lists of pairs in sequence are the two lists of distances in sequence. |
| Stats.SeenExtend | src/main.c:75-88 | Recording the distances of `ps` and then of `qs` records those of `ps + qs`. |
| Stats.Sum | src/main.c:196-207 | `distance_sum`: 0.0 plus the given distances, added in order. |
| Stats.SumDistsSnoc | src/main.c:207 | `distance_sum += dist` adds one pair's distance to the sum. |
| Stats.SumDistsAppend | src/main.c:207 | The sum over two lists of pairs in sequence is the sum of the two sums. |
| Stats.SumAppend | src/main.c:207 | The sum of a concatenation is the sum of the parts. |
| Stats.Least | src/main.c:79-82 | The value `min` holds after the given distances, each replacing it when `min > d`. It is `Unset` before any distance. |
| Stats.Greatest | src/main.c:84-87 | The value `max` holds after the given distances, each replacing it when `max < d`. It is `Unset` before any distance. |
| Stats.LeastIsMinimum | src/main.c:79-82 | The running minimum is unset iff nothing was seen. Otherwise it is one of the distances seen and at most every one of them. |
| Stats.GreatestIsMaximum | src/main.c:84-87 | The running maximum is unset iff nothing was seen. Otherwise it is one of the distances seen and at least every one of them. |
| Stats.LeastNonIncreasing | src/main.c:79-82 | Later distances never raise `min`. Distances no smaller than it, ties included, leave it unchanged. |
| Stats.GreatestNonDecreasing | src/main.c:84-87 | Later distances never lower `max`. Distances no larger than it, ties included, leave it unchanged. |
| Stats.MinNotAboveMax | src/main.c:79-87 | Once a distance has been seen, `min <= max`. |
| Stats.FoldOne | src/main.c:79-87 | A new distance `d` replaces `min` only when `min > d`, and replaces `max` only when `max < d`. |
| Stats.Shared.Valid | src/main.c:43-46 | The invariant of the globals: `count` is the number of distances recorded, `min` and `max` are `Least` and `Greatest` of them, and `dist` is still 0.0. |
| Stats.Shared.constructor | src/main.c:43-46 | The globals start with `count == 0`, `min` and `max` unset, and `dist == 0.0`. |
| Stats.Shared.Record | src/main.c:75-88 | The critical section keeps `Valid()` and appends `d`, raising `count` by one. It establishes `min <= d <= max` and keeps `min` non-increasing and `max` non-decreasing. A tie leaves them unchanged. |
| Stats.LeastFromFltMax | src/main.c:43 | The as-written `min`: the same strict fold as `Least`, starting at `FLT_MAX`. |
| Stats.GreatestFromFltMin | src/main.c:44 | The as-written `max`: the same strict fold as `Greatest`, starting at `FLT_MIN`. |
| Stats.FltMaxMinIsCapped | src/main.c:43 | With `min` starting at `FLT_MAX` as written, the result is the true minimum capped at `FLT_MAX`. It equals the unset-start minimum whenever that is at most `FLT_MAX`. |
| Stats.FltMinMaxIsRaised | src/main.c:44 | With `max` starting at `FLT_MIN` as written, the result is the true maximum raised to at least `FLT_MIN`. It equals the unset-start maximum exactly when that is at least `FLT_MIN`. |
| Stats.FltMinMaxIsNoDistance | src/main.c:44 | When every distance is below `FLT_MIN`, the source's `max` is `FLT_MIN`, a value that is none of the distances. |
| Stats.CoincidentStarsMax | src/main.c:44 | For the one distance 0.0 (two coincident stars) the true maximum is 0.0, but the source's `max` holds `FLT_MIN`. |
| Engine.Cells | src/main.c:41 | The `n × n` matrix as a value. |
| Engine.Workers | src/main.c:186-193 | Workers over the given ranges, run one after another in order, keep the matrix `n × n`. |
| Engine.WorkersTrace | src/main.c:186-193 | The pairs the threads over the given ranges compute, run one after another in order: each worker's `Trace` on the matrix the earlier ones left. |
| Engine.AbuttingWorkersAreOneRun | src/main.c:186-193 | Threads whose ranges run without gap from `a` to `b` leave the same matrix as one worker over `[a, b)`, and compute the same pairs in the same order. |
| Engine.SequentialWorkersAsWritten | src/main.c:186-193 | From a fresh matrix, the `t` threads as written do what one worker over `[0, (n/t)*t)` does. They compute `Pairs(n) - Pairs(n % t)` distances. With `t <= 0` the subtracted term is `Pairs(n)`, so none are computed. |
| Engine.RowRangesValid | src/main.c:100-103 | Every thread's range lies inside `[0, n]`. |
| Engine.DroppedTailPairs | src/main.c:100-103 | As written, no computed pair starts in the tail `[(n/t)*t, n)`. No cell between two tail rows is ever marked. Exactly `Pairs(n % t)` pairs go uncomputed. |
| Engine.DroppedTailExample | src/main.c:36 | For 30000 stars on 7 threads, rows from 29995 on are owned by no thread, and 10 pairs are never computed. |
| Engine.CoveringWorkersCountAllPairs | src/main.c:100-103 | With the corrected ranges, any `t >= 1` threads mark every off-diagonal cell and compute all `n*(n-1)/2` pairs. They are the pairs one worker over all rows computes, in the same order. |
| Engine.Worker | src/main.c:61-93 | The worker turns the `array2` into `Run(old, start, end)` and records the distances of `Trace(old, start, end)` in order. It returns the untouched global `dist`, 0.0. |
| Engine.RowsDoneStep | src/main.c:65-91 | One more row of the outer loop extends `Run` and `Trace` by that row's inner loop. |
| Engine.WorkRow | src/main.c:67-90 | The inner loop of row `i` turns the `array2` into `RowRun(old, i, n)` and records the distances of `RowTrace(old, i, n)`. |
| Engine.ColumnsDoneStep | src/main.c:67-90 | One more column of the inner loop extends `RowRun` and `RowTrace` by one `Visit`. |
| Engine.VisitCell | src/main.c:69-89 | The test, the two marks and the critical section at `(i, j)` match `Visit`. They record `dist(i, j)` exactly when the cell fires. |
| Engine.MainThread | src/main.c:95-106 | Thread `c` runs the worker over `RowRange(n, t, c)`. |
| Engine.RunWorkers | src/main.c:186-193 | The threads, run in order, leave `Workers(old, RowRanges(n, t))` and record `WorkersTrace` in order. With `t <= 0` nothing runs. |
| Engine.LaunchStep | src/main.c:186-193 | Running thread `c` after threads `0 .. c-1` extends `Workers`/`WorkersTrace` by one worker run. |
| Engine.WorkersSnoc | src/main.c:186-193 | The workers over the first `c+1` ranges are those over the first `c`, then one more. |
| Engine.Aggregate | src/main.c:196-211 | The aggregation pass returns the number of marked cells above the diagonal and the sum of their distances, in scan order. |
| Engine.ScanStep | src/main.c:198-211 | Scanning one more row adds that row's marked upper cells to the count and their distances to the sum. |
| Engine.ScanRow | src/main.c:200-210 | The inner scan of row `i` returns the number of marked `(i, j)`, `j > i`, and the sum of their distances. |
| Engine.RowScannedStep | src/main.c:200-210 | One more column of the scan counts and sums the cell exactly when it is marked. |
| Engine.Zero | src/main.c:125 | The zeroed matrix is `n × n` with nothing marked. |
| Engine.FindAngular | src/main.c:186-211 | The whole compute phase, with the four results listed below. |
| Engine.CompletePass | src/main.c:196-211 | The same statements as `FindAngular`, about the values the methods leave behind. |
| Engine.AsWrittenPairs | src/main.c:186-211 | As written, the threads compute `(i, j)` exactly when `i < j` and `i < (n/t)*t`. The aggregator finds exactly those pairs, in the same order. There are `Pairs(n) - Pairs(n - (n/t)*t)` of them. |
| Engine.PairCountCases | src/main.c:100-103 | The count is `n*(n-1)/2` when `n % t <= 1`, and 0 when `t <= 0`. |

The four results of `Engine.FindAngular`, returned as an `Engine.Report` (the worker count, the aggregator's count, `distance_sum`, `min` and `max` that lines 213-217 print from):

- the aggregator's count equals the workers' `count`;
- that count is `Pairs(n) - Pairs(n % t)`; it is `n*(n-1)/2` when `n % t <= 1`, and 0 with `min`/`max` unset when `t <= 0`;
- `min`, `max` and `distance_sum` are taken over the owned pairs;
- `min <= max` once any pair has been counted.

## Left out

- Threads, the mutex, `pthread_create`/`pthread_join`: the threads are run one after
  another in index order, which is one legal schedule. Interleavings, and the races on the
  matrix cells between threads, are not modelled.
- The global `c`, which every thread writes at `src/main.c:98` before reading it back: the
  model passes the thread index as a parameter.
  A racing thread can make two threads use the same range.
- `calculateAngularDistance` and every floating-point operation: the distance is the
  parameter `dist`, and `double` arithmetic is exact real arithmetic. Rounding in
  `distance_sum += dist` is not modelled.
- Stats.Shared.constructor, Stats.Shared.Record: start `min` and `max` unset instead of at `FLT_MAX`/`FLT_MIN`
  (`src/main.c:43-44`). The as-written folds are `Stats.LeastFromFltMax` and
  `Stats.GreatestFromFltMin`. `Stats.FltMaxMinIsCapped` and `Stats.FltMinMaxIsRaised` state
  exactly when they agree with the unset start. For `min` that is whenever the minimum is
  at most `FLT_MAX`.
- The final division `distance_sum / count` (`src/main.c:213`) is not modelled. Nor is its
  result when `count == 0` (no thread ran). `Engine.Report` carries the count and sum
  instead.
- Reading the catalog file (`src/main.c:140-178`): the stars enter only through `dist`.
- Command-line parsing (`src/main.c:127-138`): `num_threads` is the parameter `t`. The
  global defaults to 0 when `-t` is absent (`thread_count` is never used), so no thread
  runs. The model covers every `t <= 0` as "no thread". A negative `t` is undefined
  behaviour in the source, because it sizes the array `threads`.
- `malloc`, `memset`, `printf`, `clock` and `exit`: the matrix is allocated already zeroed,
  and nothing is printed or timed.
- Integer widths: `count` (`uint64_t`), `i`, `j` (`uint32_t`) and the `int` range bounds
  are unbounded integers. At most `30000 * 29999 / 2` pairs exist, far below 2^64, and the
  row indices are below 30000, so nothing wraps for the source's `NUM_STARS`.

## Findings

| source | as written | input that shows it | evidently intended | confidence | as-written member | corrected member |
|---|---|---|---|---|---|---|
| src/main.c:100-103 | Thread `c` gets `[n/t*c, n/t*(c+1))`, so the last `n % t` rows belong to no thread. The `Pairs(n % t)` pairs among them are never computed, counted or averaged. | `NUM_STARS = 30000`, `-t 7`: rows 29995..29999 are skipped and 10 pairs are lost | The last thread's range extends to `n`, so every pair is computed exactly once | high (proved; not executed) | Engine.DroppedTailPairs | Engine.CoveringWorkersCountAllPairs |
| src/main.c:44 | `max` starts at `FLT_MIN`, the smallest positive float, rather than below every distance | A catalog whose stars are all coincident (every distance 0.0): `max` ends up holding `FLT_MIN` (2^-126), which is none of the distances. The `%lf` of line 217 prints it as `0.000000`, the same text as the true maximum, so the value held differs, not the printed report | `max` starts unset (or at `-FLT_MAX`/0.0), so the first distance always replaces it | high (proved; not executed) | Stats.FltMinMaxIsNoDistance | Stats.GreatestIsMaximum |
