/**
 * The compute phase of `main.c` on the real data structures: the N×N `distance_calculated`
 * matrix as an `array2<bool>`, the worker loop, the thread body `main_thread`, the
 * create/join loops (taken as one worker after another) and the aggregation pass.
 *
 * The angular distance of stars `i` and `j` is the parameter `dist(i, j)`.
 */
module Engine {
  import opened Partition
  import opened Tracker
  import opened Stats

  /** The contents of the matrix as a value. */
  ghost function Cells(m: array2<bool>): (g: Grid)
    reads m
    ensures |g| == m.Length0 && forall i :: 0 <= i < |g| ==> |g[i]| == m.Length1
  {
    seq(m.Length0, (i: int) requires 0 <= i < m.Length0 reads m =>
      seq(m.Length1, (j: int) requires 0 <= j < m.Length1 reads m => m[i, j]))
  }

  /** Cell `(i, j)` of the value is element `[i, j]` of the matrix. */
  lemma CellsMatch(m: array2<bool>)
    ensures forall i, j :: 0 <= i < m.Length0 && 0 <= j < m.Length1 ==> Cells(m)[i][j] == m[i, j]
  {
  }

  lemma GridsEqual(g: Grid, h: Grid)
    requires IsSquare(g) && IsSquare(h) && |g| == |h|
    requires forall a, b :: 0 <= a < |g| && 0 <= b < |g| ==> g[a][b] == h[a][b]
    ensures g == h
  {
    forall a | 0 <= a < |g|
      ensures g[a] == h[a]
    {
    }
  }

  /* ---------------------------------------------------------------- */
  /* Workers run one after another                                     */
  /* ---------------------------------------------------------------- */

  predicate ValidRanges(rs: seq<(int, int)>, n: int)
  {
    forall k :: 0 <= k < |rs| ==> 0 <= rs[k].0 <= rs[k].1 <= n
  }

  /** The matrix after workers over the ranges `rs` have run, in order. */
  function Workers(g: Grid, rs: seq<(int, int)>): (h: Grid)
    requires IsSquare(g) && ValidRanges(rs, |g|)
    ensures |h| == |g| && IsSquare(h)
    decreases |rs|
  {
    if rs == [] then g
    else Run(Workers(g, rs[..|rs| - 1]), rs[|rs| - 1].0, rs[|rs| - 1].1)
  }

  /** The pairs the workers over the ranges `rs` compute a distance for, in order. */
  function WorkersTrace(g: Grid, rs: seq<(int, int)>): seq<Pair>
    requires IsSquare(g) && ValidRanges(rs, |g|)
    decreases |rs|
  {
    if rs == [] then []
    else
      var init := rs[..|rs| - 1];
      WorkersTrace(g, init) + Trace(Workers(g, init), rs[|rs| - 1].0, rs[|rs| - 1].1)
  }

  /**
   * Workers over ranges that run without gap from row `a` to row `b` leave the same
   * matrix, and compute the same pairs in the same order, as one worker over `a .. b - 1`.
   */
  lemma {:induction false} AbuttingWorkersAreOneRun(g: Grid, rs: seq<(int, int)>, a: int, b: int)
    requires IsSquare(g) && ValidRanges(rs, |g|) && 0 <= a <= b <= |g|
    requires Abutting(rs, a, b)
    ensures Workers(g, rs) == Run(g, a, b)
    ensures WorkersTrace(g, rs) == Trace(g, a, b)
    decreases |rs|
  {
    if rs != [] {
      var init := rs[..|rs| - 1];
      var last := rs[|rs| - 1];
      AbuttingLowerBound(init, a, last.0);
      AbuttingWorkersAreOneRun(g, init, a, last.0);
      RunCompose(g, a, last.0, b);
    }
  }

  lemma {:induction false} AbuttingLowerBound(rs: seq<(int, int)>, a: int, b: int)
    requires Abutting(rs, a, b)
    ensures a <= b
    decreases |rs|
  {
    if rs != [] {
      AbuttingLowerBound(rs[..|rs| - 1], a, rs[|rs| - 1].0);
    }
  }

  /**
   * As written, the `t` workers on a fresh matrix do what one worker over rows
   * `0 .. (n / t) * t - 1` does; they compute `Pairs(n) - Pairs(n % t)` distances.
   */
  lemma SequentialWorkersAsWritten(g: Grid, t: int)
    requires IsSquare(g) && IsFresh(g) && ValidRanges(RowRanges(|g|, t), |g|)
    ensures Workers(g, RowRanges(|g|, t)) == Run(g, 0, Covered(|g|, t))
    ensures WorkersTrace(g, RowRanges(|g|, t)) == Trace(g, 0, Covered(|g|, t))
    ensures |WorkersTrace(g, RowRanges(|g|, t))| ==
              Pairs(|g|) - Pairs(if t >= 1 then |g| % t else |g|)
  {
    var n := |g|;
    var e := Covered(n, t);
    RowRangesAbut(n, t, |RowRanges(n, t)|);
    if t >= 1 {
      TailSize(n, t);
    }
    AbuttingWorkersAreOneRun(g, RowRanges(n, t), 0, e);
    FreshTraceIsUpperPairs(g, e);
    assert n - e == if t >= 1 then n % t else n;
  }

  /** The workers' ranges all lie within `[0, n]`. */
  lemma RowRangesValid(n: nat, t: int)
    ensures ValidRanges(RowRanges(n, t), n)
  {
    var rs := RowRanges(n, t);
    forall k | 0 <= k < |rs|
      ensures 0 <= rs[k].0 <= rs[k].1 <= n
    {
      assert rs[k] == RowRange(n, t, k);
    }
  }

  /**
   * As written, no pair of two rows of the tail `[(n / t) * t, n)` is ever computed or
   * marked, so `Pairs(n % t)` pairs are missing.
   */
  lemma DroppedTailPairs(g: Grid, t: int)
    requires IsSquare(g) && IsFresh(g) && t >= 1
    ensures ValidRanges(RowRanges(|g|, t), |g|)
    ensures forall p :: p in WorkersTrace(g, RowRanges(|g|, t)) ==> p.0 < Covered(|g|, t)
    ensures forall a, b :: Covered(|g|, t) <= a < |g| && Covered(|g|, t) <= b < |g| ==>
              !Workers(g, RowRanges(|g|, t))[a][b]
    ensures |WorkersTrace(g, RowRanges(|g|, t))| + Pairs(|g| % t) == Pairs(|g|)
  {
    var n := |g|;
    var e := Covered(n, t);
    RowRangesValid(n, t);
    SequentialWorkersAsWritten(g, t);
    assert Symmetric(g);
    TraceMembers(g, 0, e);
    RunCells(g, 0, e);
  }

  /** The catalog of 30000 stars on 7 threads: the last 5 rows are dropped, and with them 10 pairs. */
  lemma DroppedTailExample(g: Grid)
    requires IsSquare(g) && IsFresh(g) && |g| == 30000
    ensures Covered(|g|, 7) == 29995
    ensures |WorkersTrace(g, RowRanges(|g|, 7))| == Pairs(|g|) - 10
  {
    DroppedTailPairs(g, 7);
    assert 30000 % 7 == 5;
    assert Pairs(5) == 10;
  }

  /**
   * With the covering ranges, `t` workers on a fresh matrix do exactly what one worker over
   * all rows does, whatever `t` is: every off-diagonal cell ends marked and `n * (n - 1) / 2`
   * distances are computed, the same ones in the same order for every worker count.
   */
  lemma CoveringWorkersCountAllPairs(g: Grid, t: int)
    requires IsSquare(g) && IsFresh(g) && t >= 1
    ensures ValidRanges(CoveringRowRanges(|g|, t), |g|)
    ensures Workers(g, CoveringRowRanges(|g|, t)) == Run(g, 0, |g|)
    ensures WorkersTrace(g, CoveringRowRanges(|g|, t)) == Trace(g, 0, |g|)
    ensures forall a, b :: 0 <= a < |g| && 0 <= b < |g| ==> Workers(g, CoveringRowRanges(|g|, t))[a][b] == (a != b)
    ensures |WorkersTrace(g, CoveringRowRanges(|g|, t))| == |g| * (|g| - 1) / 2
  {
    var n := |g|;
    var rs := CoveringRowRanges(n, t);
    if n > 0 {
      CoveringRangesExact(n, t, 0);
    } else {
      RowRangesAbut(n, t, t - 1);
      assert rs[..t - 1] == RowRanges(n, t)[..t - 1];
    }
    AbuttingWorkersAreOneRun(g, rs, 0, n);
    SingleWorkerMarksAll(g);
  }

  /* ---------------------------------------------------------------- */
  /* The imperative program                                            */
  /* ---------------------------------------------------------------- */

  /**
   * `determineAverageAngularDistance(arr, start, end)`: for each row `i` in `[start, end)`
   * and each column `j`, when `i != j` and `[i][j]` is unmarked, compute the distance,
   * mark `[i][j]` and `[j][i]`, and fold the distance into the shared statistics.
   * It returns the global `dist`, which is never written and so is always 0.0.
   */
  method Worker(tracker: array2<bool>, shared: Shared, dist: (int, int) -> real, start: int, end: int)
    returns (r: real)
    requires tracker.Length0 == tracker.Length1
    requires 0 <= start <= end <= tracker.Length0
    requires shared.Valid()
    modifies tracker, shared
    ensures shared.Valid()
    ensures Cells(tracker) == Run(old(Cells(tracker)), start, end)
    ensures shared.Seen == old(shared.Seen) + Dists(dist, Trace(old(Cells(tracker)), start, end))
    ensures r == 0.0
  {
    ghost var g0 := Cells(tracker);
    ghost var seen0 := shared.Seen;
    assert IsSquare(g0);
    var i := start;
    while i < end
      invariant i <= end
      invariant shared.Valid()
      invariant RowsDone(g0, start, i, Cells(tracker), seen0, shared.Seen, dist)
    {
      ghost var g := Cells(tracker);
      ghost var seen := shared.Seen;
      WorkRow(tracker, shared, dist, i);
      RowsDoneStep(g0, start, i, g, seen0, seen, dist);
      i := i + 1;
    }
    r := shared.dist;
  }

  /**
   * The worker over rows `start .. i - 1` has run on the matrix `g0`, leaving the matrix
   * `g` and the recorded distances `seen` (`seen0` before it).
   */
  ghost predicate RowsDone(g0: Grid, start: int, i: int, g: Grid, seen0: seq<real>, seen: seq<real>,
                           dist: (int, int) -> real)
  {
    IsSquare(g0) && 0 <= start <= i <= |g0| &&
    g == Run(g0, start, i) && seen == seen0 + Dists(dist, Trace(g0, start, i))
  }

  lemma RowsDoneStep(g0: Grid, start: int, i: int, g: Grid, seen0: seq<real>, seen: seq<real>,
                     dist: (int, int) -> real)
    requires RowsDone(g0, start, i, g, seen0, seen, dist) && i < |g0|
    ensures IsSquare(g) && 0 <= i < |g|
    ensures RowsDone(g0, start, i + 1, RowRun(g, i, |g|), seen0, seen + Dists(dist, RowTrace(g, i, |g|)), dist)
  {
    SeenExtend(seen0, dist, Trace(g0, start, i), RowTrace(g, i, |g|));
  }

  /** The inner loop of the worker over the columns `j` of one row `i`. */
  method WorkRow(tracker: array2<bool>, shared: Shared, dist: (int, int) -> real, i: int)
    requires tracker.Length0 == tracker.Length1
    requires 0 <= i < tracker.Length0
    requires shared.Valid()
    modifies tracker, shared
    ensures shared.Valid()
    ensures Cells(tracker) == RowRun(old(Cells(tracker)), i, tracker.Length0)
    ensures shared.Seen == old(shared.Seen) + Dists(dist, RowTrace(old(Cells(tracker)), i, tracker.Length0))
  {
    var n := tracker.Length0;
    ghost var h := Cells(tracker);
    ghost var seen0 := shared.Seen;
    assert IsSquare(h);
    var j := 0;
    while j < n
      invariant j <= n
      invariant shared.Valid()
      invariant ColumnsDone(h, i, j, Cells(tracker), seen0, shared.Seen, dist)
    {
      ghost var g := Cells(tracker);
      ghost var seen := shared.Seen;
      VisitCell(tracker, shared, dist, i, j);
      ColumnsDoneStep(h, i, j, g, seen0, seen, dist);
      j := j + 1;
    }
  }

  /**
   * The inner loop of row `i` has visited columns `0 .. j - 1` of the matrix `h`, leaving
   * the matrix `g` and the recorded distances `seen` (`seen0` before it).
   */
  ghost predicate ColumnsDone(h: Grid, i: int, j: int, g: Grid, seen0: seq<real>, seen: seq<real>,
                              dist: (int, int) -> real)
  {
    IsSquare(h) && 0 <= i < |h| && 0 <= j <= |h| &&
    g == RowRun(h, i, j) && seen == seen0 + Dists(dist, RowTrace(h, i, j))
  }

  lemma ColumnsDoneStep(h: Grid, i: int, j: int, g: Grid, seen0: seq<real>, seen: seq<real>,
                        dist: (int, int) -> real)
    requires ColumnsDone(h, i, j, g, seen0, seen, dist) && j < |h|
    ensures IsSquare(g) && 0 <= i < |g| && 0 <= j < |g|
    ensures ColumnsDone(h, i, j + 1, Visit(g, i, j), seen0,
                        seen + Dists(dist, if Fires(g, i, j) then [(i, j)] else []), dist)
  {
    SeenExtend(seen0, dist, RowTrace(h, i, j), if Fires(g, i, j) then [(i, j)] else []);
  }

  /** One iteration of the inner loop: the test, the two marks and the critical section. */
  method VisitCell(tracker: array2<bool>, shared: Shared, dist: (int, int) -> real, i: int, j: int)
    requires tracker.Length0 == tracker.Length1
    requires 0 <= i < tracker.Length0 && 0 <= j < tracker.Length0
    requires shared.Valid()
    modifies tracker, shared
    ensures shared.Valid()
    ensures Cells(tracker) == Visit(old(Cells(tracker)), i, j)
    ensures shared.Seen == old(shared.Seen) +
              Dists(dist, if Fires(old(Cells(tracker)), i, j) then [(i, j)] else [])
  {
    ghost var h := Cells(tracker);
    CellsMatch(tracker);
    assert IsSquare(h);
    if i != j && !tracker[i, j] {
      var d := dist(i, j);
      tracker[i, j] := true;
      tracker[j, i] := true;
      shared.Record(d);
      CellsMatch(tracker);
      GridsEqual(Cells(tracker), Mark(h, i, j));
      assert Dists(dist, [(i, j)]) == [d];
    }
  }

  /** `main_thread(c)`: compute worker `c`'s row range and run the worker over it. */
  method MainThread(tracker: array2<bool>, shared: Shared, dist: (int, int) -> real, t: int, c: int)
    requires tracker.Length0 == tracker.Length1
    requires t >= 1 && 0 <= c < t
    requires shared.Valid()
    modifies tracker, shared
    ensures shared.Valid()
    ensures Cells(tracker) ==
              Run(old(Cells(tracker)), RowRange(tracker.Length0, t, c).0, RowRange(tracker.Length0, t, c).1)
    ensures shared.Seen == old(shared.Seen) +
              Dists(dist, Trace(old(Cells(tracker)), RowRange(tracker.Length0, t, c).0, RowRange(tracker.Length0, t, c).1))
  {
    var interval := tracker.Length0 / t;
    var start, end := interval * c, interval * (c + 1);
    assert (start, end) == RowRange(tracker.Length0, t, c);
    var _ := Worker(tracker, shared, dist, start, end);
  }

  /**
   * The `pthread_create` / `pthread_join` loops of `main`, with the threads run one after
   * another in index order. With `t <= 0` no thread is started.
   */
  method RunWorkers(tracker: array2<bool>, shared: Shared, dist: (int, int) -> real, t: int)
    requires tracker.Length0 == tracker.Length1
    requires shared.Valid()
    modifies tracker, shared
    ensures ValidRanges(RowRanges(tracker.Length0, t), tracker.Length0)
    ensures shared.Valid()
    ensures Cells(tracker) == Workers(old(Cells(tracker)), RowRanges(tracker.Length0, t))
    ensures shared.Seen == old(shared.Seen) + Dists(dist, WorkersTrace(old(Cells(tracker)), RowRanges(tracker.Length0, t)))
  {
    var n := tracker.Length0;
    ghost var g0 := Cells(tracker);
    ghost var seen0 := shared.Seen;
    ghost var rs := RowRanges(n, t);
    RowRangesValid(n, t);
    assert rs[..0] == [];
    var c := 0;
    while c < t
      invariant shared.Valid()
      invariant Launched(g0, rs, c, Cells(tracker), seen0, shared.Seen, dist)
    {
      ghost var g := Cells(tracker);
      ghost var seen := shared.Seen;
      assert rs[c] == RowRange(n, t, c);
      MainThread(tracker, shared, dist, t, c);
      LaunchStep(g0, rs, c, g, seen0, seen, dist);
      c := c + 1;
    }
    assert rs[..c] == rs;
  }

  /**
   * The threads `0 .. c - 1` over the ranges `rs` have run on the matrix `g0`, leaving the
   * matrix `g` and the recorded distances `seen` (`seen0` before them).
   */
  ghost predicate Launched(g0: Grid, rs: seq<(int, int)>, c: int, g: Grid, seen0: seq<real>, seen: seq<real>,
                           dist: (int, int) -> real)
  {
    IsSquare(g0) && ValidRanges(rs, |g0|) && 0 <= c <= |rs| &&
    g == Workers(g0, rs[..c]) && seen == seen0 + Dists(dist, WorkersTrace(g0, rs[..c]))
  }

  /** Running thread `c` after the threads before it extends what they did by one worker run. */
  lemma LaunchStep(g0: Grid, rs: seq<(int, int)>, c: int, g: Grid, seen0: seq<real>, seen: seq<real>,
                   dist: (int, int) -> real)
    requires Launched(g0, rs, c, g, seen0, seen, dist) && c < |rs|
    ensures 0 <= rs[c].0 <= rs[c].1 <= |g| && IsSquare(g)
    ensures Launched(g0, rs, c + 1, Run(g, rs[c].0, rs[c].1), seen0,
                     seen + Dists(dist, Trace(g, rs[c].0, rs[c].1)), dist)
  {
    WorkersSnoc(g0, rs, c);
    SeenExtend(seen0, dist, WorkersTrace(g0, rs[..c]), Trace(g, rs[c].0, rs[c].1));
  }

  /** The workers over the first `c + 1` ranges are those over the first `c`, then one more. */
  lemma WorkersSnoc(g0: Grid, rs: seq<(int, int)>, c: int)
    requires IsSquare(g0) && ValidRanges(rs, |g0|) && 0 <= c < |rs|
    ensures ValidRanges(rs[..c], |g0|) && ValidRanges(rs[..c + 1], |g0|)
    ensures Workers(g0, rs[..c + 1]) == Run(Workers(g0, rs[..c]), rs[c].0, rs[c].1)
    ensures WorkersTrace(g0, rs[..c + 1]) ==
              WorkersTrace(g0, rs[..c]) + Trace(Workers(g0, rs[..c]), rs[c].0, rs[c].1)
  {
    var next := rs[..c + 1];
    assert next[..c] == rs[..c] && next[c] == rs[c];
  }

  /**
   * The aggregation pass of `main`: scan the cells `i < j` and, for each marked one,
   * add its distance to `distance_sum` and count it.
   */
  method Aggregate(tracker: array2<bool>, dist: (int, int) -> real) returns (count: nat, sum: real)
    requires tracker.Length0 == tracker.Length1
    ensures count == |UpperPairs(Cells(tracker))|
    ensures sum == Sum(Dists(dist, UpperPairs(Cells(tracker))))
  {
    var n := tracker.Length0;
    ghost var g := Cells(tracker);
    assert IsSquare(g);
    sum, count := 0.0, 0;
    var i := 0;
    while i < n
      invariant 0 <= i <= n && Scanned(g, dist, i, count, sum)
    {
      var rowCount, rowSum := ScanRow(tracker, dist, i);
      ScanStep(g, dist, i, count, sum);
      count, sum := count + rowCount, sum + rowSum;
      i := i + 1;
    }
  }

  /** `count` and `sum` hold the marked cells above the diagonal in rows `0 .. i - 1`. */
  ghost predicate Scanned(g: Grid, dist: (int, int) -> real, i: int, count: int, sum: real)
  {
    IsSquare(g) && 0 <= i <= |g| &&
    count == |UpperRows(g, i)| && sum == Sum(Dists(dist, UpperRows(g, i)))
  }

  /** Scanning row `i` adds its marked cells to the count and their distances to the sum. */
  lemma ScanStep(g: Grid, dist: (int, int) -> real, i: int, count: int, sum: real)
    requires Scanned(g, dist, i, count, sum) && i < |g|
    ensures Scanned(g, dist, i + 1, count + |UpperRow(g, i, |g|)|, sum + Sum(Dists(dist, UpperRow(g, i, |g|))))
  {
    SumDistsAppend(dist, UpperRows(g, i), UpperRow(g, i, |g|));
  }

  /** The inner loop of the aggregation pass over the cells `(i, j)`, `i < j`, of row `i`. */
  method ScanRow(tracker: array2<bool>, dist: (int, int) -> real, i: int) returns (count: nat, sum: real)
    requires tracker.Length0 == tracker.Length1 && 0 <= i < tracker.Length0
    ensures count == |UpperRow(Cells(tracker), i, tracker.Length0)|
    ensures sum == Sum(Dists(dist, UpperRow(Cells(tracker), i, tracker.Length0)))
  {
    var n := tracker.Length0;
    ghost var g := Cells(tracker);
    CellsMatch(tracker);
    assert IsSquare(g);
    sum, count := 0.0, 0;
    var j := i + 1;
    while j < n
      invariant j <= n && RowScanned(g, dist, i, j, count, sum)
    {
      RowScannedStep(g, dist, i, j, count, sum);
      if tracker[i, j] {
        sum := sum + dist(i, j);
        count := count + 1;
      }
      j := j + 1;
    }
  }

  /** `count` and `sum` hold the marked cells `(i, x)`, `i < x < j`. */
  ghost predicate RowScanned(g: Grid, dist: (int, int) -> real, i: int, j: int, count: int, sum: real)
  {
    IsSquare(g) && 0 <= i < |g| && i + 1 <= j <= |g| &&
    count == |UpperRow(g, i, j)| && sum == Sum(Dists(dist, UpperRow(g, i, j)))
  }

  lemma RowScannedStep(g: Grid, dist: (int, int) -> real, i: int, j: int, count: int, sum: real)
    requires RowScanned(g, dist, i, j, count, sum) && j < |g|
    ensures g[i][j] ==> RowScanned(g, dist, i, j + 1, count + 1, sum + dist(i, j))
    ensures !g[i][j] ==> RowScanned(g, dist, i, j + 1, count, sum)
  {
    if g[i][j] {
      assert UpperRow(g, i, j + 1) == UpperRow(g, i, j) + [(i, j)];
      SumDistsSnoc(dist, UpperRow(g, i, j), (i, j));
    } else {
      assert UpperRow(g, i, j + 1) == UpperRow(g, i, j);
    }
  }

  /** What the program computes and prints, before the final division `distance_sum / count`. */
  datatype Report = Report(workerCount: nat, pairCount: nat, distanceSum: real, min: Bound, max: Bound)

  /** An unmarked `n × n` matrix as a value. */
  function Zero(n: nat): (g: Grid)
    ensures |g| == n && IsSquare(g) && IsFresh(g)
  {
    seq(n, _ => seq(n, _ => false))
  }

  /**
   * The compute phase of `main` for `n` stars and `num_threads == t`: a fresh matrix, the
   * workers one after another, then the aggregation pass.
   * The aggregator's count agrees with the workers' `count`; the pairs are those `(i, j)`,
   * `i < j`, whose smaller index some worker owns; `min`, `max` and the sum are taken over
   * their distances.
   */
  method FindAngular(n: nat, t: int, dist: (int, int) -> real) returns (rep: Report)
    ensures rep.pairCount == rep.workerCount
    ensures rep.pairCount == Pairs(n) - Pairs(n - Covered(n, t))
    ensures t >= 1 && n % t <= 1 ==> rep.pairCount == n * (n - 1) / 2
    ensures t <= 0 ==> rep.pairCount == 0 && rep.min == Unset && rep.max == Unset
    ensures var ps := Trace(Zero(n), 0, Covered(n, t));
            && (forall p :: p in ps <==> 0 <= p.0 < Covered(n, t) && p.0 < p.1 < n)
            && rep.distanceSum == Sum(Dists(dist, ps))
            && rep.min == Least(Dists(dist, ps))
            && rep.max == Greatest(Dists(dist, ps))
    ensures rep.pairCount > 0 ==> rep.min.Val? && rep.max.Val? && rep.min.value <= rep.max.value
  {
    var tracker := new bool[n, n]((i, j) => false);
    CellsMatch(tracker);
    GridsEqual(Cells(tracker), Zero(n));
    var shared := new Shared();
    RunWorkers(tracker, shared, dist, t);
    var count, sum := Aggregate(tracker, dist);
    rep := Report(shared.count, count, sum, shared.min, shared.max);
    CompletePass(n, t, dist, Cells(tracker), shared.Seen, rep);
  }

  /**
   * What the program reports once the workers have run on a fresh matrix and the
   * aggregation pass has scanned the result.
   */
  lemma CompletePass(n: nat, t: int, dist: (int, int) -> real, h: Grid, seen: seq<real>, rep: Report)
    requires ValidRanges(RowRanges(n, t), n)
    requires h == Workers(Zero(n), RowRanges(n, t))
    requires seen == Dists(dist, WorkersTrace(Zero(n), RowRanges(n, t)))
    requires rep.workerCount == |seen| && rep.min == Least(seen) && rep.max == Greatest(seen)
    requires rep.pairCount == |UpperPairs(h)| && rep.distanceSum == Sum(Dists(dist, UpperPairs(h)))
    ensures rep.pairCount == rep.workerCount
    ensures rep.pairCount == Pairs(n) - Pairs(n - Covered(n, t))
    ensures t >= 1 && n % t <= 1 ==> rep.pairCount == n * (n - 1) / 2
    ensures t <= 0 ==> rep.pairCount == 0 && rep.min == Unset && rep.max == Unset
    ensures var ps := Trace(Zero(n), 0, Covered(n, t));
            && (forall p :: p in ps <==> 0 <= p.0 < Covered(n, t) && p.0 < p.1 < n)
            && rep.distanceSum == Sum(Dists(dist, ps))
            && rep.min == Least(Dists(dist, ps))
            && rep.max == Greatest(Dists(dist, ps))
    ensures rep.pairCount > 0 ==> rep.min.Val? && rep.max.Val? && rep.min.value <= rep.max.value
  {
    var ps := Trace(Zero(n), 0, Covered(n, t));
    AsWrittenPairs(n, t);
    assert seen == Dists(dist, ps) && UpperPairs(h) == ps;
    PairCountCases(n, t);
    if rep.pairCount > 0 {
      MinNotAboveMax(seen);
    }
  }

  /**
   * The workers as written on a fresh `n × n` matrix compute the pairs `(i, j)`, `i < j`,
   * whose smaller index is below `Covered(n, t)`, and the aggregation pass finds exactly
   * those pairs, in the same order.
   */
  lemma AsWrittenPairs(n: nat, t: int)
    ensures ValidRanges(RowRanges(n, t), n)
    ensures var ps := Trace(Zero(n), 0, Covered(n, t));
            && WorkersTrace(Zero(n), RowRanges(n, t)) == ps
            && UpperPairs(Workers(Zero(n), RowRanges(n, t))) == ps
            && |ps| == Pairs(n) - Pairs(n - Covered(n, t))
            && (forall p :: p in ps <==> 0 <= p.0 < Covered(n, t) && p.0 < p.1 < n)
  {
    var g := Zero(n);
    var e := Covered(n, t);
    RowRangesValid(n, t);
    if t >= 1 {
      TailSize(n, t);
    }
    assert |g| == n && e <= n;
    SequentialWorkersAsWritten(g, t);
    FreshTraceIsUpperPairs(g, e);
    assert |Trace(g, 0, e)| == Pairs(n) - Pairs(n - e);
    TraceMembers(g, 0, e);
  }

  /** With at most one tail row every pair is counted; with no thread none is. */
  lemma PairCountCases(n: nat, t: int)
    ensures t >= 1 && n % t <= 1 ==> Pairs(n) - Pairs(n - Covered(n, t)) == n * (n - 1) / 2
    ensures t <= 0 ==> Pairs(n) - Pairs(n - Covered(n, t)) == 0
  {
    PairsFormula(n);
    if t >= 1 {
      TailSize(n, t);
      if n % t <= 1 {
        assert Pairs(n % t) == 0;
      }
    }
  }
}
