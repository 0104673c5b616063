/**
 * The `distance_calculated` matrix of `main.c` as a value (`Grid`), the worker's
 * marking loop and the aggregator's upper-triangle scan as functions of it, and
 * what they promise: symmetry, the cells a worker may touch, one count per pair.
 *
 * `g[i][j]` is `true` once the pair `(i, j)` is marked (the source stores 1 in a byte).
 */
module Tracker {

  type Grid = seq<seq<bool>>
  type Pair = (int, int)

  /** `|g| × |g|`: N rows of N cells. */
  predicate IsSquare(g: Grid)
  {
    forall i :: 0 <= i < |g| ==> |g[i]| == |g|
  }

  predicate Symmetric(g: Grid)
    requires IsSquare(g)
  {
    forall a, b :: 0 <= a < |g| && 0 <= b < |g| ==> g[a][b] == g[b][a]
  }

  /** The state after `memset(distance_calculated, 0, ...)`: nothing marked. */
  predicate IsFresh(g: Grid)
    requires IsSquare(g)
  {
    forall a, b :: 0 <= a < |g| && 0 <= b < |g| ==> !g[a][b]
  }

  /* ---------------------------------------------------------------- */
  /* The worker loop of determineAverageAngularDistance                */
  /* ---------------------------------------------------------------- */

  /** The worker's test at cell `(i, j)`: `i != j && distance_calculated[i][j] == 0`. */
  predicate Fires(g: Grid, i: int, j: int)
    requires IsSquare(g) && 0 <= i < |g| && 0 <= j < |g|
  {
    i != j && !g[i][j]
  }

  /** Marking a pair writes both `[i][j]` and `[j][i]`, and no other cell. */
  function Mark(g: Grid, i: int, j: int): (h: Grid)
    requires IsSquare(g) && 0 <= i < |g| && 0 <= j < |g|
    ensures |h| == |g| && IsSquare(h)
    ensures forall a, b :: 0 <= a < |g| && 0 <= b < |g| ==>
                           h[a][b] == (g[a][b] || (a == i && b == j) || (a == j && b == i))
  {
    var g1 := g[i := g[i][j := true]];
    g1[j := g1[j][i := true]]
  }

  /** One iteration of the inner loop, at cell `(i, j)`. */
  function Visit(g: Grid, i: int, j: int): (h: Grid)
    requires IsSquare(g) && 0 <= i < |g| && 0 <= j < |g|
    ensures |h| == |g| && IsSquare(h)
  {
    if Fires(g, i, j) then Mark(g, i, j) else g
  }

  /** The matrix after the inner loop of row `i` has visited columns `0 .. j - 1`. */
  function RowRun(g: Grid, i: int, j: int): (h: Grid)
    requires IsSquare(g) && 0 <= i < |g| && 0 <= j <= |g|
    ensures |h| == |g| && IsSquare(h)
    decreases j
  {
    if j == 0 then g else Visit(RowRun(g, i, j - 1), i, j - 1)
  }

  /** The matrix after a worker has run over the rows `s .. e - 1`. */
  function Run(g: Grid, s: int, e: int): (h: Grid)
    requires IsSquare(g) && 0 <= s <= e <= |g|
    ensures |h| == |g| && IsSquare(h)
    decreases e
  {
    if e == s then g else RowRun(Run(g, s, e - 1), e - 1, |g|)
  }

  /** The pairs row `i` computes a distance for, in loop order, over columns `0 .. j - 1`. */
  function RowTrace(g: Grid, i: int, j: int): seq<Pair>
    requires IsSquare(g) && 0 <= i < |g| && 0 <= j <= |g|
    decreases j
  {
    if j == 0 then []
    else RowTrace(g, i, j - 1) + (if Fires(RowRun(g, i, j - 1), i, j - 1) then [(i, j - 1)] else [])
  }

  /** The pairs a worker over rows `s .. e - 1` computes a distance for, in loop order. */
  function Trace(g: Grid, s: int, e: int): seq<Pair>
    requires IsSquare(g) && 0 <= s <= e <= |g|
    decreases e
  {
    if e == s then [] else Trace(g, s, e - 1) + RowTrace(Run(g, s, e - 1), e - 1, |g|)
  }

  /* ---------------------------------------------------------------- */
  /* The aggregation pass of main                                      */
  /* ---------------------------------------------------------------- */

  /** The marked cells `(i, x)` with `i < x < j`, in scan order. */
  function UpperRow(g: Grid, i: int, j: int): seq<Pair>
    requires IsSquare(g) && 0 <= i < |g| && 0 <= j <= |g|
    decreases j
  {
    if j <= i + 1 then []
    else UpperRow(g, i, j - 1) + (if g[i][j - 1] then [(i, j - 1)] else [])
  }

  /** The marked cells above the diagonal in rows `0 .. i - 1`, in scan order. */
  function UpperRows(g: Grid, i: int): seq<Pair>
    requires IsSquare(g) && 0 <= i <= |g|
    decreases i
  {
    if i == 0 then [] else UpperRows(g, i - 1) + UpperRow(g, i - 1, |g|)
  }

  /** All marked cells above the diagonal, in the order the aggregator visits them. */
  function UpperPairs(g: Grid): seq<Pair>
    requires IsSquare(g)
  {
    UpperRows(g, |g|)
  }

  /** The number of unordered pairs of `k` rows: `k * (k - 1) / 2` (see `PairsFormula`). */
  function Pairs(k: nat): nat
  {
    if k == 0 then 0 else Pairs(k - 1) + (k - 1)
  }

  lemma {:induction false} PairsFormula(k: nat)
    ensures 2 * Pairs(k) == k * (k - 1)
    ensures Pairs(k) == k * (k - 1) / 2
  {
    if k > 0 {
      PairsFormula(k - 1);
      assert k * (k - 1) == (k - 1) * (k - 2) + 2 * (k - 1);
    }
  }

  /* ---------------------------------------------------------------- */
  /* What a worker may change                                          */
  /* ---------------------------------------------------------------- */

  /**
   * Row `i`'s inner loop only ever sets cells, and only the off-diagonal cells
   * `[i][x]` and `[x][i]` with `x` among the columns visited so far.
   */
  lemma {:induction false} RowRunFrame(g: Grid, i: int, j: int)
    requires IsSquare(g) && 0 <= i < |g| && 0 <= j <= |g|
    ensures forall a, b :: 0 <= a < |g| && 0 <= b < |g| ==>
              (g[a][b] ==> RowRun(g, i, j)[a][b]) &&
              (RowRun(g, i, j)[a][b] != g[a][b] ==> a != b && ((a == i && b < j) || (b == i && a < j)))
  {
    if j > 0 {
      RowRunFrame(g, i, j - 1);
    }
  }

  /**
   * A worker over rows `s .. e - 1` only sets cells; each cell it sets is off the diagonal
   * and lies in one of its rows or in the mirror image of one; the diagonal and every
   * other cell keep their value.
   */
  lemma {:induction false} RunFrame(g: Grid, s: int, e: int)
    requires IsSquare(g) && 0 <= s <= e <= |g|
    ensures forall a, b :: 0 <= a < |g| && 0 <= b < |g| ==>
              (g[a][b] ==> Run(g, s, e)[a][b]) &&
              (Run(g, s, e)[a][b] != g[a][b] ==> a != b && (s <= a < e || s <= b < e))
  {
    if e > s {
      RunFrame(g, s, e - 1);
      RowRunFrame(Run(g, s, e - 1), e - 1, |g|);
    }
  }

  /* ---------------------------------------------------------------- */
  /* Symmetry                                                          */
  /* ---------------------------------------------------------------- */

  lemma {:induction false} RowRunKeepsSymmetry(g: Grid, i: int, j: int)
    requires IsSquare(g) && 0 <= i < |g| && 0 <= j <= |g|
    requires Symmetric(g)
    ensures Symmetric(RowRun(g, i, j))
  {
    if j > 0 {
      RowRunKeepsSymmetry(g, i, j - 1);
    }
  }

  /** Every mark writes both cells of a pair, so a symmetric matrix stays symmetric. */
  lemma {:induction false} RunKeepsSymmetry(g: Grid, s: int, e: int)
    requires IsSquare(g) && 0 <= s <= e <= |g|
    requires Symmetric(g)
    ensures Symmetric(Run(g, s, e))
  {
    if e > s {
      RunKeepsSymmetry(g, s, e - 1);
      RowRunKeepsSymmetry(Run(g, s, e - 1), e - 1, |g|);
    }
  }

  /**
   * On a symmetric matrix, after row `i` has visited columns `0 .. j - 1`, exactly the
   * off-diagonal cells `[i][x]` and `[x][i]` with `x < j` have been added.
   */
  lemma {:induction false} RowRunCells(g: Grid, i: int, j: int)
    requires IsSquare(g) && 0 <= i < |g| && 0 <= j <= |g|
    requires Symmetric(g)
    ensures forall a, b :: 0 <= a < |g| && 0 <= b < |g| ==>
              RowRun(g, i, j)[a][b] == (g[a][b] || (a != b && ((a == i && b < j) || (b == i && a < j))))
  {
    if j > 0 {
      RowRunCells(g, i, j - 1);
      RowRunKeepsSymmetry(g, i, j - 1);
    }
  }

  /**
   * On a symmetric matrix a worker over rows `s .. e - 1` ends with every off-diagonal
   * cell of its rows, and their mirror images, marked, and nothing else added.
   */
  lemma {:induction false} RunCells(g: Grid, s: int, e: int)
    requires IsSquare(g) && 0 <= s <= e <= |g|
    requires Symmetric(g)
    ensures forall a, b :: 0 <= a < |g| && 0 <= b < |g| ==>
              Run(g, s, e)[a][b] == (g[a][b] || (a != b && (s <= a < e || s <= b < e)))
  {
    if e > s {
      RunCells(g, s, e - 1);
      RunKeepsSymmetry(g, s, e - 1);
      RowRunCells(Run(g, s, e - 1), e - 1, |g|);
    }
  }

  /* ---------------------------------------------------------------- */
  /* Which pairs a worker computes                                     */
  /* ---------------------------------------------------------------- */

  /** On a symmetric matrix row `i` computes `(i, x)` exactly when `x != i` and the cell was unmarked. */
  lemma {:induction false} RowTraceMembers(g: Grid, i: int, j: int)
    requires IsSquare(g) && 0 <= i < |g| && 0 <= j <= |g|
    requires Symmetric(g)
    ensures forall p :: p in RowTrace(g, i, j) <==> p.0 == i && 0 <= p.1 < j && p.1 != i && !g[i][p.1]
  {
    if j > 0 {
      RowTraceMembers(g, i, j - 1);
      RowRunCells(g, i, j - 1);
    }
  }

  /**
   * On a symmetric matrix a worker over rows `s .. e - 1` computes the pair `(x, y)`
   * exactly when `x` is one of its rows, `y != x`, the cell was unmarked before it ran
   * and `y` is not one of its earlier rows (that pair was already computed as `(y, x)`).
   */
  lemma {:induction false} TraceMembers(g: Grid, s: int, e: int)
    requires IsSquare(g) && 0 <= s <= e <= |g|
    requires Symmetric(g)
    ensures forall p :: p in Trace(g, s, e) <==>
              s <= p.0 < e && 0 <= p.1 < |g| && p.0 != p.1 && !g[p.0][p.1] && !(s <= p.1 < p.0)
  {
    if e > s {
      TraceMembers(g, s, e - 1);
      RunCells(g, s, e - 1);
      RunKeepsSymmetry(g, s, e - 1);
      RowTraceMembers(Run(g, s, e - 1), e - 1, |g|);
    }
  }

  /* ---------------------------------------------------------------- */
  /* The aggregator's pairs                                            */
  /* ---------------------------------------------------------------- */

  lemma {:induction false} UpperRowMembers(g: Grid, i: int, j: int)
    requires IsSquare(g) && 0 <= i < |g| && 0 <= j <= |g|
    ensures forall p :: p in UpperRow(g, i, j) <==> p.0 == i && i < p.1 < j && g[i][p.1]
  {
    if j > i + 1 {
      UpperRowMembers(g, i, j - 1);
    }
  }

  lemma {:induction false} UpperRowsMembers(g: Grid, i: int)
    requires IsSquare(g) && 0 <= i <= |g|
    ensures forall p :: p in UpperRows(g, i) <==> 0 <= p.0 < i && p.0 < p.1 < |g| && g[p.0][p.1]
  {
    if i > 0 {
      UpperRowsMembers(g, i - 1);
      UpperRowMembers(g, i - 1, |g|);
    }
  }

  /** The aggregator visits exactly the marked cells `(i, j)` with `i < j`. */
  lemma UpperPairsMembers(g: Grid)
    requires IsSquare(g)
    ensures forall p :: p in UpperPairs(g) <==> 0 <= p.0 < p.1 < |g| && g[p.0][p.1]
  {
    UpperRowsMembers(g, |g|);
  }

  /* ---------------------------------------------------------------- */
  /* count rises by one per newly marked pair                          */
  /* ---------------------------------------------------------------- */

  /** Adding the one upper cell `(lo, hi)` to row `r` adds one pair to that row's scan, if it is in range. */
  lemma {:induction false} UpperRowDelta(g: Grid, h: Grid, r: int, j: int, lo: int, hi: int)
    requires IsSquare(g) && IsSquare(h) && |g| == |h|
    requires 0 <= r < |g| && 0 <= j <= |g| && 0 <= lo < hi < |g|
    requires forall b :: r < b < |g| ==> h[r][b] == (g[r][b] || (r == lo && b == hi))
    requires !g[lo][hi]
    ensures |UpperRow(h, r, j)| == |UpperRow(g, r, j)| + (if r == lo && hi < j then 1 else 0)
  {
    if j > r + 1 {
      UpperRowDelta(g, h, r, j - 1, lo, hi);
    }
  }

  lemma {:induction false} UpperRowsDelta(g: Grid, h: Grid, i: int, lo: int, hi: int)
    requires IsSquare(g) && IsSquare(h) && |g| == |h|
    requires 0 <= i <= |g| && 0 <= lo < hi < |g|
    requires forall a, b :: 0 <= a < b < |g| ==> h[a][b] == (g[a][b] || (a == lo && b == hi))
    requires !g[lo][hi]
    ensures |UpperRows(h, i)| == |UpperRows(g, i)| + (if lo < i then 1 else 0)
  {
    if i > 0 {
      UpperRowsDelta(g, h, i - 1, lo, hi);
      UpperRowDelta(g, h, i - 1, |g|, lo, hi);
    }
  }

  /** On a symmetric matrix one visit adds one upper-triangle pair exactly when it computes a distance. */
  lemma VisitCount(g: Grid, i: int, j: int)
    requires IsSquare(g) && 0 <= i < |g| && 0 <= j < |g|
    requires Symmetric(g)
    ensures |UpperPairs(Visit(g, i, j))| == |UpperPairs(g)| + (if Fires(g, i, j) then 1 else 0)
  {
    if Fires(g, i, j) {
      var lo, hi := if i < j then i else j, if i < j then j else i;
      UpperRowsDelta(g, Mark(g, i, j), |g|, lo, hi);
    }
  }

  lemma {:induction false} RowRunCount(g: Grid, i: int, j: int)
    requires IsSquare(g) && 0 <= i < |g| && 0 <= j <= |g|
    requires Symmetric(g)
    ensures |UpperPairs(RowRun(g, i, j))| == |UpperPairs(g)| + |RowTrace(g, i, j)|
  {
    if j > 0 {
      RowRunCount(g, i, j - 1);
      RowRunKeepsSymmetry(g, i, j - 1);
      VisitCount(RowRun(g, i, j - 1), i, j - 1);
    }
  }

  /**
   * On a symmetric matrix the number of marked unordered pairs grows by exactly the number
   * of distances the worker computes: no pair is computed twice, and none is marked without
   * being computed.
   */
  lemma {:induction false} RunCount(g: Grid, s: int, e: int)
    requires IsSquare(g) && 0 <= s <= e <= |g|
    requires Symmetric(g)
    ensures |UpperPairs(Run(g, s, e))| == |UpperPairs(g)| + |Trace(g, s, e)|
  {
    if e > s {
      RunCount(g, s, e - 1);
      RunKeepsSymmetry(g, s, e - 1);
      RowRunCount(Run(g, s, e - 1), e - 1, |g|);
    }
  }

  /* ---------------------------------------------------------------- */
  /* Running workers one after another                                 */
  /* ---------------------------------------------------------------- */

  /**
   * A worker over rows `a .. b - 1` followed by one over `b .. c - 1` leaves the same matrix,
   * and computes the same pairs in the same order, as one worker over `a .. c - 1`.
   */
  lemma {:induction false} RunCompose(g: Grid, a: int, b: int, c: int)
    requires IsSquare(g) && 0 <= a <= b <= c <= |g|
    ensures Run(Run(g, a, b), b, c) == Run(g, a, c)
    ensures Trace(g, a, c) == Trace(g, a, b) + Trace(Run(g, a, b), b, c)
    decreases c
  {
    if c > b {
      RunCompose(g, a, b, c - 1);
    }
  }

  /* ---------------------------------------------------------------- */
  /* A run from a fresh matrix                                         */
  /* ---------------------------------------------------------------- */

  /** On a fresh matrix, row `i` (one of the first `e`) computes `(i, x)` for every `x > i`, as the aggregator scans them. */
  lemma {:induction false} FreshRowMatchesScan(g: Grid, e: int, i: int, j: int)
    requires IsSquare(g) && IsFresh(g) && 0 <= i < e <= |g| && 0 <= j <= |g|
    ensures RowTrace(Run(g, 0, i), i, j) == UpperRow(Run(g, 0, e), i, j)
    ensures |UpperRow(Run(g, 0, e), i, j)| == if j <= i + 1 then 0 else j - 1 - i
  {
    if j > 0 {
      FreshRowMatchesScan(g, e, i, j - 1);
      RunCells(g, 0, i);
      RunCells(g, 0, e);
      RunKeepsSymmetry(g, 0, i);
      RowRunCells(Run(g, 0, i), i, j - 1);
    }
  }

  /** On a fresh matrix the rows `e ..` that no worker ran hold no marked upper cell. */
  lemma {:induction false} FreshRowUnscanned(g: Grid, e: int, i: int, j: int)
    requires IsSquare(g) && IsFresh(g) && 0 <= e <= i < |g| && 0 <= j <= |g|
    ensures UpperRow(Run(g, 0, e), i, j) == []
  {
    if j > i + 1 {
      FreshRowUnscanned(g, e, i, j - 1);
      RunCells(g, 0, e);
    }
  }

  lemma {:induction false} FreshTracePrefix(g: Grid, e: int, k: int)
    requires IsSquare(g) && IsFresh(g) && 0 <= k <= e <= |g|
    ensures Trace(g, 0, k) == UpperRows(Run(g, 0, e), k)
    ensures |Trace(g, 0, k)| + Pairs(|g| - k) == Pairs(|g|)
  {
    if k > 0 {
      FreshTracePrefix(g, e, k - 1);
      FreshRowMatchesScan(g, e, k - 1, |g|);
    }
  }

  lemma {:induction false} UnscannedRowsAddNothing(g: Grid, e: int, k: int)
    requires IsSquare(g) && IsFresh(g) && 0 <= e <= k <= |g|
    ensures UpperRows(Run(g, 0, e), k) == UpperRows(Run(g, 0, e), e)
    decreases k
  {
    if k > e {
      UnscannedRowsAddNothing(g, e, k - 1);
      FreshRowUnscanned(g, e, k - 1, |g|);
    }
  }

  /**
   * From a fresh matrix, workers over rows `0 .. e - 1` compute exactly the pairs the
   * aggregator later finds marked, in the same order; there are `Pairs(n) - Pairs(n - e)`
   * of them, so rows `e .. n - 1` lose the `Pairs(n - e)` pairs among themselves.
   */
  lemma FreshTraceIsUpperPairs(g: Grid, e: int)
    requires IsSquare(g) && IsFresh(g) && 0 <= e <= |g|
    ensures Trace(g, 0, e) == UpperPairs(Run(g, 0, e))
    ensures |Trace(g, 0, e)| == Pairs(|g|) - Pairs(|g| - e)
  {
    FreshTracePrefix(g, e, e);
    UnscannedRowsAddNothing(g, e, |g|);
  }

  /**
   * A single worker over all rows of a fresh matrix marks every off-diagonal cell and
   * computes `n * (n - 1) / 2` distances, one per unordered pair.
   */
  lemma SingleWorkerMarksAll(g: Grid)
    requires IsSquare(g) && IsFresh(g)
    ensures forall a, b :: 0 <= a < |g| && 0 <= b < |g| ==> Run(g, 0, |g|)[a][b] == (a != b)
    ensures |Trace(g, 0, |g|)| == |g| * (|g| - 1) / 2
  {
    RunCells(g, 0, |g|);
    FreshTraceIsUpperPairs(g, |g|);
    PairsFormula(|g|);
  }
}
