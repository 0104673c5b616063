/**
 * Row-block partitioning of the catalog for the worker threads (`main_thread`).
 *
 * Worker `c` of `t` gets the half-open row range `[interval * c, interval * (c + 1))`
 * with `interval = n / t` (truncating division; both operands are non-negative
 * here, so C's division and Dafny's agree).
 */
module Partition {

  /** The width every worker's row block has: `NUM_STARS / num_threads`. */
  function Interval(n: nat, t: int): nat
    requires t >= 1
  {
    n / t
  }

  /** The row range `(start, end)` computed by `main_thread` for thread index `c`. */
  function RowRange(n: nat, t: int, c: nat): (r: (int, int))
    requires t >= 1
    ensures r.1 - r.0 == n / t
    ensures c < t ==> 0 <= r.0 <= r.1 <= n
  {
    var interval := Interval(n, t);
    MulMonotone(interval, c + 1, t);
    assert interval * t <= n;
    (interval * c, interval * (c + 1))
  }

  /** The rows some worker owns: `[0, (n / t) * t)`; none at all when there is no worker. */
  function Covered(n: nat, t: int): nat
  {
    if t >= 1 then Interval(n, t) * t else 0
  }

  /** The ranges of the workers `0 .. t - 1`, in thread-index order. */
  function RowRanges(n: nat, t: int): (rs: seq<(int, int)>)
    ensures |rs| == if t >= 1 then t else 0
    ensures forall c :: 0 <= c < |rs| ==> rs[c] == RowRange(n, t, c)
  {
    if t >= 1 then seq(t, (c: int) requires 0 <= c < t => RowRange(n, t, c)) else []
  }

  lemma MulMonotone(k: nat, a: int, b: int)
    ensures a <= b ==> k * a <= k * b
  {
    assert k * b - k * a == k * (b - a);
  }

  /**
   * Consecutive ranges abut (`end` of range `c` is the `start` of range `c + 1`)
   * and ranges of distinct threads never overlap.
   */
  lemma RangesAbutAndDisjoint(n: nat, t: int, c: nat, d: nat)
    requires t >= 1 && c < d
    ensures RowRange(n, t, c).1 == RowRange(n, t, c + 1).0
    ensures RowRange(n, t, c).1 <= RowRange(n, t, d).0
  {
    MulMonotone(n / t, c + 1, d);
  }

  /** Every row below `Covered(n, t)` lies in exactly one worker's range: that of `row / (n / t)`. */
  lemma RowInExactlyOneRange(n: nat, t: int, row: int)
    requires t >= 1 && 0 <= row < Covered(n, t)
    ensures n / t > 0
    ensures var c := row / (n / t);
            c < t && RowRange(n, t, c).0 <= row < RowRange(n, t, c).1
    ensures forall d: nat :: d < t && RowRange(n, t, d).0 <= row < RowRange(n, t, d).1 ==> d == row / (n / t)
  {
    var k := n / t;
    var c := row / k;
    assert k * c <= row < k * (c + 1);
    if c >= t {
      MulMonotone(k, t, c);
      assert false;
    }
    forall d: nat | d < t && RowRange(n, t, d).0 <= row < RowRange(n, t, d).1
      ensures d == c
    {
      if d < c {
        MulMonotone(k, d + 1, c);
      } else if c < d {
        MulMonotone(k, c + 1, d);
      }
    }
  }

  /** The tail `[(n / t) * t, n)` has exactly `n % t` rows. */
  lemma TailSize(n: nat, t: int)
    requires t >= 1
    ensures Covered(n, t) <= n
    ensures n - Covered(n, t) == n % t
  {
    assert n == (n / t) * t + n % t;
  }

  /** The tail `[(n / t) * t, n)` belongs to no worker. */
  lemma TailRowsUncovered(n: nat, t: int, row: int)
    requires t >= 1 && Covered(n, t) <= row < n
    ensures forall c: nat :: c < t ==> !(RowRange(n, t, c).0 <= row < RowRange(n, t, c).1)
  {
    forall c: nat | c < t
      ensures !(RowRange(n, t, c).0 <= row < RowRange(n, t, c).1)
    {
      MulMonotone(n / t, c + 1, t);
    }
  }

  /**
   * `ranges` runs without gap from row `a` to row `b` in order: the first starts at `a`,
   * each ends where the next starts, the last ends at `b`.
   */
  predicate Abutting(rs: seq<(int, int)>, a: int, b: int)
    decreases |rs|
  {
    if rs == [] then a == b
    else rs[|rs| - 1].0 <= rs[|rs| - 1].1 == b && Abutting(rs[..|rs| - 1], a, rs[|rs| - 1].0)
  }

  /** The workers' ranges, taken in thread-index order, run without gap from row 0 to `Covered(n, t)`. */
  lemma {:induction false} RowRangesAbut(n: nat, t: int, k: nat)
    requires k <= |RowRanges(n, t)|
    ensures Abutting(RowRanges(n, t)[..k], 0, if k == 0 then 0 else (n / t) * k)
    ensures k == |RowRanges(n, t)| ==> Abutting(RowRanges(n, t), 0, Covered(n, t))
  {
    var rs := RowRanges(n, t);
    if k > 0 {
      RowRangesAbut(n, t, k - 1);
      assert rs[..k][..k - 1] == rs[..k - 1];
      assert rs[k - 1] == RowRange(n, t, k - 1);
      if k == 1 {
        assert rs[k - 1].0 == 0;
      }
    }
    if k == |rs| {
      assert rs[..k] == rs;
    }
  }

  /**
   * The range policy that covers every row: like `RowRange`, except that the last
   * worker's range is extended to `n`.
   */
  function CoveringRowRange(n: nat, t: int, c: nat): (r: (int, int))
    requires t >= 1
    ensures c < t ==> 0 <= r.0 <= r.1 <= n
    ensures c < t - 1 ==> r == RowRange(n, t, c)
    ensures c == t - 1 ==> r.0 == RowRange(n, t, c).0 && r.1 == n
  {
    var r := RowRange(n, t, c);
    if c == t - 1 then (r.0, n) else r
  }

  function CoveringRowRanges(n: nat, t: int): (rs: seq<(int, int)>)
    requires t >= 1
    ensures |rs| == t
    ensures forall c :: 0 <= c < t ==> rs[c] == CoveringRowRange(n, t, c)
  {
    seq(t, (c: int) requires 0 <= c < t => CoveringRowRange(n, t, c))
  }

  /**
   * With the covering policy the ranges run without gap from row 0 to row `n`, and
   * every row of `[0, n)` lies in exactly one of them.
   */
  lemma CoveringRangesExact(n: nat, t: int, row: int)
    requires t >= 1 && 0 <= row < n
    ensures Abutting(CoveringRowRanges(n, t), 0, n)
    ensures exists c: nat :: c < t && CoveringRowRange(n, t, c).0 <= row < CoveringRowRange(n, t, c).1
    ensures forall c: nat, d: nat ::
              (c < t && d < t &&
               CoveringRowRange(n, t, c).0 <= row < CoveringRowRange(n, t, c).1 &&
               CoveringRowRange(n, t, d).0 <= row < CoveringRowRange(n, t, d).1) ==> c == d
  {
    var rs := CoveringRowRanges(n, t);
    RowRangesAbut(n, t, t - 1);
    assert rs[..t - 1] == RowRanges(n, t)[..t - 1];
    assert Abutting(rs, 0, n);
    if row < (n / t) * (t - 1) {
      // row lies in one of the first t - 1 ranges
      RowInExactlyOneRange(n, t, row);
      var c := row / (n / t);
      assert c < t - 1 by {
        if c >= t - 1 {
          MulMonotone(n / t, t - 1, c);
        }
      }
      assert CoveringRowRange(n, t, c) == RowRange(n, t, c);
    } else {
      assert CoveringRowRange(n, t, t - 1).0 <= row < CoveringRowRange(n, t, t - 1).1;
    }
    forall c: nat, d: nat | c < t && d < t &&
              CoveringRowRange(n, t, c).0 <= row < CoveringRowRange(n, t, c).1 &&
              CoveringRowRange(n, t, d).0 <= row < CoveringRowRange(n, t, d).1
      ensures c == d
    {
      if c < d {
        MulMonotone(n / t, c + 1, d);
      } else if d < c {
        MulMonotone(n / t, d + 1, c);
      }
    }
  }
}
