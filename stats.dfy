/**
 * The shared statistics of `main.c`: the globals `count`, `min`, `max` that every worker
 * updates under the mutex, and the global `dist` that the worker returns.
 *
 * Distances are reals. `min` and `max` start "unset": the first distance seen always
 * replaces them, later ones only when strictly smaller (for `min`) or strictly
 * larger (for `max`).
 */
module Stats {
  import opened Tracker

  datatype Bound = Unset | Val(value: real)

  /** `min > d`, with an unset `min` above every distance. */
  predicate Above(b: Bound, d: real)
  {
    b.Unset? || b.value > d
  }

  /** `max < d`, with an unset `max` below every distance. */
  predicate Below(b: Bound, d: real)
  {
    b.Unset? || b.value < d
  }

  /** The running minimum after the distances `s`, folded in order with the strict update. */
  function Least(s: seq<real>): Bound
    decreases |s|
  {
    if s == [] then Unset
    else
      var m := Least(s[..|s| - 1]);
      if Above(m, s[|s| - 1]) then Val(s[|s| - 1]) else m
  }

  /** The running maximum after the distances `s`, folded in order with the strict update. */
  function Greatest(s: seq<real>): Bound
    decreases |s|
  {
    if s == [] then Unset
    else
      var m := Greatest(s[..|s| - 1]);
      if Below(m, s[|s| - 1]) then Val(s[|s| - 1]) else m
  }

  /** `distance_sum` after adding up `s` in order (exact real addition). */
  function Sum(s: seq<real>): real
    decreases |s|
  {
    if s == [] then 0.0 else Sum(s[..|s| - 1]) + s[|s| - 1]
  }

  /** The distances of the pairs `ps`, in order. */
  function Dists(dist: (int, int) -> real, ps: seq<Pair>): (r: seq<real>)
    ensures |r| == |ps|
    decreases |ps|
  {
    if ps == [] then [] else Dists(dist, ps[..|ps| - 1]) + [dist(ps[|ps| - 1].0, ps[|ps| - 1].1)]
  }

  lemma DistsSnoc(dist: (int, int) -> real, ps: seq<Pair>, p: Pair)
    ensures Dists(dist, ps + [p]) == Dists(dist, ps) + [dist(p.0, p.1)]
  {
    assert (ps + [p])[..|ps|] == ps;
  }

  lemma {:induction false} DistsAppend(dist: (int, int) -> real, ps: seq<Pair>, qs: seq<Pair>)
    ensures Dists(dist, ps + qs) == Dists(dist, ps) + Dists(dist, qs)
    decreases |qs|
  {
    if qs == [] {
      assert ps + qs == ps;
    } else {
      var init := qs[..|qs| - 1];
      assert ps + qs == (ps + init) + [qs[|qs| - 1]];
      DistsSnoc(dist, ps + init, qs[|qs| - 1]);
      DistsAppend(dist, ps, init);
    }
  }

  /** Recording the distances of `ps` and then of `qs` records those of `ps + qs`. */
  lemma SeenExtend(seen: seq<real>, dist: (int, int) -> real, ps: seq<Pair>, qs: seq<Pair>)
    ensures (seen + Dists(dist, ps)) + Dists(dist, qs) == seen + Dists(dist, ps + qs)
  {
    DistsAppend(dist, ps, qs);
  }

  /** Adding one more pair's distance to the running sum. */
  lemma SumDistsSnoc(dist: (int, int) -> real, ps: seq<Pair>, p: Pair)
    ensures Sum(Dists(dist, ps + [p])) == Sum(Dists(dist, ps)) + dist(p.0, p.1)
  {
    DistsSnoc(dist, ps, p);
    var ds := Dists(dist, ps) + [dist(p.0, p.1)];
    assert ds[..|ds| - 1] == Dists(dist, ps);
  }

  /** The sum over the distances of `ps + qs` is the sum over `ps` plus the sum over `qs`. */
  lemma SumDistsAppend(dist: (int, int) -> real, ps: seq<Pair>, qs: seq<Pair>)
    ensures Sum(Dists(dist, ps + qs)) == Sum(Dists(dist, ps)) + Sum(Dists(dist, qs))
  {
    DistsAppend(dist, ps, qs);
    SumAppend(Dists(dist, ps), Dists(dist, qs));
  }

  /** The running minimum is unset only before any distance; otherwise it is one of them and no larger than any. */
  lemma {:induction false} LeastIsMinimum(s: seq<real>)
    ensures Least(s).Unset? <==> s == []
    ensures Least(s).Val? ==> Least(s).value in s && forall x :: x in s ==> Least(s).value <= x
    decreases |s|
  {
    if s != [] {
      var init := s[..|s| - 1];
      LeastIsMinimum(init);
      assert s == init + [s[|s| - 1]];
    }
  }

  /** The running maximum is unset only before any distance; otherwise it is one of them and no smaller than any. */
  lemma {:induction false} GreatestIsMaximum(s: seq<real>)
    ensures Greatest(s).Unset? <==> s == []
    ensures Greatest(s).Val? ==> Greatest(s).value in s && forall x :: x in s ==> x <= Greatest(s).value
    decreases |s|
  {
    if s != [] {
      var init := s[..|s| - 1];
      GreatestIsMaximum(init);
      assert s == init + [s[|s| - 1]];
    }
  }

  /** Later distances never raise the minimum, and a distance equal to it leaves it as it was. */
  lemma {:induction false} LeastNonIncreasing(s: seq<real>, t: seq<real>)
    requires Least(s).Val?
    ensures Least(s + t).Val? && Least(s + t).value <= Least(s).value
    ensures (forall x :: x in t ==> Least(s).value <= x) ==> Least(s + t) == Least(s)
    decreases |t|
  {
    if t != [] {
      var init := t[..|t| - 1];
      assert (s + t)[..|s + t| - 1] == s + init;
      assert forall x :: x in init ==> x in t;
      assert t[|t| - 1] in t;
      LeastNonIncreasing(s, init);
    } else {
      assert s + t == s;
    }
  }

  /** Later distances never lower the maximum, and a distance equal to it leaves it as it was. */
  lemma {:induction false} GreatestNonDecreasing(s: seq<real>, t: seq<real>)
    requires Greatest(s).Val?
    ensures Greatest(s + t).Val? && Greatest(s).value <= Greatest(s + t).value
    ensures (forall x :: x in t ==> x <= Greatest(s).value) ==> Greatest(s + t) == Greatest(s)
    decreases |t|
  {
    if t != [] {
      var init := t[..|t| - 1];
      assert (s + t)[..|s + t| - 1] == s + init;
      assert forall x :: x in init ==> x in t;
      assert t[|t| - 1] in t;
      GreatestNonDecreasing(s, init);
    } else {
      assert s + t == s;
    }
  }

  /** Once a distance has been seen, the reported minimum is at most the reported maximum. */
  lemma MinNotAboveMax(s: seq<real>)
    requires s != []
    ensures Least(s).Val? && Greatest(s).Val? && Least(s).value <= Greatest(s).value
  {
    LeastIsMinimum(s);
    GreatestIsMaximum(s);
  }

  /** The sum of a concatenation is the sum of the parts. */
  lemma {:induction false} SumAppend(s: seq<real>, t: seq<real>)
    ensures Sum(s + t) == Sum(s) + Sum(t)
    decreases |t|
  {
    if t == [] {
      assert s + t == s;
    } else {
      var init := t[..|t| - 1];
      assert (s + t)[..|s + t| - 1] == s + init;
      SumAppend(s, init);
    }
  }

  /** One more distance `d` folded into the running minimum and maximum. */
  lemma FoldOne(s: seq<real>, d: real)
    ensures Least(s + [d]) == if Above(Least(s), d) then Val(d) else Least(s)
    ensures Greatest(s + [d]) == if Below(Greatest(s), d) then Val(d) else Greatest(s)
  {
    assert (s + [d])[..|s|] == s;
  }

  /**
   * The shared accumulator: `count`, `min`, `max` and the never-written global `dist`.
   * `Seen` is the sequence of distances recorded so far, in order.
   */
  class Shared {
    var count: nat
    var min: Bound
    var max: Bound
    var dist: real
    ghost var Seen: seq<real>

    ghost predicate Valid()
      reads this
    {
      count == |Seen| && min == Least(Seen) && max == Greatest(Seen) && dist == 0.0
    }

    /** The globals' initial state: nothing counted, `min` and `max` unset, `dist == 0.0`. */
    constructor ()
      ensures Valid() && Seen == []
      ensures count == 0 && min == Unset && max == Unset
    {
      count, min, max, dist := 0, Unset, Unset, 0.0;
      Seen := [];
    }

    /**
     * The critical section of the worker: count one more pair and fold its distance into
     * `min` and `max` with strict comparisons.
     */
    method Record(d: real)
      requires Valid()
      modifies this
      ensures Valid() && Seen == old(Seen) + [d]
      ensures count == old(count) + 1
      ensures min.Val? && min.value <= d && max.Val? && d <= max.value
      ensures old(min).Val? ==> min.value <= old(min).value
      ensures old(max).Val? ==> old(max).value <= max.value
      ensures old(min).Val? && old(min).value <= d ==> min == old(min)
      ensures old(max).Val? && d <= old(max).value ==> max == old(max)
    {
      FoldOne(Seen, d);
      count := count + 1;
      if Above(min, d) {
        min := Val(d);
      }
      if Below(max, d) {
        max := Val(d);
      }
      Seen := Seen + [d];
    }
  }

  /* ---------------------------------------------------------------- */
  /* The initial values of min and max as written                      */
  /* ---------------------------------------------------------------- */

  /** `FLT_MAX`, the largest finite single-precision float: (2 - 2^-23) * 2^127. */
  const FltMax: real := 340282346638528859811704183484516925440.0

  /** `FLT_MIN`, the smallest positive normalised single-precision float: 2^-126. */
  const FltMin: real := 1.0 / 85070591730234615865843651857942052864.0

  /** `min` as the source folds it: starting from `FLT_MAX` rather than from an unset value. */
  function LeastFromFltMax(s: seq<real>): real
    decreases |s|
  {
    if s == [] then FltMax
    else
      var m := LeastFromFltMax(s[..|s| - 1]);
      if m > s[|s| - 1] then s[|s| - 1] else m
  }

  /** `max` as the source folds it: starting from `FLT_MIN` rather than from an unset value. */
  function GreatestFromFltMin(s: seq<real>): real
    decreases |s|
  {
    if s == [] then FltMin
    else
      var m := GreatestFromFltMin(s[..|s| - 1]);
      if m < s[|s| - 1] then s[|s| - 1] else m
  }

  /**
   * Once a distance has been seen, the source's `min` is the true minimum capped at
   * `FLT_MAX`: the two agree whenever the minimum is at most `FLT_MAX`.
   */
  lemma {:induction false} FltMaxMinIsCapped(s: seq<real>)
    requires s != []
    ensures Least(s).Val?
    ensures LeastFromFltMax(s) == if Least(s).value > FltMax then FltMax else Least(s).value
    decreases |s|
  {
    var init := s[..|s| - 1];
    if init != [] {
      FltMaxMinIsCapped(init);
    }
  }

  /**
   * Once a distance has been seen, the source's `max` is the true maximum raised to at
   * least `FLT_MIN`: the two agree exactly when the maximum is at least `FLT_MIN`.
   */
  lemma {:induction false} FltMinMaxIsRaised(s: seq<real>)
    requires s != []
    ensures Greatest(s).Val?
    ensures GreatestFromFltMin(s) == if Greatest(s).value < FltMin then FltMin else Greatest(s).value
    decreases |s|
  {
    var init := s[..|s| - 1];
    if init != [] {
      FltMinMaxIsRaised(init);
    }
  }

  /**
   * When every distance is below `FLT_MIN` (all of them 0.0, for coincident stars), the
   * maximum the source reports is `FLT_MIN`, which is none of the distances.
   */
  lemma FltMinMaxIsNoDistance(s: seq<real>)
    requires s != [] && forall x :: x in s ==> x < FltMin
    ensures GreatestFromFltMin(s) == FltMin
    ensures GreatestFromFltMin(s) !in s
    ensures Greatest(s).Val? && Greatest(s).value in s
  {
    FltMinMaxIsRaised(s);
    GreatestIsMaximum(s);
  }

  /** Two coincident stars: their one distance is 0.0, yet the source reports `max == FLT_MIN`. */
  lemma CoincidentStarsMax()
    ensures Greatest([0.0]) == Val(0.0)
    ensures GreatestFromFltMin([0.0]) == FltMin && FltMin != 0.0
  {
    FltMinMaxIsNoDistance([0.0]);
  }
}
