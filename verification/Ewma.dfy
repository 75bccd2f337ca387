/** The adaptive baseline of the EWMA detector, over exact reals: what the recurrence computes,
    how far an observation can stand out from it, and when an anomaly is reported. */
module Ewma {
  import opened Common

  const ALPHA: real := 0.1
  const MIN_SAMPLES: nat := 5

  datatype State = State(mean: real, variance: real, samples: nat)

  function Sq(d: real): real {
    d * d
  }

  function SquaredGap(x: real, m: real): real {
    Sq(x - m)
  }

  function Bootstrap(x: real): State {
    State(x, 0.0, 1)
  }

  function Update(s: State, x: real): State {
    State(s.mean + ALPHA * (x - s.mean), (1.0 - ALPHA) * (s.variance + ALPHA * SquaredGap(x, s.mean)), s.samples + 1)
  }

  /** One observation: bootstrap on the first, the recurrence afterwards. */
  function Observe(prev: Option<State>, x: real): State {
    match prev
    case None => Bootstrap(x)
    case Some(s) => Update(s, x)
  }

  /** The state after a whole history. */
  function Baseline(history: seq<real>): Option<State> {
    if history == [] then None else Some(Observe(Baseline(history[..|history| - 1]), history[|history| - 1]))
  }

  // ---------------------------------------------------------------- the closed form

  function Decay(k: nat): real {
    if k == 0 then 1.0 else (1.0 - ALPHA) * Decay(k - 1)
  }

  /** The weight of observation `i` of `n`: the first keeps the undecayed remainder. */
  function Weight(n: nat, i: nat): real
    requires i < n
  {
    if i == 0 then Decay(n - 1) else ALPHA * Decay(n - 1 - i)
  }

  /** The sum of the first `k` weighted values. */
  function WeightedUpTo(vs: seq<real>, n: nat, k: nat): real
    requires k <= |vs| && k <= n
  {
    if k == 0 then 0.0 else WeightedUpTo(vs, n, k - 1) + Weight(n, k - 1) * vs[k - 1]
  }

  function Weighted(vs: seq<real>): real {
    WeightedUpTo(vs, |vs|, |vs|)
  }

  function Ones(n: nat): (r: seq<real>)
    ensures |r| == n && forall i :: 0 <= i < n ==> r[i] == 1.0
  {
    seq(n, i => 1.0)
  }

  function Deviations(xs: seq<real>, m: real): (r: seq<real>)
    ensures |r| == |xs| && forall i :: 0 <= i < |xs| ==> r[i] == SquaredGap(xs[i], m)
  {
    seq(|xs|, i requires 0 <= i < |xs| => SquaredGap(xs[i], m))
  }

  lemma {:induction false} OlderWeightsDecay(vs: seq<real>, x: real, k: nat)
    requires 0 < |vs| && k <= |vs|
    ensures WeightedUpTo(vs + [x], |vs| + 1, k) == (1.0 - ALPHA) * WeightedUpTo(vs, |vs|, k)
  {
    if k > 0 {
      OlderWeightsDecay(vs, x, k - 1);
      assert (vs + [x])[k - 1] == vs[k - 1];
      assert Weight(|vs| + 1, k - 1) == (1.0 - ALPHA) * Weight(|vs|, k - 1);
      var w, v := Weight(|vs|, k - 1), vs[k - 1];
      assert ((1.0 - ALPHA) * w) * v == (1.0 - ALPHA) * (w * v);
    }
  }

  lemma WeightedStep(vs: seq<real>, x: real)
    requires 0 < |vs|
    ensures Weighted(vs + [x]) == (1.0 - ALPHA) * Weighted(vs) + ALPHA * x
  {
    OlderWeightsDecay(vs, x, |vs|);
    assert (vs + [x])[|vs|] == x;
    assert Decay(0) == 1.0;
  }

  lemma {:induction false} WeightsSumToOne(n: nat)
    requires n > 0
    ensures Weighted(Ones(n)) == 1.0
  {
    if n == 1 {
      assert WeightedUpTo(Ones(1), 1, 0) == 0.0;
    } else {
      WeightsSumToOne(n - 1);
      WeightedStep(Ones(n - 1), 1.0);
      assert Ones(n) == Ones(n - 1) + [1.0];
    }
  }

  lemma DeviationsStep(xs: seq<real>, x: real, m: real)
    ensures Deviations(xs + [x], m) == Deviations(xs, m) + [SquaredGap(x, m)]
  {
    var d := Deviations(xs + [x], m);
    forall i | 0 <= i < |xs| ensures d[i] == Deviations(xs, m)[i] {
      assert (xs + [x])[i] == xs[i];
    }
    assert (xs + [x])[|xs|] == x;
  }

  /** The weighted squared deviation about `c`. */
  function Spread(xs: seq<real>, c: real): real {
    Weighted(Deviations(xs, c))
  }

  lemma SpreadStep(xs: seq<real>, x: real, c: real)
    requires 0 < |xs|
    ensures Spread(xs + [x], c) == (1.0 - ALPHA) * Spread(xs, c) + ALPHA * SquaredGap(x, c)
  {
    DeviationsStep(xs, x, c);
    WeightedStep(Deviations(xs, c), SquaredGap(x, c));
  }

  lemma SingleObservation(x: real, c: real)
    ensures Weighted([x]) == x && Spread([x], c) == SquaredGap(x, c)
  {
    var d := Deviations([x], c);
    assert d == [SquaredGap(x, c)];
    assert Weight(1, 0) == 1.0;
    assert WeightedUpTo([x], 1, 0) == 0.0 && WeightedUpTo(d, 1, 0) == 0.0;
  }

  lemma MixIdentity(m: real, x: real, m': real, c: real)
    requires m' == (1.0 - ALPHA) * m + ALPHA * x
    ensures (1.0 - ALPHA) * SquaredGap(m, c) + ALPHA * SquaredGap(x, c)
         == (1.0 - ALPHA) * SquaredGap(m, m') + ALPHA * SquaredGap(x, m') + SquaredGap(m', c)
  {
    var u, v := m - c, x - c;
    assert m' - c == 0.9 * u + 0.1 * v && m - m' == 0.1 * (u - v) && x - m' == 0.9 * (v - u);
    assert (u - v) * (u - v) == u * u - 2.0 * (u * v) + v * v;
    assert SquaredGap(m, m') == 0.01 * ((u - v) * (u - v)) && SquaredGap(x, m') == 0.81 * ((u - v) * (u - v));
    assert SquaredGap(m', c) == 0.81 * (u * u) + 0.18 * (u * v) + 0.01 * (v * v);
  }

  /** Moving the centre of the deviations away from the weighted mean adds the squared move. */
  lemma {:induction false} Steiner(xs: seq<real>, c: real)
    requires 0 < |xs|
    ensures Spread(xs, c) == Spread(xs, Weighted(xs)) + SquaredGap(Weighted(xs), c)
  {
    var n := |xs| - 1;
    var past, x := xs[..n], xs[n];
    assert xs == past + [x];
    if n == 0 {
      SingleObservation(x, c);
      SingleObservation(x, x);
    } else {
      var m, m' := Weighted(past), Weighted(xs);
      WeightedStep(past, x);
      SpreadStep(past, x, c);
      SpreadStep(past, x, m');
      Steiner(past, c);
      Steiner(past, m');
      MixIdentity(m, x, m', c);
    }
  }

  lemma RecurrenceIdentity(m: real, v: real, x: real, m': real)
    requires m' == m + ALPHA * (x - m)
    ensures (1.0 - ALPHA) * (v + SquaredGap(m, m')) + ALPHA * SquaredGap(x, m')
         == (1.0 - ALPHA) * (v + ALPHA * SquaredGap(x, m))
  {
    var delta := x - m;
    assert m - m' == -0.1 * delta && x - m' == 0.9 * delta;
    assert (m - m') * (m - m') == 0.01 * (delta * delta);
    assert (x - m') * (x - m') == 0.81 * (delta * delta);
  }

  /** The recurrence computes exactly the exponentially weighted mean of the whole history and the
      weighted variance about that mean. */
  lemma {:induction false} BaselineIsWeighted(history: seq<real>)
    requires history != []
    ensures Baseline(history) == Some(State(Weighted(history), Spread(history, Weighted(history)), |history|))
  {
    var n := |history| - 1;
    var past, x := history[..n], history[n];
    assert history == past + [x];
    if n == 0 {
      SingleObservation(x, x);
    } else {
      var m, m' := Weighted(past), Weighted(history);
      BaselineIsWeighted(past);
      WeightedStep(past, x);
      assert m' == m + ALPHA * (x - m);
      SpreadStep(past, x, m');
      Steiner(past, m');
      RecurrenceIdentity(m, Spread(past, m), x, m');
      var s := Update(State(m, Spread(past, m), n), x);
      assert s.variance == (1.0 - ALPHA) * (Spread(past, m) + ALPHA * SquaredGap(x, m));
      assert s.variance == Spread(history, m');
      assert Baseline(history) == Some(s);
    }
  }

  /** Every observation lies in [lo, hi]; so does the mean, and the variance is bounded. */
  ghost predicate Bounded(s: State, lo: real, hi: real) {
    0.0 <= s.variance && lo <= s.mean <= hi && s.variance <= (hi - s.mean) * (s.mean - lo)
  }

  lemma UpdateKeepsBounds(s: State, x: real, lo: real, hi: real)
    requires Bounded(s, lo, hi) && lo <= x <= hi
    ensures Bounded(Update(s, x), lo, hi)
  {
    SpreadConcave(s.mean, x, lo, hi);
    Square(x - s.mean);
  }

  /** Variance never goes negative, the mean stays inside any interval holding the history, and the
      variance is at most (top - mean) * (mean - bottom), hence at most the squared range. */
  lemma {:induction false} BaselineBounds(history: seq<real>, lo: real, hi: real)
    requires history != [] && forall i :: 0 <= i < |history| ==> lo <= history[i] <= hi
    ensures Bounded(Baseline(history).value, lo, hi)
  {
    var n := |history| - 1;
    var past, x := history[..n], history[n];
    assert lo <= x <= hi;
    if n > 0 {
      BaselineBounds(past, lo, hi);
      UpdateKeepsBounds(Baseline(past).value, x, lo, hi);
    } else {
      BootstrapBounded(x, lo, hi);
    }
  }

  lemma BootstrapBounded(x: real, lo: real, hi: real)
    requires lo <= x <= hi
    ensures Bounded(Bootstrap(x), lo, hi)
  {
    NonNegative(hi - x, x - lo);
  }

  /** The variance never exceeds a quarter of the squared range. */
  lemma BoundedVariance(s: State, lo: real, hi: real)
    requires Bounded(s, lo, hi)
    ensures 4.0 * s.variance <= (hi - lo) * (hi - lo)
  {
    var a, b := hi - s.mean, s.mean - lo;
    Square(a - b);
    assert (a + b) * (a + b) == (a - b) * (a - b) + 4.0 * (a * b);
  }

  lemma Square(d: real)
    ensures 0.0 <= d * d
  {
  }

  lemma NonNegative(a: real, b: real)
    requires 0.0 <= a && 0.0 <= b
    ensures 0.0 <= a * b
  {
  }

  lemma SpreadConcave(m: real, x: real, lo: real, hi: real)
    requires lo <= x <= hi && lo <= m <= hi
    ensures var m' := m + ALPHA * (x - m);
            0.9 * ((hi - m) * (m - lo)) + 0.09 * ((x - m) * (x - m)) <= (hi - m') * (m' - lo)
  {
    var m' := m + ALPHA * (x - m);
    NonNegative(hi - x, x - lo);
    assert hi - m' == 0.9 * (hi - m) + 0.1 * (hi - x);
    assert m' - lo == 0.9 * (m - lo) + 0.1 * (x - lo);
    assert (hi - m') * (m' - lo)
        == 0.81 * ((hi - m) * (m - lo)) + 0.09 * ((hi - m) * (x - lo)) + 0.09 * ((hi - x) * (m - lo)) + 0.01 * ((hi - x) * (x - lo));
    assert (hi - m) * (x - lo) + (hi - x) * (m - lo) == (hi - m) * (m - lo) + (hi - x) * (x - lo) + (x - m) * (x - m);
  }
}
