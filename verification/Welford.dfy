/** The statistics of utils/bench-scheduler.cc: averages and second moments of six timings, accumulated in one
    pass. Numbers are real, so rounding is not modelled. */
module Welford {

  datatype PhaseResult = PhaseResult(time: real, rate: real, period: real)

  datatype Result = Result(init: PhaseResult, run: PhaseResult)

  datatype Field = InitTime | InitRate | InitPeriod | RunTime | RunRate | RunPeriod

  function Get(r: Result, f: Field): real {
    match f
    case InitTime => r.init.time
    case InitRate => r.init.rate
    case InitPeriod => r.init.period
    case RunTime => r.run.time
    case RunRate => r.run.rate
    case RunPeriod => r.run.period
  }

  /** The samples of one field. */
  function Column(results: seq<Result>, f: Field): seq<real> {
    seq(|results|, i requires 0 <= i < |results| => Get(results[i], f))
  }

  // ---- The two-pass definitions ----

  function Sum(xs: seq<real>): real {
    if xs == [] then 0.0 else Sum(xs[..|xs| - 1]) + xs[|xs| - 1]
  }

  function Mean(xs: seq<real>): real
    requires xs != []
  {
    Sum(xs) / |xs| as real
  }

  /** The sum of the squared deviations from a. */
  function Deviations(xs: seq<real>, a: real): real {
    if xs == [] then 0.0 else Deviations(xs[..|xs| - 1], a) + Square(xs[|xs| - 1] - a)
  }

  function Square(d: real): real {
    d * d
  }

  /** Both are sums over the samples, one square each. */
  lemma {:induction false} TwoPassSums(xs: seq<real>, ys: seq<real>, a: real)
    ensures Sum(xs + ys) == Sum(xs) + Sum(ys)
    ensures Deviations(xs + ys, a) == Deviations(xs, a) + Deviations(ys, a)
  {
    hide Square;
    if ys == [] {
      assert xs + ys == xs;
    } else {
      var k := |ys| - 1;
      assert (xs + ys)[..|xs| + k] == xs + ys[..k];
      TwoPassSums(xs, ys[..k], a);
    }
  }

  lemma OneSample(x: real, a: real)
    ensures Sum([x]) == x && Deviations([x], a) == (x - a) * (x - a)
  {
    assert [x][..0] == [];
  }

  // ---- One sample ----

  /** The accumulation macro: the new average and the new second moment of one field. */
  function Accumulate(average: real, moment2: real, sample: real, count: nat): (real, real)
    requires count > 0
  {
    var deltaPre := sample - average;
    var next := average + deltaPre / count as real;
    var deltaPost := sample - next;
    (next, moment2 + deltaPre * deltaPost)
  }

  /** Moving the reference point. */
  lemma {:induction false} DeviationsShift(xs: seq<real>, a: real, e: real)
    ensures Deviations(xs, a + e) ==
            Deviations(xs, a) - 2.0 * e * (Sum(xs) - |xs| as real * a) + |xs| as real * (e * e)
  {
    if xs != [] {
      var k := |xs| - 1;
      var x := xs[k];
      DeviationsShift(xs[..k], a, e);
      var n, s := k as real, Sum(xs[..k]);
      assert |xs| as real == n + 1.0;
      ShiftOne(x, a, e, n, s);
    }
  }

  lemma ShiftOne(x: real, a: real, e: real, n: real, s: real)
    ensures -2.0 * e * (s - n * a) + n * (e * e) + (x - (a + e)) * (x - (a + e)) ==
            (x - a) * (x - a) - 2.0 * e * ((s + x) - (n + 1.0) * a) + (n + 1.0) * (e * e)
  {
    var d := x - a;
    assert (x - (a + e)) == d - e;
    assert (d - e) * (d - e) == d * d - 2.0 * e * d + e * e;
    assert (s + x) - (n + 1.0) * a == (s - n * a) + d;
    assert 2.0 * e * ((s - n * a) + d) == 2.0 * e * (s - n * a) + 2.0 * e * d;
    assert (n + 1.0) * (e * e) == n * (e * e) + e * e;
  }

  /** One accumulation takes the mean and the squared deviations of some samples to those of one sample more. */
  lemma AccumulateRefines(xs: seq<real>, x: real)
    requires xs != []
    ensures Accumulate(Mean(xs), Deviations(xs, Mean(xs)), x, |xs| + 1) ==
            (Mean(xs + [x]), Deviations(xs + [x], Mean(xs + [x])))
  {
    hide Accumulate, Deviations, Sum, Mean;
    var a := Mean(xs);
    var e := (x - a) / (|xs| as real + 1.0);
    TimesQuotient(x - a, |xs| as real + 1.0);
    MeanAppend(xs, x, e);
    DeviationsAppend(xs, x, a, e);
    AccumulateByShift(a, Deviations(xs, a), x, |xs| + 1, e);
  }

  lemma AccumulateByShift(average: real, moment2: real, sample: real, count: nat, e: real)
    requires count > 0 && e == (sample - average) / count as real
    ensures Accumulate(average, moment2, sample, count).0 == average + e
    ensures Accumulate(average, moment2, sample, count).1 == moment2 + (sample - average) * (sample - (average + e))
  {
    AccumulatedMoment(average, moment2, sample, count, average + e);
  }

  lemma AccumulatedMoment(average: real, moment2: real, sample: real, count: nat, next: real)
    requires count > 0 && next == Accumulate(average, moment2, sample, count).0
    ensures Accumulate(average, moment2, sample, count).1 == moment2 + (sample - average) * (sample - next)
  {
  }

  lemma TimesQuotient(p: real, q: real)
    requires q != 0.0
    ensures q * (p / q) == p
  {
    var r := p / q;
    assert r * q == p;
  }

  lemma SumAppend(xs: seq<real>, x: real, a: real)
    ensures Sum(xs + [x]) == Sum(xs) + x
    ensures Deviations(xs + [x], a) == Deviations(xs, a) + (x - a) * (x - a)
    ensures |xs + [x]| as real == |xs| as real + 1.0
  {
    assert (xs + [x])[..|xs|] == xs;
  }

  lemma MeanAppend(xs: seq<real>, x: real, e: real)
    requires xs != [] && x - Mean(xs) == (|xs| as real + 1.0) * e
    ensures Mean(xs + [x]) == Mean(xs) + e && Sum(xs) == |xs| as real * Mean(xs)
  {
    hide Sum, Mean;
    SumAppend(xs, x, 0.0);
    SumFromMean(xs);
    MeanOf(xs + [x]);
    var n, a := |xs| as real, Mean(xs);
    MeanStep(n, a, x, e, Sum(xs + [x]), |xs + [x]| as real);
  }

  lemma MeanOf(xs: seq<real>)
    requires xs != []
    ensures Mean(xs) == Sum(xs) / |xs| as real
  {
  }

  lemma SumFromMean(xs: seq<real>)
    requires xs != []
    ensures Sum(xs) == |xs| as real * Mean(xs)
  {
    hide Sum;
    TimesQuotient(Sum(xs), |xs| as real);
  }

  lemma DeviationsAppend(xs: seq<real>, x: real, a: real, e: real)
    requires Sum(xs) == |xs| as real * a && x - a == (|xs| as real + 1.0) * e
    ensures Deviations(xs + [x], a + e) == Deviations(xs, a) + (x - a) * (x - (a + e))
  {
    hide Sum, Deviations;
    DeviationsFromMean(xs, a, e);
    SumAppend(xs, x, a + e);
    MomentShift(|xs| as real, a, x, e);
  }

  /** Away from the mean of the samples the deviations grow by the square of the distance. */
  lemma DeviationsFromMean(xs: seq<real>, a: real, e: real)
    requires Sum(xs) == |xs| as real * a
    ensures Deviations(xs, a + e) == Deviations(xs, a) + |xs| as real * (e * e)
  {
    hide Sum, Deviations;
    DeviationsShift(xs, a, e);
    Vanishes(2.0 * e, Sum(xs) - |xs| as real * a);
  }

  lemma Vanishes(p: real, q: real)
    requires q == 0.0
    ensures p * q == 0.0
  {
  }

  lemma MomentShift(n: real, a: real, x: real, e: real)
    requires x - a == (n + 1.0) * e
    ensures n * (e * e) + (x - (a + e)) * (x - (a + e)) == (x - a) * (x - (a + e))
  {
    var t := n * e;
    assert x - (a + e) == t && x - a == t + e;
    assert n * (e * e) == t * e;
    assert t * e + t * t == (t + e) * t;
  }

  lemma MeanStep(n: real, a: real, x: real, e: real, sum: real, d: real)
    requires n >= 0.0 && x - a == (n + 1.0) * e && sum == n * a + x && d == n + 1.0
    ensures sum / d == a + e
  {
    assert d * (a + e) == n * a + a + d * e;
    Cancel(d, a + e);
  }

  lemma Cancel(d: real, q: real)
    requires d != 0.0
    ensures (d * q) / d == q
  {
  }

  /** The first sample, with which the average was seeded, is accumulated again without effect. */
  lemma AccumulateFirst(x: real)
    ensures Accumulate(x, 0.0, x, 1) == (Mean([x]), Deviations([x], Mean([x])))
  {
    assert [x][..0] == [];
    assert Sum([x]) == Sum([x][..0]) + x == x;
    assert Mean([x]) == x / 1.0 == x;
    assert Deviations([x], x) == Deviations([x][..0], x) + (x - x) * (x - x) == 0.0;
  }

  lemma {:induction false} DeviationsNonNegative(xs: seq<real>, a: real)
    ensures Deviations(xs, a) >= 0.0
    ensures Deviations(xs, a) == 0.0 <==> forall i | 0 <= i < |xs| :: xs[i] == a
  {
    hide Square;
    if xs != [] {
      var k := |xs| - 1;
      DeviationsNonNegative(xs[..k], a);
      assert forall i | 0 <= i < k :: xs[..k][i] == xs[i];
      SquareSign(xs[k] - a);
      assert Deviations(xs, a) == Deviations(xs[..k], a) + Square(xs[k] - a);
      assert Deviations(xs, a) == 0.0 <==> Deviations(xs[..k], a) == 0.0 && xs[k] == a;
    }
  }

  lemma SquareSign(d: real)
    ensures Square(d) >= 0.0 && (Square(d) == 0.0 <==> d == 0.0)
  {
    hide Square;
    if d > 0.0 {
      SquarePositive(d);
    } else if d < 0.0 {
      SquareNegative(d);
    } else {
      SquareZero(d);
    }
  }

  lemma SquarePositive(d: real)
    requires d > 0.0
    ensures Square(d) > 0.0
  {
    calc {
      Square(d);
    ==
      d * d;
    >
      0.0;
    }
  }

  lemma SquareNegative(d: real)
    requires d < 0.0
    ensures Square(d) > 0.0
  {
    calc {
      Square(d);
    ==
      d * d;
    >
      0.0;
    }
  }

  lemma SquareZero(d: real)
    requires d == 0.0
    ensures Square(d) == 0.0
  {
  }

  // ---- The loop over the results ----

  /** The averages and the standard deviations of every field. */
  datatype Statistics = TooFew | Statistics(average: Result, stdev: Result)

  function Combine(average: Result, moment2: Result, sample: Result, count: nat): (r: (Result, Result))
    requires count > 0
    ensures forall f ::
              (Get(r.0, f), Get(r.1, f)) == Accumulate(Get(average, f), Get(moment2, f), Get(sample, f), count)
  {
    var it := Accumulate(average.init.time, moment2.init.time, sample.init.time, count);
    var ir := Accumulate(average.init.rate, moment2.init.rate, sample.init.rate, count);
    var ip := Accumulate(average.init.period, moment2.init.period, sample.init.period, count);
    var rt := Accumulate(average.run.time, moment2.run.time, sample.run.time, count);
    var rr := Accumulate(average.run.rate, moment2.run.rate, sample.run.rate, count);
    var rp := Accumulate(average.run.period, moment2.run.period, sample.run.period, count);
    (Result(PhaseResult(it.0, ir.0, ip.0), PhaseResult(rt.0, rr.0, rp.0)),
     Result(PhaseResult(it.1, ir.1, ip.1), PhaseResult(rt.1, rr.1, rp.1)))
  }

  /** The average and the standard deviation, with `sqrt` for the square root of the library. What the root is taken
      of is the mean squared deviation, which is not negative. */
  method Log(results: seq<Result>, sqrt: real -> real) returns (statistics: Statistics)
    ensures statistics.TooFew? <==> |results| < 2
    ensures |results| >= 2 ==> forall f ::
              var xs := Column(results, f);
              && Get(statistics.average, f) == Mean(xs)
              && Get(statistics.stdev, f) == sqrt(Deviations(xs, Mean(xs)) / |results| as real)
              && Deviations(xs, Mean(xs)) / |results| as real >= 0.0
  {
    hide Mean, Deviations, Accumulate;
    if |results| < 2 {
      return TooFew;
    }
    var average := results[0];
    var moment2 := Result(PhaseResult(0.0, 0.0, 0.0), PhaseResult(0.0, 0.0, 0.0));
    var n := 0;
    while n < |results|
      invariant 0 <= n <= |results|
      invariant n == 0 ==> average == results[0] && forall f :: Get(moment2, f) == 0.0
      invariant n > 0 ==> forall f ::
          var xs := Column(results[..n], f);
          Get(average, f) == Mean(xs) && Get(moment2, f) == Deviations(xs, Mean(xs))
    {
      var run := results[n];
      var count := n + 1;
      var next := Combine(average, moment2, run, count);
      forall f
        ensures var xs := Column(results[..n + 1], f);
                Get(next.0, f) == Mean(xs) && Get(next.1, f) == Deviations(xs, Mean(xs))
      {
        var xs := Column(results[..n], f);
        assert Column(results[..n + 1], f) == xs + [Get(run, f)];
        if n == 0 {
          assert xs + [Get(run, f)] == [Get(run, f)];
          AccumulateFirst(Get(run, f));
        } else {
          AccumulateRefines(xs, Get(run, f));
        }
      }
      average, moment2 := next.0, next.1;
      n := n + 1;
    }
    assert results[..n] == results;
    var d := n as real;
    var stdev := Result(
      PhaseResult(sqrt(moment2.init.time / d), sqrt(moment2.init.rate / d), sqrt(moment2.init.period / d)),
      PhaseResult(sqrt(moment2.run.time / d), sqrt(moment2.run.rate / d), sqrt(moment2.run.period / d)));
    forall f ensures Get(stdev, f) == sqrt(Get(moment2, f) / d) && Get(moment2, f) / d >= 0.0 {
      DeviationsNonNegative(Column(results, f), Mean(Column(results, f)));
      assert Get(moment2, f) >= 0.0;
    }
    statistics := Statistics(average, stdev);
  }
}
