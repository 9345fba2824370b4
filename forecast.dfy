/** The Monte Carlo forecaster: per predicted year, 500 trials that each
    start from the previous year's mean and apply five growth factors with
    random variation (src/App.tsx:705-755). The uniform draws are inputs. */
module Forecast {
  import opened Sums

  /** Annual growth rates in percent: population, vehicle, industrial,
      residential, commercial. */
  datatype Growth = Growth(population: real, vehicle: real, industrial: real, residential: real, commercial: real)

  /** The five `Math.random() * 2 - 1` draws of one trial, each in [-1, 1]. */
  datatype TrialDraw = TrialDraw(population: real, vehicle: real, industrial: real, residential: real, commercial: real)

  datatype Point = Point(year: int, emission: real)

  const Trials: nat := 500

  /** One growth factor: `1 + (rate * 0.01) * (1 + draw * halfWidth)`. */
  function Factor(rate: real, halfWidth: real, draw: real): real
  {
    1.0 + (rate * 0.01) * (1.0 + draw * halfWidth)
  }

  /** One trial: the five factors applied in turn with half-widths 0.5, 0.4,
      0.6, 0.3 and 0.3. */
  function Trial(e: real, g: Growth, d: TrialDraw): real
  {
    e * Factor(g.population, 0.5, d.population)
      * Factor(g.vehicle, 0.4, d.vehicle)
      * Factor(g.industrial, 0.6, d.industrial)
      * Factor(g.residential, 0.3, d.residential)
      * Factor(g.commercial, 0.3, d.commercial)
  }

  function TrialResults(e: real, g: Growth, ds: seq<TrialDraw>): seq<real>
  {
    seq(|ds|, k requires 0 <= k < |ds| => Trial(e, g, ds[k]))
  }

  /** The mean of a year's 500 trials started from e. */
  function YearMean(e: real, g: Growth, ds: seq<TrialDraw>): real
    requires |ds| == Trials
  {
    Sum(TrialResults(e, g, ds)) / Trials as real
  }

  /** Draws for the first `years` years: 500 trials each. */
  predicate DrawsFor(years: nat, draws: seq<seq<TrialDraw>>)
  {
    |draws| >= years && forall y :: 0 <= y < years ==> |draws[y]| == Trials
  }

  /** The first n predicted points: year currentYear + k + 1 carries the mean
      of trials started from the previous point (from the start emission for
      the first year). */
  function Series(start: real, g: Growth, currentYear: int, draws: seq<seq<TrialDraw>>, n: nat): (r: seq<Point>)
    requires DrawsFor(n, draws)
    ensures |r| == n && forall k :: 0 <= k < n ==> r[k].year == currentYear + k + 1
  {
    if n == 0 then []
    else
      var prev := Series(start, g, currentYear, draws, n - 1);
      var from := if n == 1 then start else prev[n - 2].emission;
      prev + [Point(currentYear + n, YearMean(from, g, draws[n - 1]))]
  }

  /** `runMonteCarloPrediction`, with the year and the draws as inputs. */
  method MonteCarlo(start: real, g: Growth, years: nat, currentYear: int, draws: seq<seq<TrialDraw>>)
    returns (predicted: seq<Point>)
    requires DrawsFor(years, draws)
    ensures predicted == Series(start, g, currentYear, draws, years)
    ensures |predicted| == years
    ensures forall k :: 0 <= k < years ==> predicted[k].year == currentYear + k + 1
  {
    predicted := [];
    var yearOffset := 1;
    while yearOffset <= years
      invariant 1 <= yearOffset <= years + 1
      invariant predicted == Series(start, g, currentYear, draws, yearOffset - 1)
    {
      var year := currentYear + yearOffset;
      var from := if yearOffset == 1 then start else predicted[yearOffset - 2].emission;
      var results: seq<real> := [];
      var run := 0;
      while run < Trials
        invariant 0 <= run <= Trials
        invariant results == TrialResults(from, g, draws[yearOffset - 1][..run])
      {
        var d := draws[yearOffset - 1][run];
        var emission := from;
        emission := emission * Factor(g.population, 0.5, d.population);
        emission := emission * Factor(g.vehicle, 0.4, d.vehicle);
        emission := emission * Factor(g.industrial, 0.6, d.industrial);
        emission := emission * Factor(g.residential, 0.3, d.residential);
        emission := emission * Factor(g.commercial, 0.3, d.commercial);
        assert emission == Trial(from, g, d);
        assert draws[yearOffset - 1][..run + 1] == draws[yearOffset - 1][..run] + [d];
        results := results + [emission];
        run := run + 1;
      }
      assert draws[yearOffset - 1][..Trials] == draws[yearOffset - 1];
      var mean := Sum(results) / |results| as real;
      predicted := predicted + [Point(year, mean)];
      yearOffset := yearOffset + 1;
    }
  }

  // ---------------------------------------------------------------------------
  // Properties

  /** The emission a point of the series starts its trials from. */
  function StartOf(start: real, s: seq<Point>, k: nat): real
    requires k <= |s|
  {
    if k == 0 then start else s[k - 1].emission
  }

  lemma {:induction false} SeriesPrefix(start: real, g: Growth, currentYear: int,
                                        draws: seq<seq<TrialDraw>>, n: nat, k: nat)
    requires DrawsFor(n, draws) && k < n
    ensures Series(start, g, currentYear, draws, n)[k]
         == Point(currentYear + k + 1,
                  YearMean(StartOf(start, Series(start, g, currentYear, draws, n), k), g, draws[k]))
  {
    if k < n - 1 {
      SeriesPrefix(start, g, currentYear, draws, n - 1, k);
    }
  }

  const NoGrowth := Growth(0.0, 0.0, 0.0, 0.0, 0.0)

  /** When every trial gives the same value v, so does their mean. */
  lemma MeanOfEqualTrials(e: real, g: Growth, ds: seq<TrialDraw>, v: real)
    requires |ds| == Trials && forall k :: 0 <= k < |ds| ==> Trial(e, g, ds[k]) == v
    ensures YearMean(e, g, ds) == v
  {
    SumConstant(TrialResults(e, g, ds), v);
  }

  /** With every growth rate 0 each predicted value equals the start emission,
      whatever the draws. */
  lemma {:induction false} ZeroGrowthIsFlat(start: real, currentYear: int, draws: seq<seq<TrialDraw>>, n: nat)
    requires DrawsFor(n, draws)
    ensures forall k :: 0 <= k < n ==> Series(start, NoGrowth, currentYear, draws, n)[k].emission == start
  {
    if n > 0 {
      ZeroGrowthIsFlat(start, currentYear, draws, n - 1);
      var prev := Series(start, NoGrowth, currentYear, draws, n - 1);
      var from := if n == 1 then start else prev[n - 2].emission;
      MeanOfEqualTrials(from, NoGrowth, draws[n - 1], from);
    }
  }

  predicate ValidDraw(d: TrialDraw)
  {
    && -1.0 <= d.population <= 1.0 && -1.0 <= d.vehicle <= 1.0 && -1.0 <= d.industrial <= 1.0
    && -1.0 <= d.residential <= 1.0 && -1.0 <= d.commercial <= 1.0
  }

  predicate ValidDraws(n: nat, draws: seq<seq<TrialDraw>>)
    requires DrawsFor(n, draws)
  {
    forall y, k :: 0 <= y < n && 0 <= k < |draws[y]| ==> ValidDraw(draws[y][k])
  }

  predicate NonNegativeGrowth(g: Growth)
  {
    g.population >= 0.0 && g.vehicle >= 0.0 && g.industrial >= 0.0 && g.residential >= 0.0 && g.commercial >= 0.0
  }

  /** Since every half-width is below 1, a non-negative rate gives a factor of
      at least 1 for any draw in [-1, 1]. */
  lemma FactorAtLeastOne(rate: real, halfWidth: real, draw: real)
    requires rate >= 0.0 && 0.0 <= halfWidth < 1.0 && -1.0 <= draw <= 1.0
    ensures Factor(rate, halfWidth, draw) >= 1.0
  {
    MulNonNegative(draw + 1.0, halfWidth);
    assert (draw + 1.0) * halfWidth == draw * halfWidth + halfWidth;
    MulNonNegative(rate * 0.01, 1.0 + draw * halfWidth);
  }

  lemma MulNonNegative(a: real, b: real)
    requires a >= 0.0 && b >= 0.0
    ensures a * b >= 0.0
  {
  }

  lemma MulGrows(e: real, f: real)
    requires e >= 0.0 && f >= 1.0
    ensures e * f >= e
  {
  }

  /** A trial never lowers a non-negative emission. */
  lemma TrialGrows(e: real, g: Growth, d: TrialDraw)
    requires e >= 0.0 && NonNegativeGrowth(g) && ValidDraw(d)
    ensures Trial(e, g, d) >= e
  {
    var f1 := Factor(g.population, 0.5, d.population);
    var f2 := Factor(g.vehicle, 0.4, d.vehicle);
    var f3 := Factor(g.industrial, 0.6, d.industrial);
    var f4 := Factor(g.residential, 0.3, d.residential);
    var f5 := Factor(g.commercial, 0.3, d.commercial);
    FactorAtLeastOne(g.population, 0.5, d.population);
    FactorAtLeastOne(g.vehicle, 0.4, d.vehicle);
    FactorAtLeastOne(g.industrial, 0.6, d.industrial);
    FactorAtLeastOne(g.residential, 0.3, d.residential);
    FactorAtLeastOne(g.commercial, 0.3, d.commercial);
    MulGrows(e, f1);
    MulGrows(e * f1, f2);
    MulGrows(e * f1 * f2, f3);
    MulGrows(e * f1 * f2 * f3, f4);
    MulGrows(e * f1 * f2 * f3 * f4, f5);
  }

  lemma MeanGrows(e: real, g: Growth, ds: seq<TrialDraw>)
    requires |ds| == Trials && e >= 0.0 && NonNegativeGrowth(g)
    requires forall k :: 0 <= k < |ds| ==> ValidDraw(ds[k])
    ensures YearMean(e, g, ds) >= e
  {
    forall k | 0 <= k < |ds| ensures TrialResults(e, g, ds)[k] >= e {
      TrialGrows(e, g, ds[k]);
    }
    SumAtLeast(TrialResults(e, g, ds), e);
  }

  /** With non-negative rates, a non-negative start and draws in [-1, 1] the
      forecast never decreases: the first year is at least the start and each
      year at least the one before. */
  lemma {:induction false} SeriesNonDecreasing(start: real, g: Growth, currentYear: int,
                                               draws: seq<seq<TrialDraw>>, n: nat)
    requires DrawsFor(n, draws) && ValidDraws(n, draws)
    requires start >= 0.0 && NonNegativeGrowth(g)
    ensures var s := Series(start, g, currentYear, draws, n);
      (n > 0 ==> s[0].emission >= start)
      && forall k :: 0 <= k < n - 1 ==> s[k + 1].emission >= s[k].emission
  {
    if n > 0 {
      SeriesNonDecreasing(start, g, currentYear, draws, n - 1);
      var prev := Series(start, g, currentYear, draws, n - 1);
      var from := if n == 1 then start else prev[n - 2].emission;
      if n > 1 {
        SeriesAtLeastStart(start, g, currentYear, draws, n - 1);
      }
      MeanGrows(from, g, draws[n - 1]);
    }
  }

  lemma {:induction false} SeriesAtLeastStart(start: real, g: Growth, currentYear: int,
                                              draws: seq<seq<TrialDraw>>, n: nat)
    requires DrawsFor(n, draws) && ValidDraws(n, draws)
    requires start >= 0.0 && NonNegativeGrowth(g)
    ensures forall k :: 0 <= k < n ==> Series(start, g, currentYear, draws, n)[k].emission >= start
  {
    if n > 0 {
      SeriesAtLeastStart(start, g, currentYear, draws, n - 1);
      var prev := Series(start, g, currentYear, draws, n - 1);
      var from := if n == 1 then start else prev[n - 2].emission;
      MeanGrows(from, g, draws[n - 1]);
    }
  }

  // Zero variation: plain compound growth

  const Centre := TrialDraw(0.0, 0.0, 0.0, 0.0, 0.0)

  /** The yearly factor when no variation is drawn. */
  function Rate(g: Growth): real
  {
    (1.0 + g.population * 0.01) * (1.0 + g.vehicle * 0.01) * (1.0 + g.industrial * 0.01)
      * (1.0 + g.residential * 0.01) * (1.0 + g.commercial * 0.01)
  }

  function Power(x: real, n: nat): real
  {
    if n == 0 then 1.0 else Power(x, n - 1) * x
  }

  lemma Mul5(e: real, a: real, b: real, c: real, d: real, f: real)
    ensures e * a * b * c * d * f == e * (a * b * c * d * f)
  {
  }

  lemma CentreTrial(e: real, g: Growth)
    ensures Trial(e, g, Centre) == e * Rate(g)
  {
    Mul5(e, 1.0 + g.population * 0.01, 1.0 + g.vehicle * 0.01, 1.0 + g.industrial * 0.01,
         1.0 + g.residential * 0.01, 1.0 + g.commercial * 0.01);
  }

  predicate CentreDraws(n: nat, draws: seq<seq<TrialDraw>>)
    requires DrawsFor(n, draws)
  {
    forall y, k :: 0 <= y < n && 0 <= k < |draws[y]| ==> draws[y][k] == Centre
  }

  lemma PowerStep(start: real, x: real, n: nat)
    ensures start * Power(x, n) * x == start * Power(x, n + 1)
  {
  }

  predicate AllCentre(ds: seq<TrialDraw>)
  {
    forall k :: 0 <= k < |ds| ==> ds[k] == Centre
  }

  /** Centre draws for n years give centre draws in each of those years. */
  lemma CentreDrawsAt(n: nat, draws: seq<seq<TrialDraw>>, y: nat)
    requires DrawsFor(n, draws) && CentreDraws(n, draws) && y < n
    ensures |draws[y]| == Trials && AllCentre(draws[y])
  {
  }

  /** A year of centre draws multiplies the emission by the yearly rate. */
  lemma CentreYear(e: real, g: Growth, ds: seq<TrialDraw>)
    requires |ds| == Trials && AllCentre(ds)
    ensures YearMean(e, g, ds) == e * Rate(g)
  {
    CentreTrial(e, g);
    MeanOfEqualTrials(e, g, ds, e * Rate(g));
  }

  /** With every variation drawn at 0 the forecast is deterministic compound
      growth: year k + 1 carries start times the yearly rate to the power k + 1. */
  lemma {:induction false} CentreDrawsCompound(start: real, g: Growth, currentYear: int,
                                               draws: seq<seq<TrialDraw>>, n: nat)
    requires DrawsFor(n, draws) && CentreDraws(n, draws)
    ensures forall k :: 0 <= k < n ==>
      Series(start, g, currentYear, draws, n)[k].emission == start * Power(Rate(g), k + 1)
  {
    forall k | 0 <= k < n
      ensures Series(start, g, currentYear, draws, n)[k].emission == start * Power(Rate(g), k + 1)
    {
      CentreAt(start, g, currentYear, draws, n, k);
    }
  }

  /** The compound growth of CentreDrawsCompound at one year, by induction on
      the year. */
  lemma {:induction false} CentreAt(start: real, g: Growth, currentYear: int,
                                    draws: seq<seq<TrialDraw>>, n: nat, k: nat)
    requires DrawsFor(n, draws) && CentreDraws(n, draws) && k < n
    ensures Series(start, g, currentYear, draws, n)[k].emission == start * Power(Rate(g), k + 1)
    decreases k
  {
    var s := Series(start, g, currentYear, draws, n);
    SeriesPrefix(start, g, currentYear, draws, n, k);
    if k > 0 {
      CentreAt(start, g, currentYear, draws, n, k - 1);
    }
    var from := StartOf(start, s, k);
    assert from == start * Power(Rate(g), k);
    CentreDrawsAt(n, draws, k);
    CentreYear(from, g, draws[k]);
    PowerStep(start, Rate(g), k);
  }
}
