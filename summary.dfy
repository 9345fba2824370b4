/** Summaries of a forecast: the sector split of the last predicted year and
    the summary statistics (src/App.tsx:757-849). */
module Summary {
  import opened Types
  import opened Forecast

  datatype Contribution = Contribution(name: string, value: real)

  /** The weight sum the shares are taken against; population counts half. */
  function TotalGrowth(g: Growth): real
  {
    g.industrial + g.residential + g.commercial + g.vehicle + g.population * 0.5
  }

  /** `calculateSectorContributions`: nothing without a forecast; an equal
      split when the growth rates add up to 0; otherwise each sector's share
      of the growth, with the population share spread 0.2 / 0.3 / 0.3 / 0.2,
      normalised by the sum of the four shares (which is 1). */
  function SectorContributions(results: seq<Point>, g: Growth): (r: seq<Contribution>)
    ensures |results| == 0 ==> r == []
    ensures |results| > 0 ==> |r| == 4 && r[0].name == "Industrial" && r[1].name == "Residential"
                              && r[2].name == "Commercial" && r[3].name == "Transport"
  {
    if |results| == 0 then []
    else
      var latest := results[|results| - 1].emission;
      var total := TotalGrowth(g);
      if total == 0.0 then
        [Contribution("Industrial", latest * 0.25), Contribution("Residential", latest * 0.25),
         Contribution("Commercial", latest * 0.25), Contribution("Transport", latest * 0.25)]
      else
        var populationShare := g.population * 0.5 / total;
        var industrial := g.industrial / total + populationShare * 0.2;
        var residential := g.residential / total + populationShare * 0.3;
        var commercial := g.commercial / total + populationShare * 0.3;
        var transport := g.vehicle / total + populationShare * 0.2;
        var sum := industrial + residential + commercial + transport;
        SharesSumToOne(g);
        [Contribution("Industrial", latest * industrial / sum),
         Contribution("Residential", latest * residential / sum),
         Contribution("Commercial", latest * commercial / sum),
         Contribution("Transport", latest * transport / sum)]
  }

  /** The four shares always add up to 1, so the normalisation divides by 1. */
  lemma SharesSumToOne(g: Growth)
    requires TotalGrowth(g) != 0.0
    ensures var total := TotalGrowth(g);
      var populationShare := g.population * 0.5 / total;
      (g.industrial / total + populationShare * 0.2) + (g.residential / total + populationShare * 0.3)
        + (g.commercial / total + populationShare * 0.3) + (g.vehicle / total + populationShare * 0.2) == 1.0
  {
    var total := TotalGrowth(g);
    assert g.industrial / total + g.residential / total + g.commercial / total + g.vehicle / total
           + g.population * 0.5 / total == total / total;
  }

  function Values(r: seq<Contribution>): real
    requires |r| == 4
  {
    r[0].value + r[1].value + r[2].value + r[3].value
  }

  /** The four sector values add up to the last predicted emission; with no
      growth each is a quarter of it. */
  lemma ContributionsSplitLatest(results: seq<Point>, g: Growth)
    requires |results| > 0
    ensures Values(SectorContributions(results, g)) == results[|results| - 1].emission
    ensures TotalGrowth(g) == 0.0 ==> forall k :: 0 <= k < 4 ==>
      SectorContributions(results, g)[k].value == results[|results| - 1].emission / 4.0
  {
    var latest := results[|results| - 1].emission;
    var total := TotalGrowth(g);
    if total != 0.0 {
      SharesSumToOne(g);
      var populationShare := g.population * 0.5 / total;
      SplitByOne(latest, g.industrial / total + populationShare * 0.2,
                 g.residential / total + populationShare * 0.3,
                 g.commercial / total + populationShare * 0.3,
                 g.vehicle / total + populationShare * 0.2);
    }
  }

  lemma SplitByOne(latest: real, a: real, b: real, c: real, d: real)
    requires a + b + c + d == 1.0
    ensures latest * a / (a + b + c + d) + latest * b / (a + b + c + d)
          + latest * c / (a + b + c + d) + latest * d / (a + b + c + d) == latest
  {
    assert latest * a + latest * b + latest * c + latest * d == latest * (a + b + c + d);
  }

  // ---------------------------------------------------------------------------
  // Summary statistics

  datatype Stats = Stats(
    finalYearEmission: real,
    /** None where the source divides by a zero starting emission. */
    averageGrowthRate: Option<real>,
    highestContributingSector: string,
    confidenceScore: real)

  function Sectors(g: Growth): seq<(string, real)>
  {
    [("Industrial", g.industrial), ("Residential", g.residential), ("Commercial", g.commercial),
     ("Transport", g.vehicle)]
  }

  /** `reduce((max, s) => s.growth > max.growth ? s : max)` without a seed. */
  function Highest(s: seq<(string, real)>): (string, real)
    requires |s| > 0
  {
    if |s| == 1 then s[0]
    else
      var m := Highest(s[..|s| - 1]);
      if s[|s| - 1].1 > m.1 then s[|s| - 1] else m
  }

  /** The reduction picks the first entry that reaches the maximum. */
  lemma {:induction false} HighestIsFirstMaximum(s: seq<(string, real)>) returns (k: nat)
    requires |s| > 0
    ensures k < |s| && Highest(s) == s[k]
    ensures forall j :: 0 <= j < |s| ==> s[j].1 <= s[k].1
    ensures forall j :: 0 <= j < k ==> s[j].1 < s[k].1
  {
    if |s| == 1 {
      k := 0;
    } else {
      var p := s[..|s| - 1];
      var m := HighestIsFirstMaximum(p);
      assert forall j :: 0 <= j < |p| ==> p[j] == s[j];
      if s[|s| - 1].1 > p[m].1 {
        k := |s| - 1;
      } else {
        k := m;
      }
    }
  }

  function Max(a: real, b: real): real { if a >= b then a else b }
  function Min(a: real, b: real): real { if a <= b then a else b }

  function Rates(g: Growth): seq<real>
  {
    [g.industrial, g.residential, g.commercial, g.vehicle, g.population]
  }

  function MaxRate(g: Growth): real
  {
    Max(Max(Max(Max(g.industrial, g.residential), g.commercial), g.vehicle), g.population)
  }

  function MinRate(g: Growth): real
  {
    Min(Min(Min(Min(g.industrial, g.residential), g.commercial), g.vehicle), g.population)
  }

  /** `max(0, min(100, 100 - 2 * (max rate - min rate)))`. */
  function Confidence(g: Growth): real
  {
    Max(0.0, Min(100.0, 100.0 - (MaxRate(g) - MinRate(g)) * 2.0))
  }

  /** `calculatePredictionSummary`, given the forecast and the emission it
      started from. */
  function PredictionSummary(results: seq<Point>, initial: real, g: Growth): Stats
  {
    if |results| == 0 then Stats(0.0, Some(0.0), "N/A", 0.0)
    else
      var final := results[|results| - 1].emission;
      var average := if initial == 0.0 then None
                     else Some(((final - initial) / initial * 100.0) / |results| as real);
      Stats(final, average, Highest(Sectors(g)).0, Confidence(g))
  }

  /** MaxRate and MinRate are the largest and smallest of the five rates. */
  lemma RateExtremes(g: Growth)
    ensures forall k :: 0 <= k < 5 ==> MinRate(g) <= Rates(g)[k] <= MaxRate(g)
    ensures MaxRate(g) in Rates(g) && MinRate(g) in Rates(g)
  {
  }

  /** The confidence score lies in [0, 100]; it is 100 exactly when the five
      rates are equal and 0 once they spread over 50 points or more. */
  lemma ConfidenceSpec(g: Growth)
    ensures 0.0 <= Confidence(g) <= 100.0
    ensures Confidence(g) == 100.0 <==> forall k :: 0 <= k < 5 ==> Rates(g)[k] == Rates(g)[0]
    ensures MaxRate(g) - MinRate(g) >= 50.0 ==> Confidence(g) == 0.0
  {
    RateExtremes(g);
    if Confidence(g) == 100.0 {
      forall k | 0 <= k < 5 ensures Rates(g)[k] == Rates(g)[0] {
      }
    }
  }

  /** A forecast yields the last predicted emission, the sector that the
      reduction selects (the first of industrial, residential, commercial and
      transport reaching the largest rate), and an average growth rate that is
      undefined exactly when the starting emission is 0; otherwise it times
      the number of years is the total change in percent. */
  lemma PredictionSummarySpec(results: seq<Point>, initial: real, g: Growth)
    requires |results| > 0
    ensures var s := PredictionSummary(results, initial, g);
      && s.finalYearEmission == results[|results| - 1].emission
      && (s.averageGrowthRate.None? <==> initial == 0.0)
      && (s.averageGrowthRate.Some? ==>
            s.averageGrowthRate.value * |results| as real
              == (results[|results| - 1].emission - initial) / initial * 100.0)
      && 0.0 <= s.confidenceScore <= 100.0
      && (exists k :: 0 <= k < 4 && s.highestContributingSector == Sectors(g)[k].0
           && (forall j :: 0 <= j < 4 ==> Sectors(g)[j].1 <= Sectors(g)[k].1)
           && (forall j :: 0 <= j < k ==> Sectors(g)[j].1 < Sectors(g)[k].1))
  {
    var k := HighestIsFirstMaximum(Sectors(g));
    ConfidenceSpec(g);
  }

  /** Without a forecast the summary is all zeros and "N/A". */
  lemma EmptySummary(initial: real, g: Growth)
    ensures PredictionSummary([], initial, g) == Stats(0.0, Some(0.0), "N/A", 0.0)
    ensures SectorContributions([], g) == []
  {
  }
}
