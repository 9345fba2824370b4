/** The KPI aggregation over the grid, as written: each cell's intervention
    efficiencies are subtracted from its current emission, which placement
    has already reduced (src/App.tsx:260-297). */
module Kpi {
  import opened Types
  import opened Sums
  import opened Interventions
  import opened Grid

  datatype Kpis = Kpis(
    totalEmissions: real,
    /** None where the source divides by a zero baseline (NaN or Infinity). */
    emissionReduction: Option<real>,
    interventionEfficiency: real,
    costEffectiveness: real,
    projectedSavings: real,
    hotspotCount: nat)

  function Emissions(cells: seq<Cell>): seq<real>
  {
    seq(|cells|, i requires 0 <= i < |cells| => cells[i].emission)
  }

  /** The terms `cell.emission * (efficiency / 100)` added up for one cell. */
  function ReductionTerms(c: Cell): seq<real>
  {
    seq(|c.interventions|, j requires 0 <= j < |c.interventions| =>
      c.emission * (c.interventions[j].efficiency / 100.0))
  }

  function CellReduction(c: Cell): real
  {
    Sum(ReductionTerms(c))
  }

  /** The emission the KPI code counts for a cell. */
  function CurrentEmission(c: Cell): real
  {
    c.emission - CellReduction(c)
  }

  function CurrentEmissions(cells: seq<Cell>): seq<real>
  {
    seq(|cells|, i requires 0 <= i < |cells| => CurrentEmission(cells[i]))
  }

  function InterventionCount(cells: seq<Cell>): nat
  {
    if |cells| == 0 then 0
    else InterventionCount(cells[..|cells| - 1]) + |cells[|cells| - 1].interventions|
  }

  /** Efficiencies of the interventions that have a catalog entry, in order. */
  function KnownEfficiencies(ivs: seq<Intervention>): seq<real>
  {
    if |ivs| == 0 then []
    else if Lookup(ivs[0].id).Some? then [ivs[0].efficiency] + KnownEfficiencies(ivs[1..])
    else KnownEfficiencies(ivs[1..])
  }

  /** Catalog costs of the interventions that have a catalog entry, in order. */
  function KnownCosts(ivs: seq<Intervention>): seq<real>
  {
    if |ivs| == 0 then []
    else if Lookup(ivs[0].id).Some? then [Lookup(ivs[0].id).value.cost] + KnownCosts(ivs[1..])
    else KnownCosts(ivs[1..])
  }

  /** `placedInterventions` projected on efficiency: every cell's
      interventions in grid order, kept when the catalog knows their id. */
  function PlacedEfficiencies(cells: seq<Cell>): seq<real>
  {
    if |cells| == 0 then []
    else PlacedEfficiencies(cells[..|cells| - 1]) + KnownEfficiencies(cells[|cells| - 1].interventions)
  }

  function PlacedCosts(cells: seq<Cell>): seq<real>
  {
    if |cells| == 0 then []
    else PlacedCosts(cells[..|cells| - 1]) + KnownCosts(cells[|cells| - 1].interventions)
  }

  /** Cells whose counted emission is above 30. */
  function HotspotCount(cells: seq<Cell>): nat
  {
    if |cells| == 0 then 0
    else HotspotCount(cells[..|cells| - 1]) + if CurrentEmission(cells[|cells| - 1]) > 30.0 then 1 else 0
  }

  function HighCount(cells: seq<Cell>): nat
  {
    if |cells| == 0 then 0
    else HighCount(cells[..|cells| - 1]) + if cells[|cells| - 1].emission > 30.0 then 1 else 0
  }

  /** `calculateKPIs(gridData)`. */
  function CalculateKpis(cells: seq<Cell>): Kpis
  {
    var base := Sum(Emissions(cells));
    var current := Sum(CurrentEmissions(cells));
    var totalReduction := base - current;
    var count := InterventionCount(cells);
    var cost := Sum(PlacedCosts(cells));
    Kpis(
      current,
      if base == 0.0 then None else Some(totalReduction / base * 100.0),
      if count > 0 then Sum(PlacedEfficiencies(cells)) / count as real else 0.0,
      if totalReduction > 0.0 then cost / totalReduction else 0.0,
      totalReduction,
      HotspotCount(cells))
  }

  /** `baselineKPIs`: the grid's current emissions with no credit taken. */
  function BaselineKpis(cells: seq<Cell>): Kpis
  {
    Kpis(Sum(Emissions(cells)), Some(0.0), 0.0, 0.0, 0.0, HighCount(cells))
  }

  // ---------------------------------------------------------------------------
  // Properties

  predicate NoInterventions(cells: seq<Cell>)
  {
    forall i :: 0 <= i < |cells| ==> cells[i].interventions == []
  }

  lemma {:induction false} NoInterventionsCounts(cells: seq<Cell>)
    requires NoInterventions(cells)
    ensures InterventionCount(cells) == 0 && PlacedCosts(cells) == []
    ensures HotspotCount(cells) == HighCount(cells)
  {
    if |cells| > 0 {
      NoInterventionsCounts(cells[..|cells| - 1]);
      assert CellReduction(cells[|cells| - 1]) == 0.0;
    }
  }

  /** With no intervention anywhere the KPIs are the baseline ones, except
      that the reduction percentage is undefined on an all-zero grid. */
  lemma NoInterventionsIsBaseline(cells: seq<Cell>)
    requires NoInterventions(cells)
    ensures var k := CalculateKpis(cells);
      k == BaselineKpis(cells).(emissionReduction := k.emissionReduction)
      && k.emissionReduction == if Sum(Emissions(cells)) == 0.0 then None else Some(0.0)
  {
    NoInterventionsCounts(cells);
    forall i | 0 <= i < |cells| ensures CurrentEmissions(cells)[i] == Emissions(cells)[i] {
      assert CellReduction(cells[i]) == 0.0;
    }
    assert CurrentEmissions(cells) == Emissions(cells);
  }

  /** A cell's credited reduction is its current emission times its total
      efficiency, with no cap. */
  lemma CellReductionFormula(c: Cell)
    ensures CellReduction(c) == c.emission * (TotalEfficiency(c.interventions) / 100.0)
  {
    var s := seq(|c.interventions|, j requires 0 <= j < |c.interventions| =>
      c.interventions[j].efficiency / 100.0);
    SumScale(s, ReductionTerms(c), c.emission);
    SumScale(Efficiencies(c.interventions), s, 1.0 / 100.0);
  }

  /** The projected savings are the sum of the per-cell credited reductions. */
  lemma SavingsAreCredited(cells: seq<Cell>)
    ensures var r := seq(|cells|, i requires 0 <= i < |cells| => CellReduction(cells[i]));
      CalculateKpis(cells).projectedSavings == Sum(r)
  {
    var r := seq(|cells|, i requires 0 <= i < |cells| => CellReduction(cells[i]));
    var d := seq(|cells|, i requires 0 <= i < |cells| => Emissions(cells)[i] - CurrentEmissions(cells)[i]);
    SumDifference(Emissions(cells), CurrentEmissions(cells), d);
    assert d == r;
  }

  /** Double counting: on a cell whose emission was set by placement below
      the cap, the counted emission applies the reduction a second time. */
  lemma DoubleReduction(c: Cell)
    requires c.emission == StackedEmission(c.baseEmission, c.interventions)
    requires TotalEfficiency(c.interventions) <= Cap
    ensures var f := 1.0 - TotalEfficiency(c.interventions) / 100.0;
      CurrentEmission(c) == c.baseEmission * f * f
  {
    CellReductionFormula(c);
  }

  /** Three capture_unit_1 on a cell reach the cap (its emission is 5 % of
      the base), yet the KPI subtracts 105 % of that: the counted emission is
      negative whenever the base is positive. */
  lemma OverCreditedCell(c: Cell)
    requires c.interventions == [Copy(Catalog[0]), Copy(Catalog[0]), Copy(Catalog[0])]
    requires c.emission == StackedEmission(c.baseEmission, c.interventions)
    ensures CurrentEmission(c) == -0.0025 * c.baseEmission
  {
    assert Efficiencies(c.interventions) == [35.0, 35.0, 35.0];
    SumConstant([35.0, 35.0, 35.0], 35.0);
    CellReductionFormula(c);
  }

  // Efficiency and cost figures over grids whose interventions are catalog copies

  predicate CatalogCopies(cells: seq<Cell>)
  {
    forall i, j :: 0 <= i < |cells| && 0 <= j < |cells[i].interventions| ==> FromCatalog(cells[i].interventions[j])
  }

  lemma {:induction false} KnownAll(ivs: seq<Intervention>)
    requires forall j :: 0 <= j < |ivs| ==> FromCatalog(ivs[j])
    ensures |KnownEfficiencies(ivs)| == |ivs|
    ensures forall k :: 0 <= k < |ivs| ==> 12.0 <= KnownEfficiencies(ivs)[k] <= 35.0
  {
    if |ivs| > 0 {
      KnownAll(ivs[1..]);
      FromCatalogEfficiency(ivs[0]);
    }
  }

  lemma {:induction false} KnownCostsPositive(ivs: seq<Intervention>)
    ensures forall k :: 0 <= k < |KnownCosts(ivs)| ==> KnownCosts(ivs)[k] > 0.0
  {
    if |ivs| > 0 {
      KnownCostsPositive(ivs[1..]);
      CatalogFacts();
    }
  }

  lemma {:induction false} PlacedAll(cells: seq<Cell>)
    requires CatalogCopies(cells)
    ensures |PlacedEfficiencies(cells)| == InterventionCount(cells)
    ensures forall k :: 0 <= k < |PlacedEfficiencies(cells)| ==> 12.0 <= PlacedEfficiencies(cells)[k] <= 35.0
  {
    if |cells| > 0 {
      var n := |cells| - 1;
      PlacedAll(cells[..n]);
      KnownAll(cells[n].interventions);
    }
  }

  lemma {:induction false} PlacedCostsPositive(cells: seq<Cell>)
    ensures forall k :: 0 <= k < |PlacedCosts(cells)| ==> PlacedCosts(cells)[k] > 0.0
  {
    if |cells| > 0 {
      PlacedCostsPositive(cells[..|cells| - 1]);
      KnownCostsPositive(cells[|cells| - 1].interventions);
    }
  }

  lemma MeanBetween(total: real, n: real, lo: real, hi: real)
    requires n > 0.0 && n * lo <= total <= n * hi
    ensures lo <= total / n <= hi
  {
  }

  /** On grids of catalog copies, the average efficiency lies between the
      smallest (12) and largest (35) catalog efficiency whenever some
      intervention is placed, and is 0 otherwise. */
  lemma AverageEfficiencyRange(cells: seq<Cell>)
    requires CatalogCopies(cells)
    ensures InterventionCount(cells) > 0 ==> 12.0 <= CalculateKpis(cells).interventionEfficiency <= 35.0
    ensures InterventionCount(cells) == 0 ==> CalculateKpis(cells).interventionEfficiency == 0.0
  {
    if InterventionCount(cells) > 0 {
      MeanEfficiencyRange(cells);
    }
  }

  lemma MeanEfficiencyRange(cells: seq<Cell>)
    requires CatalogCopies(cells) && InterventionCount(cells) > 0
    ensures 12.0 <= Sum(PlacedEfficiencies(cells)) / InterventionCount(cells) as real <= 35.0
  {
    PlacedAll(cells);
    MeanInRange(PlacedEfficiencies(cells), 12.0, 35.0);
  }

  /** The mean of terms that lie between lo and hi lies between them too. */
  lemma MeanInRange(e: seq<real>, lo: real, hi: real)
    requires |e| > 0 && forall k :: 0 <= k < |e| ==> lo <= e[k] <= hi
    ensures lo <= Sum(e) / |e| as real <= hi
  {
    SumAtLeast(e, lo);
    SumAtMost(e, hi);
    MeanBetween(Sum(e), |e| as real, lo, hi);
  }

  lemma DivNonNegative(a: real, b: real)
    requires a >= 0.0 && b > 0.0
    ensures a / b >= 0.0
  {
  }

  /** The cost per unit of reduction is never negative. */
  lemma CostEffectivenessNonNegative(cells: seq<Cell>)
    ensures CalculateKpis(cells).costEffectiveness >= 0.0
  {
    PlacedCostsPositive(cells);
    SumAtLeast(PlacedCosts(cells), 0.0);
    var totalReduction := Sum(Emissions(cells)) - Sum(CurrentEmissions(cells));
    if totalReduction > 0.0 {
      DivNonNegative(Sum(PlacedCosts(cells)), totalReduction);
    }
  }

  /** A well-formed grid satisfies the catalog-copy condition. */
  lemma WellFormedCatalogCopies(cells: seq<Cell>)
    requires WellFormed(cells)
    ensures CatalogCopies(cells)
  {
  }
}
