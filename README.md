# Urban CO₂ planning sandbox — verified model of the emission engine

The sandbox shows a city as a 12 × 12 grid of cells. Each cell has a zone
(residential, industrial, commercial or transport), a base emission and a
current emission. A planner can do four things:

- move eight global sliders, which recompute the selected cell and its
  clipped 3 × 3 neighbourhood through a multiplicative factor model;
- place catalog interventions on a cell, or remove them, with a capped
  stacking rule;
- ask for the top four recommendations;
- run a Monte Carlo forecast of the total emission, with sector and summary
  statistics on top of it.

All of this logic sits in `src/App.tsx`, as closures inside one React
component. This project takes it out of React and models it in Dafny.

- **State.** The component state becomes the class `Session.Planner`, with
  these fields:
  - the grid (an `array<Cell>` updated in place);
  - the selected cell;
  - the sliders;
  - the growth rates;
  - the forecast horizon;
  - the forecast;
  - the recommendations.

  Its methods are the handlers, each proved against a function on
  sequences.
- **Pure parts.** The pure parts are functions with lemmas: the factor
  model, the severity-band defaults, the stacker, the id strings, the sort,
  the KPI reductions and the summaries.
- **Loops.** The loops of the source stay loops: grid construction, the
  emission view, the neighbour search, the per-cell mapping of each handler,
  and the Monte Carlo forecast.

Arithmetic is on `real`. A division by zero, which yields NaN or Infinity in
JavaScript, is modelled as `None`.

Module layout, one file each:

| module | what it holds |
|---|---|
| `Types` | the entities |
| `Sums` | left-to-right `reduce` sums |
| `CellIds` | `"x-y"` ids, the `"cellId-typeId"` key, `split` and `join` |
| `Factors` | the factor model and the default sliders |
| `Interventions` | the catalog and the stacker |
| `Grid` | construction, invariant and view |
| `Neighborhood` | the neighbour search and parameter propagation |
| `Recommend` | the recommendation heuristic |
| `Kpi` | the KPI aggregation |
| `Forecast` | the Monte Carlo forecast |
| `Summary` | the sector split and summary statistics |
| `Session` | the component state and its handlers |

Behaviour kept as the code has it:

- **KPIs count reductions twice.** The KPIs subtract each cell's
  intervention efficiencies again from its already-reduced emission, with
  no cap. With three capture units on one cell, the counted emission of
  that cell is negative (`Kpi.OverCreditedCell`).
- **Removal filters every match.** Removal drops every entry with the given
  type id, not only the first one. Removing an absent id still rewrites the
  cell's emission from its interventions.
- **The congestion term under the initial sliders.** With the initial
  congestion of 55, the congestion term is 0.8 + 55/200 = 1.075 in every
  non-transport zone (`Factors.InitialSlidersIndustrialExample`).
- **A slider change saves the old sliders.** `handleParameterChange` saves
  the sliders it closed over, which are the values from before the change,
  and recomputes with the new ones (`Session.Planner.ChangeParameter`).
- **Selection reads the grid before saving.** `handleCellSelect` loads the
  snapshot of the cell as the grid held it before its own save
  (`Session.Planner.Select`).
- **Recommendations come from the earlier grid.** The recommendations of a
  simulation run are generated from the grid the handler closed over, which
  is the grid before the run's recomputation
  (`Session.Planner.RunSimulation`).
- **Positions are inputs.** Zones and base-emission draws are inputs of the
  construction. `Math.random()` draws become sequences of reals, and the
  current year is a parameter.

## Model

| member | source | states |
|---|---|---|
| `Sums.SumPermutation` | src/App.tsx:269-276 | a `reduce` sum depends only on the multiset of its terms |
| `Sums.SumConcat` | src/App.tsx:269-276 | the sum over a concatenation is the sum of the two sums |
| `Sums.SumConstant` | src/App.tsx:745 | n equal terms add up to n times the term |
| `CellIds.NatToString` | src/App.tsx:192 | the decimal rendering of a coordinate is a non-empty string of digits |
| `CellIds.DigitsValueOfNatToString` | src/App.tsx:192 | reading the digits back gives the number |
| `CellIds.NatToStringInjective` | src/App.tsx:192 | distinct coordinates render differently |
| `CellIds.Split` | src/App.tsx:557 | `split('-')` always yields at least one part, and no part contains the separator |
| `CellIds.JoinSplit` | src/App.tsx:557-572 | joining the parts of a split restores the string |
| `CellIds.SplitJoin` | src/App.tsx:557-572 | splitting a join of separator-free parts restores the parts |
| `CellIds.SplitAfterPlain` | src/App.tsx:557 | a separator-free prefix followed by the separator is split off as one part |
| `CellIds.SplitCellId` | src/App.tsx:557-566 | a cell id `"x-y"` splits into exactly its two coordinates |
| `CellIds.CellIdInjective` | src/App.tsx:192 | distinct positions have distinct ids |
| `CellIds.CellId` | src/App.tsx:192 | specified by `CellIds.CellIdInjective` and `CellIds.SplitCellId`: an id made of the two coordinates, distinct per position |
| `CellIds.PlacedKey` | src/App.tsx:260 | specified by `CellIds.KeyRoundTrip`: the key `${cellId}-${typeId}` parses back into its two parts |
| `CellIds.ParseKey` | src/App.tsx:557-574 | specified by `CellIds.KeyRoundTrip`: the first two dash-separated parts form the cell id and the rest, rejoined, the type id |
| `CellIds.KeyRoundTrip` | src/App.tsx:557-574 | parsing the key `${cellId}-${typeId}` recovers the cell id and the type id, even when the type id contains `-` or is empty |
| `Factors.Terms` | src/App.tsx:440-473 | one multiplier per slider, eight in all |
| `Factors.ApplyFactors` | src/App.tsx:439-477 | the recomputed emission is never negative |
| `Factors.MultiplyInOrderIsProduct` | src/App.tsx:439-473 | applying the `emission *=` steps one by one equals multiplying by the product of the terms |
| `Factors.FactorsAsProduct` | src/App.tsx:439-477 | the result is `max(0, base × product of the eight terms)` |
| `Factors.MultiplyInOrder` | src/App.tsx:443-472 | specified by `Factors.MultiplyInOrderIsProduct`: the chain of `emission *=` statements is the base times the product of the terms |
| `Factors.ProductPositive` | src/App.tsx:443-473 | positive terms give a positive product |
| `Factors.ProductMonotone` | src/App.tsx:443-473 | termwise larger positive terms give a larger product |
| `Factors.FloorInactive` | src/App.tsx:476 | with positive terms and a non-negative base the floor at 0 never applies |
| `Factors.FloorMonotone` | src/App.tsx:439-477 | a larger base with termwise larger terms never gives a smaller floored result |
| `Factors.FloorStrictFirst` | src/App.tsx:443-477 | raising only the first term strictly raises a positive result |
| `Factors.TermRanges` | src/App.tsx:442-473 | on the slider domain 0..100 each term stays in its interval (green 0.5..1, density 0.5..1.5, water 2/3..1, vehicles 0.4..1.4, industrial 0.5..1.75 in industrial zones and 0.7..1.2 elsewhere, energy 0.5..1.5, congestion 0.6..1.6 in transport zones and 0.8..1.3 elsewhere, public transport 8/15..1.2), so all eight are positive |
| `Factors.NoFloorOnDomain` | src/App.tsx:439-477 | on the slider domain the result is exactly base × product, and it is positive when the base is |
| `Factors.FactorsMonotone` | src/App.tsx:439-477 | for every slider, emission moves in that slider's direction, and it grows with the base |
| `Factors.GreenCoverReduces` | src/App.tsx:442-443 | more green cover strictly lowers a positive emission |
| `Factors.InitialSlidersIndustrialExample` | src/App.tsx:439-477 | an industrial cell of base 100 under the initial sliders gets 126.83044171875 |
| `Factors.DefaultParams` | src/App.tsx:122-172 | the severity-band defaults lie within the slider domain |
| `Factors.DefaultParamsBySeverity` | src/App.tsx:122-172 | a more severe band (thresholds 250, 150, 50) never gets greener defaults |
| `Factors.DefaultsPreserveRanking` | src/App.tsx:439-477 | applying each cell's own defaults keeps a higher base at least as high |
| `Interventions.CatalogFacts` | src/App.tsx:205-256 | catalog efficiencies lie in 12..35, costs are positive, ids are distinct |
| `Interventions.Lookup` | src/App.tsx:503 | `find` returns a catalog entry with the id, or nothing exactly when no entry has it |
| `Interventions.LookupFrom` | src/App.tsx:503 | the search from a position finds an entry at or after it, or none exists there |
| `Interventions.Copy` | src/App.tsx:507-513 | specified by `Interventions.FromCatalogEfficiency` and `Grid.PlacedWellFormed`: the placed record is a catalog copy, with efficiency 12..35 |
| `Interventions.FromCatalogEfficiency` | src/App.tsx:205-256 | a catalog copy's efficiency lies in 12..35 |
| `Interventions.StackedBounds` | src/App.tsx:523-526 | with non-negative efficiencies, the stacked emission lies in [0.05·base, base] |
| `Interventions.StackedEmission` | src/App.tsx:523-526 | specified by `Interventions.StackedBounds`, `StackedAtCap`, `StackedBelowCap` and `StackedOrderIndependent` |
| `Interventions.StackedAtCap` | src/App.tsx:525-526 | from a total efficiency of 95 on, the emission is 5 % of the base |
| `Interventions.StackedBelowCap` | src/App.tsx:525-526 | below the cap, the emission is base − base·Σeff/100 |
| `Interventions.StackedOrderIndependent` | src/App.tsx:523-526 | the stacked emission depends only on the multiset of entries, not their order |
| `Interventions.StackingExamples` | src/App.tsx:523-526 | 35 then 25 on base 100 gives 40; three 35s give 5 |
| `Interventions.PlaceInCell` | src/App.tsx:521-533 | specified by `Interventions.PlacedSpec` (the cell gains the catalog copy of the type, with its id, category, efficiency and name, at the end of its list; its emission follows the capped rule; every other field, `savedParams` included, is kept) and `Interventions.PlacedEmissionBounds` |
| `Interventions.Placed` | src/App.tsx:502-535 | specified by `Interventions.PlacedUnknown` (an unknown type id leaves the grid as it is), `Interventions.PlacedSpec`, `Interventions.PlacedEmissionBounds` and `Grid.PlacedWellFormed` |
| `Interventions.PlacedUnknown` | src/App.tsx:503-504 | a type id missing from the catalog returns the grid unchanged |
| `Interventions.PlacedSpec` | src/App.tsx:520-535 | the placed cell gains exactly one entry, which carries the catalog efficiency; its emission follows the capped rule; the new entry is the catalog copy of the type (id, category, efficiency and name); the cell is otherwise unchanged, `savedParams` included; other cells are untouched |
| `Interventions.PlacedEmissionBounds` | src/App.tsx:523-526 | with catalog copies, the placed cell's emission lies in [0.05·base, base] |
| `Interventions.Without` | src/App.tsx:578 | `filter` never lengthens the list |
| `Interventions.WithoutSpec` | src/App.tsx:578 | an entry is in the filtered list exactly when it is in the list with another id; with no matching entry, the list is unchanged |
| `Interventions.WithoutMultiset` | src/App.tsx:578 | the filter drops every entry with the id and keeps every other entry exactly as often as it occurs |
| `Interventions.WithoutAppend` | src/App.tsx:578 | filtering distributes over concatenation |
| `Interventions.RemoveFromCell` | src/App.tsx:576-588 | specified by `Interventions.RemovedSpec` (entries of the type go, the others stay with their multiplicity, the emission is recomputed, and id, base, position, zone and `savedParams` are kept) and `Interventions.RemoveUndoesPlace` |
| `Interventions.Removed` | src/App.tsx:554-590 | specified by `Interventions.RemovedSpec` (the matching cell keeps its id, base, position, zone and `savedParams`; only its list and emission change; other cells are untouched), `Grid.RemovedWellFormed` and `Interventions.RemoveUndoesPlace` |
| `Interventions.RemovedSpec` | src/App.tsx:557-590 | every entry with the type id is dropped and every other entry is kept with its multiplicity; the emission is the capped value of the new list; an absent id leaves the list unchanged but still rewrites the emission; the cell is otherwise unchanged, `savedParams` included; other cells are untouched |
| `Interventions.RemoveUndoesPlace` | src/App.tsx:576-590 | removing a just-placed new type restores the list, at the emission the list determines |
| `Grid.BaseFromDraw` | src/App.tsx:183-189 | base emission ranges per zone: industrial [30, 90), commercial [20, 60), transport [15, 50), residential [5, 30) |
| `Grid.InitialCell` | src/App.tsx:177-200 | specified by `Grid.InitialCellsWellFormed` (each cell takes its zone and the base its draw gives, starts at that base with no interventions, and saves the default parameters for it) |
| `Grid.InitialCells` | src/App.tsx:175-203 | the construction yields 144 cells |
| `Grid.BuildCells` | src/App.tsx:175-203 | the `for` loop pushes exactly the specified cells |
| `Grid.InitialCellsWellFormed` | src/App.tsx:175-203 | the initial grid is well formed; cell i has zone i and the base its draw gives, its emission equals that base and it holds no interventions; emissions lie in [5, 90); each cell saves the default parameters for its base; no base reaches 150, so the defaults come from the two lowest bands |
| `Grid.WellFormedIdsUnique` | src/App.tsx:178-192 | in a well-formed grid, ids are unique |
| `Grid.WellFormedIndex` | src/App.tsx:178-179 | the cell at column x, row y is at index y·12 + x |
| `Grid.CellEmissions` | src/App.tsx:327-338 | the nested loops fill a 12 × 12 view with the emission at index row·12 + col, or 0 |
| `Grid.ViewIsRowMajor` | src/App.tsx:327-338 | each cell's emission is shown at its own row and column |
| `Grid.CatalogCopiesNonNegative` | src/App.tsx:523 | catalog copies have non-negative efficiencies |
| `Grid.PlacedWellFormed` | src/App.tsx:502-535 | placement keeps the grid invariant |
| `Grid.RemovedWellFormed` | src/App.tsx:576-590 | removal keeps the grid invariant |
| `Neighborhood.FindSpec` | src/App.tsx:402 | `find` by position returns the first cell there, or nothing exactly when none exists |
| `Neighborhood.FindWellFormed` | src/App.tsx:402 | in a well-formed grid, the cell found at an in-bounds position is the one at index y·12 + x |
| `Neighborhood.ColumnUpTo` | src/App.tsx:396-407 | one column of the visit pushes at most one cell per step |
| `Neighborhood.BlockUpTo` | src/App.tsx:395-408 | the visit pushes at most three cells per column |
| `Neighborhood.Neighbors` | src/App.tsx:389-411 | at most nine neighbours |
| `Neighborhood.ColumnSound` | src/App.tsx:396-407 | every cell pushed for a column is a grid cell, in bounds, within distance 1 |
| `Neighborhood.BlockSound` | src/App.tsx:395-408 | every cell pushed is a grid cell, in bounds, within distance 1 |
| `Neighborhood.NeighborsSound` | src/App.tsx:389-411 | every neighbour is a grid cell, in bounds, within Chebyshev distance 1 |
| `Neighborhood.NeighboringCells` | src/App.tsx:389-411 | the nested `dx`/`dy` loops compute the specified neighbour list: at most nine cells, all in bounds and near |
| `Neighborhood.ColumnContains` | src/App.tsx:396-407 | the cells of a column that exist are in the column's list |
| `Neighborhood.BlockContains` | src/App.tsx:395-408 | the cells of a visited column are in the block's list |
| `Neighborhood.NeighborsMembership` | src/App.tsx:389-411 | on a well-formed grid, a cell is a neighbour exactly when it is within Chebyshev distance 1 |
| `Neighborhood.Recomputed` | src/App.tsx:438-478 | specified by `Neighborhood.UpdateDiscardsPlacement` and `Neighborhood.UpdatedLocality` |
| `Neighborhood.Updated` | src/App.tsx:421-480 | with no selection the grid is returned as it is; otherwise each cell is either unchanged or recomputed |
| `Neighborhood.UpdatedLocality` | src/App.tsx:424-437 | on a well-formed grid, exactly the cells within distance 1 of the selection are recomputed, and every other cell is identical |
| `Neighborhood.BlockCard` | src/App.tsx:395-396 | the visit indexes at most as many positions as it takes steps |
| `Neighborhood.UpdatedAtMostNine` | src/App.tsx:395-408 | at most nine cells, the centre included, are recomputed |
| `Neighborhood.UpdatedWellFormed` | src/App.tsx:421-480 | the update keeps the grid invariant |
| `Neighborhood.UpdateDiscardsPlacement` | src/App.tsx:438-478 | last writer wins: recomputing after a placement discards its effect on the emission |
| `Recommend.Positive` | src/App.tsx:614-615 | the filter keeps exactly the cells with positive emission |
| `Recommend.TailSorted` | src/App.tsx:616 | the tail of a descending sequence is descending |
| `Recommend.InsertSpec` | src/App.tsx:616 | an insertion adds exactly the one cell and keeps the order descending |
| `Recommend.SortSpec` | src/App.tsx:616 | the sort returns a descending permutation of its input |
| `Recommend.SortDesc` | src/App.tsx:616 | specified by `Recommend.SortSpec` and `Recommend.SortStable`: a stable descending permutation |
| `Recommend.InsertStable` | src/App.tsx:616 | an insertion keeps the order among equal emissions |
| `Recommend.AllBelow` | src/App.tsx:616 | a descending sequence headed below e holds no element equal to e |
| `Recommend.SortStable` | src/App.tsx:616 | the sort is stable: cells of equal emission keep their grid order |
| `Recommend.SuggestionMatchesCatalog` | src/App.tsx:624-639 | each fixed percentage (35/25/20/15) is the efficiency of a catalog entry suited to the zone |
| `Recommend.Suggest` | src/App.tsx:641-650 | specified by `Recommend.RecommendationsSpec` and `Recommend.SuggestionMatchesCatalog` |
| `Recommend.RecommendationsSpec` | src/App.tsx:610-656 | at most four items, as many as there are positive cells up to four; each has positive emission and comes from a grid cell; emissions do not increase; the name and percent are the zone's suggestion |
| `Recommend.Recommendations` | src/App.tsx:610-656 | specified by `Recommend.RecommendationsSpec`, `RecommendationsTop` and `RecommendationsKeepGridOrder` |
| `Recommend.RecommendationsTop` | src/App.tsx:610-656 | a positive cell above the last recommended emission, or any positive cell when fewer than four are recommended, is recommended |
| `Recommend.RecommendationsKeepGridOrder` | src/App.tsx:614-616 | the cells of equal positive emission appear after sorting in the order they have in the grid |
| `Recommend.PositiveKeepsTies` | src/App.tsx:615 | for a positive emission, the filter keeps the cells of that emission in grid order |
| `Kpi.NoInterventionsCounts` | src/App.tsx:280-285 | without interventions nothing is counted, and the hotspots are the cells above 30 |
| `Kpi.NoInterventionsIsBaseline` | src/App.tsx:268-306 | without interventions the KPIs equal the baseline, except that the reduction percentage is undefined on an all-zero grid |
| `Kpi.CalculateKpis` | src/App.tsx:268-297 | specified by `Kpi.NoInterventionsIsBaseline`, `SavingsAreCredited`, `DoubleReduction`, `AverageEfficiencyRange` and `CostEffectivenessNonNegative` |
| `Kpi.BaselineKpis` | src/App.tsx:299-306 | specified by `Kpi.NoInterventionsIsBaseline`: the KPIs of the same grid without interventions |
| `Kpi.CellReductionFormula` | src/App.tsx:271-275 | a cell's credited reduction is emission × Σeff/100, with no cap |
| `Kpi.SavingsAreCredited` | src/App.tsx:270-278 | projected savings are the sum of the per-cell reductions |
| `Kpi.DoubleReduction` | src/App.tsx:270-276 | below the cap, the counted emission is base·f·f: the reduction is applied twice |
| `Kpi.OverCreditedCell` | src/App.tsx:270-276 | three capture_unit_1 on one cell give a counted emission of −0.0025·base |
| `Kpi.KnownAll` | src/App.tsx:258-265 | on catalog copies, every entry is kept by the `find` filter, with efficiency 12..35 |
| `Kpi.KnownCostsPositive` | src/App.tsx:258-265 | the costs summed are positive |
| `Kpi.PlacedAll` | src/App.tsx:258-265 | `placedInterventions` has one entry per placed intervention |
| `Kpi.PlacedCostsPositive` | src/App.tsx:281 | every cost in the total is positive |
| `Kpi.AverageEfficiencyRange` | src/App.tsx:286-287 | the average efficiency lies in 12..35 when something is placed, and is 0 otherwise |
| `Kpi.MeanEfficiencyRange` | src/App.tsx:286-287 | the mean of placed efficiencies lies in 12..35 |
| `Kpi.CostEffectivenessNonNegative` | src/App.tsx:293 | the cost per unit of reduction is never negative |
| `Kpi.WellFormedCatalogCopies` | src/App.tsx:258-265 | a well-formed grid holds only catalog copies |
| `Forecast.Series` | src/App.tsx:711-751 | n points for years currentYear+1 … currentYear+n |
| `Forecast.MonteCarlo` | src/App.tsx:705-755 | the nested loops compute the specified series: `predictionYears` points for years currentYear+1, currentYear+2, … |
| `Forecast.SeriesPrefix` | src/App.tsx:716-748 | each point is the mean of 500 trials started from the previous point, or from the start emission for the first |
| `Forecast.MeanOfEqualTrials` | src/App.tsx:745 | the mean of equal trials is that value |
| `Forecast.ZeroGrowthIsFlat` | src/App.tsx:711-751 | with all rates 0, every value equals the start emission, whatever the draws |
| `Forecast.FactorAtLeastOne` | src/App.tsx:722-739 | a half-width below 1 and a non-negative rate give a factor of at least 1 |
| `Forecast.TrialGrows` | src/App.tsx:722-739 | with half-widths 0.5/0.4/0.6/0.3/0.3, no trial lowers a non-negative emission |
| `Forecast.Trial` | src/App.tsx:722-739 | specified by `Forecast.TrialGrows` and `Forecast.CentreTrial`: one trial scales the emission by the five drawn factors |
| `Forecast.MeanGrows` | src/App.tsx:745 | the yearly mean is at least the emission it started from |
| `Forecast.SeriesNonDecreasing` | src/App.tsx:711-751 | with non-negative rates and start, the series never decreases |
| `Forecast.SeriesAtLeastStart` | src/App.tsx:711-751 | every predicted value is at least the start emission |
| `Forecast.CentreTrial` | src/App.tsx:722-739 | with no variation drawn, a trial multiplies by the product of the five rates |
| `Forecast.CentreDrawsCompound` | src/App.tsx:711-751 | with no variation drawn, year k+1 is start × rate^(k+1) |
| `Forecast.CentreAt` | src/App.tsx:711-751 | with no variation drawn, the point of year k+1 is start × rate^(k+1), proved year by year |
| `Forecast.CentreYear` | src/App.tsx:716-745 | a year of 500 trials with no variation drawn multiplies the emission by the yearly rate |
| `Summary.SectorContributions` | src/App.tsx:758-799 | no forecast gives no sectors; otherwise Industrial, Residential, Commercial and Transport, in that order |
| `Summary.SharesSumToOne` | src/App.tsx:766-791 | the four shares add up to 1 |
| `Summary.ContributionsSplitLatest` | src/App.tsx:758-799 | the four values add up to the last year's emission; with zero total growth each is a quarter |
| `Summary.HighestIsFirstMaximum` | src/App.tsx:822-830 | the strict-`>` reduce picks the first sector reaching the maximum |
| `Summary.Highest` | src/App.tsx:822-830 | specified by `Summary.HighestIsFirstMaximum`: the first sector reaching the largest rate |
| `Summary.RateExtremes` | src/App.tsx:835-838 | `Math.max`/`Math.min` give the largest and smallest of the five rates |
| `Summary.ConfidenceSpec` | src/App.tsx:835-841 | the confidence score lies in [0, 100]; it is 100 exactly when all five rates are equal, and 0 once they spread over 50 |
| `Summary.Confidence` | src/App.tsx:835-841 | specified by `Summary.ConfidenceSpec`: a score in [0, 100], 100 exactly for equal rates |
| `Summary.PredictionSummarySpec` | src/App.tsx:802-849 | the summary gives the final emission; the sector picked is the first maximum; the average growth is undefined exactly when the start is 0, and otherwise times the years gives the total percent change |
| `Summary.PredictionSummary` | src/App.tsx:802-849 | specified by `Summary.PredictionSummarySpec` and `Summary.EmptySummary` |
| `Summary.EmptySummary` | src/App.tsx:757-809 | with no forecast the summary is 0 / 0 / "N/A" / 0 and there are no sectors |
| `Session.WithSlider` | src/App.tsx:380 | the named slider takes the value; the seven others keep theirs |
| `Session.Saved` | src/App.tsx:346-354 | saving keeps the grid length |
| `Session.Loaded` | src/App.tsx:357-364 | specified by `Session.SavedSpec`: after a save, loading the selected cell gives back the saved sliders |
| `Session.SavedSpec` | src/App.tsx:346-364 | saving changes only the selected cell's snapshot, and loading it gives back the saved sliders |
| `Session.SavedWellFormed` | src/App.tsx:346-354 | saving keeps the invariant and every emission |
| `Session.SaveThenUpdate` | src/App.tsx:379-386 | saving before an update changes no recomputed emission |
| `Session.Planner.constructor` | src/App.tsx:86-203 | the initial state: the built grid, no selection, the initial sliders, no growth, 5 years |
| `Session.Planner.SaveParams` | src/App.tsx:346-354 | the array becomes the saved grid |
| `Session.Planner.Select` | src/App.tsx:366-377 | the previous selection is saved; an index row·12+col in range selects that cell (as before the save) and loads its sliders; otherwise the selection and sliders stay |
| `Session.Planner.UpdateFromParameters` | src/App.tsx:421-480 | the array becomes the updated grid |
| `Session.Planner.ChangeParameter` | src/App.tsx:379-386 | the sliders take the new value; the old sliders are saved; the neighbourhood is recomputed with the new ones |
| `Session.Planner.PlaceIntervention` | src/App.tsx:502-535 | the array becomes the placed grid and stays well formed |
| `Session.Planner.PlaceEach` | src/App.tsx:520-535 | the per-cell mapping of a placement |
| `Session.Planner.RemoveIntervention` | src/App.tsx:554-590 | the array becomes the removed grid and stays well formed |
| `Session.Planner.RemoveEach` | src/App.tsx:575-589 | the loop applies the per-cell removal mapping |
| `Session.Planner.RunSimulation` | src/App.tsx:482-500 | the neighbourhood is recomputed with the current sliders; the recommendations come from the grid before that |
| `Session.Planner.RunPrediction` | src/App.tsx:705-755 | the forecast is the series started from the current KPI total, one point per horizon year; with non-negative rates, draws within their half-widths and a non-negative total, it never decreases |
| `Session.Planner.EmissionView` | src/App.tsx:327-338 | the view shows each cell's emission at its row and column |
| `Session.Planner.SetGrowth` | src/App.tsx:100-104 | the growth rates take the given values; nothing else changes |
| `Session.Planner.SetPredictionYears` | src/App.tsx:1456-1460 | a value from 1 to 20 becomes the horizon, any other value is ignored; nothing else changes |

## Left out

- Rendering is left out because it is presentation: JSX, charts, tabs and layout, `RecommendationPanel` and `LoginPage`.
- The geocoding `fetch` is left out: it is network I/O, and its only use is to label the forecast.
- Toasts and the one-second `setTimeout` of a simulation run are asynchronous UI timing; a run is modelled as the callback alone.
- `Math.random()` and `new Date().getFullYear()` become inputs: zone and draw sequences for the grid, trial draws for the forecast, and a year parameter.
- IEEE floating-point rounding is left out; the arithmetic is exact `real`.
- The mirrored `selectedCell` copy after a placement or removal is left out; the selection is used only for its id and position.
- React's batching of state updates is left out, and so are stale closures beyond the three cases kept above (the saved sliders of a slider change, the grid read by a selection, and the grid used for recommendations).
- The mock `historicalData` and `emissionsByType` are fixed display data.
- `handleCellClick` and `getAffectedCellIds` are left out: they set the selection for display and list ids for highlighting, and the neighbour ids (`Neighborhood.IdsOf`) cover the latter.
- Icons and the explanation text of recommendations are not kept; they do not affect any computed value.
- `Neighborhood.Find`: its contract is stated in the lemma `Neighborhood.FindSpec` rather than in the function: the quantified postcondition on the recursive function made the neighbour search too costly to verify.
- `Session.Planner.SetGrowth`: the five growth inputs are set together, not one per input field, and any rate is accepted; the sliders' bounds (population 0..10 at src/App.tsx:1376-1377, vehicles 0..15 at 1391-1392, industry 0..20 at 1406-1407, residential 0..10 at 1421-1422, commercial 0..10 at 1436-1437) belong to the rendering and are all non-negative, so non-negative rates appear as a hypothesis of `Session.Planner.RunPrediction`'s non-decrease clause.

