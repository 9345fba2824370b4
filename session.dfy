/** The sandbox's component state as one object: the grid array, the
    selected cell, the sliders, the growth rates and the forecast, with the
    handlers that change them (src/App.tsx:86-120, 346-387, 421-608, 705-755). */
module Session {
  import opened Types
  import opened Factors
  import opened Interventions
  import opened CellIds
  import opened Grid
  import opened Neighborhood
  import opened Recommend
  import opened Kpi
  import opened Forecast

  /** The keys of `SimulationParameters`. */
  datatype Slider = Green | Building | Water | Vehicles | IndustrialActivity | Energy | Congestion | PublicTransport

  function SliderValue(p: Params, key: Slider): real
  {
    match key
    case Green => p.green
    case Building => p.building
    case Water => p.water
    case Vehicles => p.vehicles
    case IndustrialActivity => p.industrial
    case Energy => p.energy
    case Congestion => p.congestion
    case PublicTransport => p.publicTransport
  }

  /** `{ ...parameters, [key]: value }`: the named slider takes the value,
      the seven others keep theirs. */
  function WithSlider(p: Params, key: Slider, value: real): (q: Params)
    ensures SliderValue(q, key) == value
    ensures forall k :: k != key ==> SliderValue(q, k) == SliderValue(p, k)
  {
    match key
    case Green => p.(green := value)
    case Building => p.(building := value)
    case Water => p.(water := value)
    case Vehicles => p.(vehicles := value)
    case IndustrialActivity => p.(industrial := value)
    case Energy => p.(energy := value)
    case Congestion => p.(congestion := value)
    case PublicTransport => p.(publicTransport := value)
  }

  // ---------------------------------------------------------------------------
  // Per-cell slider snapshots

  /** `saveParamsToCurrentCell()` on a grid: with a selection, every cell
      with the selected id stores a copy of p. */
  function Saved(cells: seq<Cell>, sel: Option<Cell>, p: Params): (r: seq<Cell>)
    ensures |r| == |cells|
  {
    match sel
    case None => cells
    case Some(s) => seq(|cells|, i requires 0 <= i < |cells| => SavedAt(cells[i], s.id, p))
  }

  /** One cell of the save mapping. */
  function SavedAt(c: Cell, id: string, p: Params): Cell
  {
    if c.id == id then c.(savedParams := Some(p)) else c
  }

  /** `loadParamsFromCell(cell)`: the cell's snapshot, or the severity-band
      defaults of its base emission when it has none. */
  function Loaded(c: Cell): Params
  {
    match c.savedParams
    case None => DefaultParams(c.baseEmission)
    case Some(q) => q
  }

  /** Saving touches only snapshots: no selection changes nothing; otherwise
      the selected cell stores p, and emissions, interventions and every
      other cell stay as they were. */
  lemma SavedSpec(cells: seq<Cell>, sel: Option<Cell>, p: Params, i: nat)
    requires i < |cells|
    ensures sel.None? ==> Saved(cells, sel, p) == cells
    ensures Saved(cells, sel, p)[i] == cells[i].(savedParams := Saved(cells, sel, p)[i].savedParams)
    ensures sel.Some? && cells[i].id == sel.value.id ==> Loaded(Saved(cells, sel, p)[i]) == p
    ensures sel.Some? && cells[i].id != sel.value.id ==> Saved(cells, sel, p)[i] == cells[i]
  {
  }

  /** Saving keeps the grid invariant and leaves the view and the KPIs as
      they were. */
  lemma SavedWellFormed(cells: seq<Cell>, sel: Option<Cell>, p: Params)
    requires WellFormed(cells)
    ensures WellFormed(Saved(cells, sel, p))
    ensures Emissions(Saved(cells, sel, p)) == Emissions(cells)
  {
    var r := Saved(cells, sel, p);
    assert forall i :: 0 <= i < |cells| ==> r[i].emission == cells[i].emission;
  }

  /** A recomputation ignores snapshots: saving before an update changes no
      emission the update computes. */
  lemma SaveThenUpdate(cells: seq<Cell>, sel: Option<Cell>, p: Params, q: Params, i: nat)
    requires WellFormed(cells) && i < |cells|
    ensures Updated(Saved(cells, sel, p), sel, q)[i].emission == Updated(cells, sel, q)[i].emission
  {
    SavedWellFormed(cells, sel, p);
    var s := Saved(cells, sel, p);
    if sel.Some? {
      UpdatedLocality(cells, sel.value, q, i);
      UpdatedLocality(s, sel.value, q, i);
    }
  }

  /** One cell of the removal mapping. */
  function RemovedAt(c: Cell, cellId: string, typeId: string): Cell
  {
    if c.id == cellId then RemoveFromCell(c, typeId) else c
  }

  // ---------------------------------------------------------------------------
  // The component state

  class Planner {
    /** `gridData`: 144 cells, row-major. */
    var cells: array<Cell>
    /** `selectedCell`: a copy of the grid cell picked last. */
    var selected: Option<Cell>
    /** `parameters`: the eight sliders. */
    var params: Params
    /** The five growth-rate inputs of the forecast. */
    var growth: Growth
    var predictionYears: nat
    var predictionResults: seq<Point>
    var recommendations: seq<Recommendation>

    predicate Valid()
      reads this, cells
    {
      cells.Length == CellCount && WellFormed(cells[..])
    }

    /** The initial state: the grid built from one zone and one draw per
        cell, nothing selected, the initial sliders, no growth and a five-year
        horizon. */
    constructor (zones: seq<Zone>, draws: seq<real>)
      requires GridInputs(zones, draws)
      ensures Valid() && fresh(cells)
      ensures cells[..] == InitialCells(zones, draws)
      ensures selected == None && params == InitialSliders && growth == NoGrowth
      ensures predictionYears == 5 && predictionResults == [] && recommendations == []
    {
      var built := BuildCells(zones, draws);
      InitialCellsWellFormed(zones, draws);
      cells := new Cell[CellCount](i requires 0 <= i < CellCount => built[i]);
      selected := None;
      params := InitialSliders;
      growth := NoGrowth;
      predictionYears := 5;
      predictionResults := [];
      recommendations := [];
      new;
      assert cells[..] == built;
    }

    /** `saveParamsToCurrentCell()`. */
    method SaveParams()
      requires Valid()
      modifies cells
      ensures Valid()
      ensures cells[..] == Saved(old(cells[..]), selected, params)
    {
      SavedWellFormed(cells[..], selected, params);
      match selected
      case None =>
      case Some(s) =>
        ghost var before := cells[..];
        for i := 0 to cells.Length
          invariant forall k :: 0 <= k < i ==> cells[k] == SavedAt(before[k], s.id, params)
          invariant forall k :: i <= k < cells.Length ==> cells[k] == before[k]
        {
          cells[i] := SavedAt(cells[i], s.id, params);
        }
        assert cells[..] == Saved(before, selected, params);
    }

    /** `handleCellSelect({row, col})`: the sliders are first saved to the
        previous selection; then, when `row * 12 + col` indexes the grid, the
        cell found there (as it was before the save) is selected and its
        snapshot, or its defaults, become the sliders. */
    method Select(row: int, col: int)
      requires Valid()
      modifies this, cells
      ensures Valid() && cells == old(cells)
      ensures cells[..] == Saved(old(cells[..]), old(selected), old(params))
      ensures var index := row * Side + col;
        if 0 <= index < CellCount then selected == Some(old(cells[index])) && params == Loaded(old(cells[index]))
        else selected == old(selected) && params == old(params)
      ensures growth == old(growth) && predictionYears == old(predictionYears)
      ensures predictionResults == old(predictionResults) && recommendations == old(recommendations)
    {
      var index := row * Side + col;
      var found: Option<Cell> := if 0 <= index < cells.Length then Some(cells[index]) else None;
      SaveParams();
      if found.Some? {
        params := Loaded(found.value);
        selected := found;
      }
    }

    /** `updateGridDataFromParameters(p)`: with a selection, the selected
        cell and its clipped 3 × 3 neighbourhood are recomputed from their
        base emissions; without one the grid stays as it is. */
    method UpdateFromParameters(p: Params)
      requires Valid()
      modifies cells
      ensures Valid()
      ensures cells[..] == Updated(old(cells[..]), selected, p)
    {
      UpdatedWellFormed(cells[..], selected, p);
      match selected
      case None =>
      case Some(s) =>
        ghost var before := cells[..];
        var ns := NeighboringCells(s, cells[..]);
        var ids := IdsOf(ns);
        for i := 0 to cells.Length
          invariant forall k :: 0 <= k < i ==> cells[k] == Refreshed(before[k], ids, p)
          invariant forall k :: i <= k < cells.Length ==> cells[k] == before[k]
        {
          cells[i] := Refreshed(cells[i], ids, p);
        }
        assert cells[..] == Updated(before, selected, p);
    }

    /** `handleParameterChange(key, value)`: the slider takes the new value;
        the snapshot saved to the selection is the one from before the change
        (the handler saves the sliders it closed over); the neighbourhood is
        then recomputed with the new sliders. */
    method ChangeParameter(key: Slider, value: real)
      requires Valid()
      modifies this, cells
      ensures Valid() && cells == old(cells)
      ensures params == WithSlider(old(params), key, value)
      ensures cells[..] == Updated(Saved(old(cells[..]), selected, old(params)), selected, params)
      ensures selected == old(selected) && growth == old(growth) && predictionYears == old(predictionYears)
      ensures predictionResults == old(predictionResults) && recommendations == old(recommendations)
    {
      var newParams := WithSlider(params, key, value);
      SaveParams();
      params := newParams;
      UpdateFromParameters(newParams);
    }

    /** `handlePlaceIntervention(typeId, cellId)`. */
    method PlaceIntervention(typeId: string, cellId: string)
      requires Valid()
      modifies cells
      ensures Valid()
      ensures cells[..] == Placed(old(cells[..]), typeId, cellId)
    {
      ghost var before := cells[..];
      var found := Lookup(typeId);
      if found.Some? {
        PlaceEach(found.value, cellId);
        assert cells[..] == Placed(before, typeId, cellId);
      }
      PlacedWellFormed(before, typeId, cellId);
    }

    /** The `setGridData` mapping of a placement of the catalog entry t. */
    method PlaceEach(t: InterventionType, cellId: string)
      modifies cells
      ensures forall k :: 0 <= k < cells.Length ==>
        cells[k] == if old(cells[k]).id == cellId then PlaceInCell(old(cells[k]), t) else old(cells[k])
    {
      for i := 0 to cells.Length
        invariant forall k :: 0 <= k < i ==>
          cells[k] == if old(cells[k]).id == cellId then PlaceInCell(old(cells[k]), t) else old(cells[k])
        invariant forall k :: i <= k < cells.Length ==> cells[k] == old(cells[k])
      {
        if cells[i].id == cellId {
          cells[i] := PlaceInCell(cells[i], t);
        }
      }
    }

    /** `handleRemoveIntervention(key)`. */
    method RemoveIntervention(key: string)
      requires Valid()
      modifies cells
      ensures Valid()
      ensures cells[..] == Removed(old(cells[..]), key)
    {
      ghost var before := cells[..];
      var (cellId, typeId) := ParseKey(key);
      RemoveEach(cellId, typeId);
      assert cells[..] == Removed(before, key);
      RemovedWellFormed(before, key);
    }

    /** The `setGridData` mapping of a removal from the cells with id cellId. */
    method RemoveEach(cellId: string, typeId: string)
      modifies cells
      ensures forall k :: 0 <= k < cells.Length ==> cells[k] == RemovedAt(old(cells[k]), cellId, typeId)
    {
      for i := 0 to cells.Length
        invariant forall k :: 0 <= k < i ==> cells[k] == RemovedAt(old(cells[k]), cellId, typeId)
        invariant forall k :: i <= k < cells.Length ==> cells[k] == old(cells[k])
      {
        cells[i] := RemovedAt(cells[i], cellId, typeId);
      }
    }

    /** `handleRunSimulation()` once its delay has passed: the neighbourhood
        is recomputed with the current sliders, and the recommendations are
        generated from the grid the handler closed over, that is the grid as
        it was before this recomputation. */
    method RunSimulation()
      requires Valid()
      modifies this, cells
      ensures Valid() && cells == old(cells)
      ensures cells[..] == Updated(old(cells[..]), selected, params)
      ensures recommendations == Recommendations(old(cells[..]))
      ensures selected == old(selected) && params == old(params) && growth == old(growth)
      ensures predictionYears == old(predictionYears) && predictionResults == old(predictionResults)
    {
      var recs := Recommendations(cells[..]);
      UpdateFromParameters(params);
      recommendations := recs;
    }

    /** Sets the five growth rates of the forecast. */
    method SetGrowth(g: Growth)
      modifies this
      ensures growth == g && cells == old(cells) && selected == old(selected) && params == old(params)
      ensures predictionYears == old(predictionYears) && predictionResults == old(predictionResults)
      ensures recommendations == old(recommendations)
    {
      growth := g;
    }

    /** The horizon field's change handler: a value from 1 to 20 is taken,
        any other value leaves the horizon as it was. */
    method SetPredictionYears(value: int)
      modifies this
      ensures predictionYears == if 1 <= value <= 20 then value else old(predictionYears)
      ensures cells == old(cells) && selected == old(selected) && params == old(params)
      ensures growth == old(growth) && predictionResults == old(predictionResults)
      ensures recommendations == old(recommendations)
    {
      if 1 <= value <= 20 {
        predictionYears := value;
      }
    }

    /** `runMonteCarloPrediction()` with the current year and the draws as
        inputs: the forecast starts from the current total emission. */
    method RunPrediction(currentYear: int, draws: seq<seq<TrialDraw>>)
      requires Valid() && DrawsFor(predictionYears, draws)
      modifies this
      ensures Valid() && cells == old(cells)
      ensures selected == old(selected) && params == old(params) && growth == old(growth)
      ensures predictionYears == old(predictionYears) && recommendations == old(recommendations)
      ensures predictionResults
        == Series(CalculateKpis(cells[..]).totalEmissions, growth, currentYear, draws, predictionYears)
      ensures |predictionResults| == predictionYears
      ensures ValidDraws(predictionYears, draws) && NonNegativeGrowth(growth)
              && CalculateKpis(cells[..]).totalEmissions >= 0.0 ==>
        forall k :: 0 <= k < predictionYears - 1 ==>
          predictionResults[k].emission <= predictionResults[k + 1].emission
    {
      var start := CalculateKpis(cells[..]).totalEmissions;
      predictionResults := MonteCarlo(start, growth, predictionYears, currentYear, draws);
      if ValidDraws(predictionYears, draws) && NonNegativeGrowth(growth) && start >= 0.0 {
        SeriesNonDecreasing(start, growth, currentYear, draws, predictionYears);
      }
    }

    /** `cellEmissions`: the row-major 12 × 12 view of the grid. */
    method EmissionView() returns (m: seq<seq<real>>)
      requires Valid()
      ensures |m| == Side && forall r :: 0 <= r < Side ==> |m[r]| == Side
      ensures forall i :: 0 <= i < CellCount ==> m[cells[i].y][cells[i].x] == cells[i].emission
    {
      m := CellEmissions(cells[..]);
      forall i | 0 <= i < CellCount ensures m[cells[i].y][cells[i].x] == cells[i].emission {
        ViewIsRowMajor(cells[..], i);
      }
    }
  }
}
