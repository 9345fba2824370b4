/** The 12 × 12 grid: its construction, its invariant and its row-major
    emission view (src/App.tsx:175-203, 327-338). */
module Grid {
  import opened Types
  import opened CellIds
  import opened Factors
  import opened Interventions

  /** A uniform draw in [0, 1), standing in for one `Math.random()` call. */
  predicate IsDraw(u: real) { 0.0 <= u < 1.0 }

  /** Base emission drawn for a zone: industrial 30..90, commercial 20..60,
      transport 15..50, residential 5..30. */
  function BaseFromDraw(zone: Zone, u: real): (b: real)
    requires IsDraw(u)
    ensures zone == Industrial ==> 30.0 <= b < 90.0
    ensures zone == Commercial ==> 20.0 <= b < 60.0
    ensures zone == Transport ==> 15.0 <= b < 50.0
    ensures zone == Residential ==> 5.0 <= b < 30.0
  {
    match zone
    case Industrial => u * 60.0 + 30.0
    case Commercial => u * 40.0 + 20.0
    case Transport => u * 35.0 + 15.0
    case Residential => u * 25.0 + 5.0
  }

  /** The cell pushed at step i of the construction loop. */
  function InitialCell(i: nat, zone: Zone, u: real): Cell
    requires IsDraw(u)
  {
    var b := BaseFromDraw(zone, u);
    Cell(CellId(i % Side, i / Side), i % Side, i / Side, b, zone, [], b, Some(DefaultParams(b)))
  }

  /** Inputs of the construction: one zone and one base draw per cell. */
  predicate GridInputs(zones: seq<Zone>, draws: seq<real>)
  {
    |zones| == CellCount && |draws| == CellCount && forall i :: 0 <= i < |draws| ==> IsDraw(draws[i])
  }

  function InitialCells(zones: seq<Zone>, draws: seq<real>): (cells: seq<Cell>)
    requires GridInputs(zones, draws)
    ensures |cells| == CellCount
  {
    seq(CellCount, i requires 0 <= i < CellCount => InitialCell(i, zones[i], draws[i]))
  }

  /** The grid invariant: 144 cells stored row-major, each named "x-y" after
      its position, with a non-negative base and emission and only faithful
      catalog copies as interventions. */
  predicate WellFormed(cells: seq<Cell>)
  {
    && |cells| == CellCount
    && forall i :: 0 <= i < |cells| ==>
         && cells[i].x == i % Side && cells[i].y == i / Side
         && cells[i].id == CellId(cells[i].x, cells[i].y)
         && cells[i].baseEmission >= 0.0 && cells[i].emission >= 0.0
         && forall j :: 0 <= j < |cells[i].interventions| ==> FromCatalog(cells[i].interventions[j])
  }

  /** The grid loop pushes 144 cells; the result is the specified grid. */
  method BuildCells(zones: seq<Zone>, draws: seq<real>) returns (cells: seq<Cell>)
    requires GridInputs(zones, draws)
    ensures cells == InitialCells(zones, draws)
  {
    cells := [];
    var i := 0;
    while i < CellCount
      invariant 0 <= i <= CellCount
      invariant |cells| == i
      invariant forall k :: 0 <= k < i ==> cells[k] == InitialCell(k, zones[k], draws[k])
    {
      cells := cells + [InitialCell(i, zones[i], draws[i])];
      i := i + 1;
    }
  }

  /** A freshly built grid satisfies the invariant; every cell's emission is
      its base, in its zone's range, with default sliders of the two lowest
      severity bands (no initial base reaches 150). */
  lemma InitialCellsWellFormed(zones: seq<Zone>, draws: seq<real>)
    requires GridInputs(zones, draws)
    ensures WellFormed(InitialCells(zones, draws))
    ensures forall i :: 0 <= i < CellCount ==>
      var c := InitialCells(zones, draws)[i];
      && c.zone == zones[i] && c.baseEmission == BaseFromDraw(zones[i], draws[i])
      && c.emission == c.baseEmission && c.interventions == []
      && 5.0 <= c.emission < 90.0
      && c.savedParams == Some(DefaultParams(c.baseEmission))
      && c.baseEmission < 150.0 && DefaultParams(c.baseEmission).green >= 40.0
  {
  }

  /** Distinct positions of a well-formed grid carry distinct ids. */
  lemma WellFormedIdsUnique(cells: seq<Cell>, i: nat, j: nat)
    requires WellFormed(cells) && i < |cells| && j < |cells|
    ensures cells[i].id == cells[j].id <==> i == j
  {
    CellIdInjective(cells[i].x, cells[i].y, cells[j].x, cells[j].y);
    if cells[i].id == cells[j].id {
      assert i == (i / Side) * Side + i % Side;
      assert j == (j / Side) * Side + j % Side;
    }
  }

  /** The cell at column x, row y of a well-formed grid is at index y*12 + x. */
  lemma WellFormedIndex(cells: seq<Cell>, i: nat, x: nat, y: nat)
    requires WellFormed(cells) && i < |cells| && x < Side && y < Side
    ensures cells[i].x == x && cells[i].y == y <==> i == y * Side + x
  {
    assert i == (i / Side) * Side + i % Side;
  }

  // ---------------------------------------------------------------------------
  // Emission view

  /** The value shown at row r, column c: the emission of cell r*12 + c, or 0
      when the grid has no such cell. */
  function ViewAt(cells: seq<Cell>, r: nat, c: nat): real
  {
    if r * Side + c < |cells| then cells[r * Side + c].emission else 0.0
  }

  /** `cellEmissions`: fills a 12 × 12 array in nested loops. */
  method CellEmissions(cells: seq<Cell>) returns (m: seq<seq<real>>)
    ensures |m| == Side
    ensures forall r :: 0 <= r < Side ==> |m[r]| == Side
    ensures forall r, c :: 0 <= r < Side && 0 <= c < Side ==> m[r][c] == ViewAt(cells, r, c)
  {
    m := [];
    var row := 0;
    while row < Side
      invariant 0 <= row <= Side && |m| == row
      invariant forall r :: 0 <= r < row ==> |m[r]| == Side
      invariant forall r, c :: 0 <= r < row && 0 <= c < Side ==> m[r][c] == ViewAt(cells, r, c)
    {
      var line: seq<real> := [];
      var col := 0;
      while col < Side
        invariant 0 <= col <= Side && |line| == col
        invariant forall c :: 0 <= c < col ==> line[c] == ViewAt(cells, row, c)
      {
        var index := row * Side + col;
        line := line + [if index < |cells| then cells[index].emission else 0.0];
        col := col + 1;
      }
      m := m + [line];
      row := row + 1;
    }
  }

  /** On a well-formed grid the view is the map itself: the cell at column x,
      row y is shown at row y, column x. */
  lemma ViewIsRowMajor(cells: seq<Cell>, i: nat)
    requires WellFormed(cells) && i < |cells|
    ensures cells[i].y < Side && cells[i].x < Side
    ensures ViewAt(cells, cells[i].y, cells[i].x) == cells[i].emission
  {
    assert i == (i / Side) * Side + i % Side;
  }

  // ---------------------------------------------------------------------------
  // Placing and removing keep the invariant

  lemma CatalogCopiesNonNegative(ivs: seq<Intervention>)
    requires forall j :: 0 <= j < |ivs| ==> FromCatalog(ivs[j])
    ensures NonNegativeEfficiencies(ivs)
  {
    forall j | 0 <= j < |ivs| ensures ivs[j].efficiency >= 0.0 {
      FromCatalogEfficiency(ivs[j]);
    }
  }

  lemma PlacedWellFormed(cells: seq<Cell>, typeId: string, cellId: string)
    requires WellFormed(cells)
    ensures WellFormed(Placed(cells, typeId, cellId))
  {
    if Lookup(typeId).Some? {
      var t := Lookup(typeId).value;
      var r := Placed(cells, typeId, cellId);
      forall i | 0 <= i < |r| && cells[i].id == cellId
        ensures r[i].emission >= 0.0
        ensures forall j :: 0 <= j < |r[i].interventions| ==> FromCatalog(r[i].interventions[j])
      {
        assert r[i].interventions == cells[i].interventions + [Copy(t)];
        assert FromCatalog(Copy(t));
        CatalogCopiesNonNegative(r[i].interventions);
        StackedBounds(cells[i].baseEmission, r[i].interventions);
      }
    }
  }

  lemma RemovedWellFormed(cells: seq<Cell>, key: string)
    requires WellFormed(cells)
    ensures WellFormed(Removed(cells, key))
  {
    var r := Removed(cells, key);
    forall i | 0 <= i < |r| && cells[i].id == ParseKey(key).0
      ensures r[i].emission >= 0.0
      ensures forall j :: 0 <= j < |r[i].interventions| ==> FromCatalog(r[i].interventions[j])
    {
      WithoutSpec(cells[i].interventions, ParseKey(key).1);
      forall j | 0 <= j < |r[i].interventions| ensures FromCatalog(r[i].interventions[j]) {
        assert r[i].interventions[j] in cells[i].interventions;
      }
      CatalogCopiesNonNegative(r[i].interventions);
      StackedBounds(cells[i].baseEmission, r[i].interventions);
    }
  }
}
