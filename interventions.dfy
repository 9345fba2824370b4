/** The intervention catalog and the capped stacking rule used when an
    intervention is placed on or removed from a cell (src/App.tsx:205-258,
    502-535, 557-590). */
module Interventions {
  import opened Types
  import opened Sums
  import opened CellIds

  /** A catalog entry. The description and icon strings are not kept. */
  datatype InterventionType = InterventionType(
    id: string, name: string, category: Category, efficiency: real, cost: real,
    suitableFor: seq<Zone>)

  const Catalog: seq<InterventionType> := [
    InterventionType("capture_unit_1", "Industrial CO₂ Capture Unit", CaptureUnit, 35.0, 50000.0,
                     [Industrial, Commercial]),
    InterventionType("capture_unit_2", "Compact Capture System", CaptureUnit, 20.0, 25000.0,
                     [Commercial, Transport]),
    InterventionType("vertical_garden_1", "Vertical Garden Wall", VerticalGarden, 15.0, 8000.0,
                     [Residential, Commercial]),
    InterventionType("vertical_garden_2", "Rooftop Garden System", VerticalGarden, 25.0, 15000.0,
                     [Residential, Commercial, Industrial]),
    InterventionType("solar_panel_1", "Solar Panel Array", SolarPanel, 12.0, 12000.0,
                     [Residential, Commercial, Industrial])
  ]

  /** Largest share of a cell's base emission that interventions may remove, in percent. */
  const Cap: real := 95.0

  /** Every catalog entry has an efficiency between 12 and 35 and a positive
      cost, and no two entries share an id. */
  lemma CatalogFacts()
    ensures forall k :: 0 <= k < |Catalog| ==>
      12.0 <= Catalog[k].efficiency <= 35.0 && Catalog[k].cost > 0.0
    ensures forall j, k :: 0 <= j < k < |Catalog| ==> Catalog[j].id != Catalog[k].id
  {
  }

  /** `availableInterventions.find(a => a.id === id)`. */
  function Lookup(id: string): (r: Option<InterventionType>)
    ensures r.Some? ==> r.value in Catalog && r.value.id == id
    ensures r.None? <==> forall k :: 0 <= k < |Catalog| ==> Catalog[k].id != id
  {
    LookupFrom(id, 0)
  }

  function LookupFrom(id: string, k: nat): (r: Option<InterventionType>)
    requires k <= |Catalog|
    ensures r.Some? ==> r.value in Catalog[k..] && r.value.id == id
    ensures r.None? <==> forall j :: k <= j < |Catalog| ==> Catalog[j].id != id
    decreases |Catalog| - k
  {
    if k == |Catalog| then None
    else if Catalog[k].id == id then Some(Catalog[k])
    else LookupFrom(id, k + 1)
  }

  /** The intervention record copied onto a cell when an entry is placed. */
  function Copy(t: InterventionType): (iv: Intervention)
    ensures iv.id == t.id && iv.efficiency == t.efficiency
  {
    Intervention(t.id, t.category, t.efficiency, t.name)
  }

  /** iv is a faithful copy of the catalog entry with its id. */
  predicate FromCatalog(iv: Intervention)
  {
    Lookup(iv.id).Some? && iv == Copy(Lookup(iv.id).value)
  }

  lemma FromCatalogEfficiency(iv: Intervention)
    requires FromCatalog(iv)
    ensures 12.0 <= iv.efficiency <= 35.0
  {
    CatalogFacts();
  }

  // ---------------------------------------------------------------------------
  // Capped stacking

  function Efficiencies(ivs: seq<Intervention>): seq<real>
  {
    seq(|ivs|, j requires 0 <= j < |ivs| => ivs[j].efficiency)
  }

  function TotalEfficiency(ivs: seq<Intervention>): real
  {
    Sum(Efficiencies(ivs))
  }

  function Min(a: real, b: real): real { if a <= b then a else b }

  /** `baseEmission * (1 - min(total efficiency, 95) / 100)`. */
  function StackedEmission(base: real, ivs: seq<Intervention>): real
  {
    base * (1.0 - Min(TotalEfficiency(ivs), Cap) / 100.0)
  }

  predicate NonNegativeEfficiencies(ivs: seq<Intervention>)
  {
    forall j :: 0 <= j < |ivs| ==> ivs[j].efficiency >= 0.0
  }

  /** With non-negative efficiencies the stacked emission lies between 5 %
      of the base and the base itself. */
  lemma StackedBounds(base: real, ivs: seq<Intervention>)
    requires base >= 0.0 && NonNegativeEfficiencies(ivs)
    ensures 0.05 * base <= StackedEmission(base, ivs) <= base
  {
    SumAtLeast(Efficiencies(ivs), 0.0);
    var m := Min(TotalEfficiency(ivs), Cap);
    assert 0.0 <= m <= 95.0;
    ScaledBetween(base, 1.0 - m / 100.0);
  }

  lemma ScaledBetween(base: real, f: real)
    requires base >= 0.0 && 0.05 <= f <= 1.0
    ensures 0.05 * base <= base * f <= base
  {
  }

  /** Once the efficiencies reach the cap, more interventions change nothing:
      the emission is 5 % of the base. */
  lemma StackedAtCap(base: real, ivs: seq<Intervention>)
    requires TotalEfficiency(ivs) >= Cap
    ensures StackedEmission(base, ivs) == 0.05 * base
  {
  }

  /** Below the cap every efficiency percentage point removes 1 % of the base. */
  lemma StackedBelowCap(base: real, ivs: seq<Intervention>)
    requires TotalEfficiency(ivs) <= Cap
    ensures StackedEmission(base, ivs) == base - base * TotalEfficiency(ivs) / 100.0
  {
  }

  /** The stacked emission depends only on the multiset of efficiencies, not
      on the order in which the interventions were placed. */
  lemma StackedOrderIndependent(base: real, a: seq<Intervention>, b: seq<Intervention>)
    requires multiset(Efficiencies(a)) == multiset(Efficiencies(b))
    ensures StackedEmission(base, a) == StackedEmission(base, b)
  {
    SumPermutation(Efficiencies(a), Efficiencies(b));
  }

  /** Placing capture_unit_1 (35) and then vertical_garden_2 (25) on a cell
      of base 100 leaves 40; three capture_unit_1 exceed the cap and leave 5. */
  lemma StackingExamples()
    ensures StackedEmission(100.0, [Copy(Catalog[0]), Copy(Catalog[3])]) == 40.0
    ensures StackedEmission(100.0, [Copy(Catalog[0]), Copy(Catalog[0]), Copy(Catalog[0])]) == 5.0
  {
    var a := [Copy(Catalog[0]), Copy(Catalog[3])];
    assert Efficiencies(a) == [35.0, 25.0];
    assert Sum([35.0, 25.0]) == Sum([35.0]) + 25.0;
    assert Sum([35.0]) == Sum([]) + 35.0;
    var b := [Copy(Catalog[0]), Copy(Catalog[0]), Copy(Catalog[0])];
    assert Efficiencies(b) == [35.0, 35.0, 35.0];
    SumConstant([35.0, 35.0, 35.0], 35.0);
  }

  // ---------------------------------------------------------------------------
  // Placing

  function PlaceInCell(c: Cell, t: InterventionType): Cell
  {
    var ivs := c.interventions + [Copy(t)];
    c.(interventions := ivs, emission := StackedEmission(c.baseEmission, ivs))
  }

  /** The grid after `handlePlaceIntervention(typeId, cellId)`. */
  function Placed(cells: seq<Cell>, typeId: string, cellId: string): seq<Cell>
  {
    match Lookup(typeId)
    case None => cells
    case Some(t) =>
      seq(|cells|, i requires 0 <= i < |cells| =>
        if cells[i].id == cellId then PlaceInCell(cells[i], t) else cells[i])
  }

  /** A known type appends exactly one copy with the catalog efficiency to
      every cell with that id and sets its emission by the capped rule; every
      other cell is untouched. */
  lemma PlacedSpec(cells: seq<Cell>, typeId: string, cellId: string, i: nat)
    requires i < |cells| && Lookup(typeId).Some?
    ensures var r := Placed(cells, typeId, cellId)[i];
      if cells[i].id == cellId then
        && |r.interventions| == |cells[i].interventions| + 1
        && r.interventions[..|cells[i].interventions|] == cells[i].interventions
        && r.interventions[|cells[i].interventions|].id == typeId
        && r.interventions[|cells[i].interventions|].efficiency == Lookup(typeId).value.efficiency
        && r.emission == StackedEmission(cells[i].baseEmission, r.interventions)
        && r.id == cells[i].id && r.baseEmission == cells[i].baseEmission
        && r.x == cells[i].x && r.y == cells[i].y && r.zone == cells[i].zone
        && r.interventions[|cells[i].interventions|] == Copy(Lookup(typeId).value)
        && r == cells[i].(interventions := r.interventions, emission := r.emission)
      else r == cells[i]
  {
    var r := Placed(cells, typeId, cellId)[i];
    if cells[i].id == cellId {
      assert r.interventions == cells[i].interventions + [Copy(Lookup(typeId).value)];
    }
  }

  /** An id missing from the catalog places nothing: the grid is returned
      as it is. */
  lemma PlacedUnknown(cells: seq<Cell>, typeId: string, cellId: string)
    requires Lookup(typeId).None?
    ensures Placed(cells, typeId, cellId) == cells
  {
  }

  /** With catalog efficiencies, a placed cell's emission lies between 5 % of
      its base and its base. */
  lemma PlacedEmissionBounds(cells: seq<Cell>, typeId: string, cellId: string, i: nat)
    requires i < |cells| && Lookup(typeId).Some? && cells[i].id == cellId
    requires cells[i].baseEmission >= 0.0
    requires forall j :: 0 <= j < |cells[i].interventions| ==> FromCatalog(cells[i].interventions[j])
    ensures var r := Placed(cells, typeId, cellId)[i];
      0.05 * cells[i].baseEmission <= r.emission <= cells[i].baseEmission
  {
    var r := Placed(cells, typeId, cellId)[i];
    var old_ := cells[i].interventions;
    assert forall j :: 0 <= j < |r.interventions| ==> r.interventions[j].efficiency >= 0.0 by {
      forall j | 0 <= j < |r.interventions| ensures r.interventions[j].efficiency >= 0.0 {
        CatalogFacts();
        if j < |old_| {
          FromCatalogEfficiency(old_[j]);
        }
      }
    }
    StackedBounds(cells[i].baseEmission, r.interventions);
  }

  // ---------------------------------------------------------------------------
  // Removing

  /** `interventions.filter(iv => iv.id !== typeId)`. */
  function Without(ivs: seq<Intervention>, typeId: string): (r: seq<Intervention>)
    ensures |r| <= |ivs|
  {
    if |ivs| == 0 then []
    else if ivs[0].id == typeId then Without(ivs[1..], typeId)
    else [ivs[0]] + Without(ivs[1..], typeId)
  }

  /** The filter keeps exactly the entries with another id, and is the
      identity on a list with no entry of that id. */
  lemma {:induction false} WithoutSpec(ivs: seq<Intervention>, typeId: string)
    ensures forall iv :: iv in Without(ivs, typeId) <==> iv in ivs && iv.id != typeId
    ensures (forall j :: 0 <= j < |ivs| ==> ivs[j].id != typeId) ==> Without(ivs, typeId) == ivs
  {
    if |ivs| > 0 {
      WithoutSpec(ivs[1..], typeId);
      assert ivs == [ivs[0]] + ivs[1..];
      if forall j :: 0 <= j < |ivs| ==> ivs[j].id != typeId {
        assert forall j :: 0 <= j < |ivs[1..]| ==> ivs[1..][j].id != typeId by {
          forall j | 0 <= j < |ivs[1..]| ensures ivs[1..][j].id != typeId {
            assert ivs[1..][j] == ivs[j + 1];
          }
        }
      }
    }
  }

  /** The filter drops every entry with the id and keeps every other entry
      exactly as often as it occurs. */
  lemma {:induction false} WithoutMultiset(ivs: seq<Intervention>, typeId: string)
    ensures forall iv :: multiset(Without(ivs, typeId))[iv] == if iv.id == typeId then 0 else multiset(ivs)[iv]
  {
    if |ivs| > 0 {
      WithoutMultiset(ivs[1..], typeId);
      assert ivs == [ivs[0]] + ivs[1..];
      assert multiset(ivs) == multiset{ivs[0]} + multiset(ivs[1..]);
      if ivs[0].id != typeId {
        assert multiset(Without(ivs, typeId)) == multiset{ivs[0]} + multiset(Without(ivs[1..], typeId));
      }
    }
  }

  /** Filtering is compatible with appending. */
  lemma {:induction false} WithoutAppend(a: seq<Intervention>, b: seq<Intervention>, typeId: string)
    ensures Without(a + b, typeId) == Without(a, typeId) + Without(b, typeId)
  {
    if |a| > 0 {
      assert (a + b)[1..] == a[1..] + b;
      WithoutAppend(a[1..], b, typeId);
    } else {
      assert a + b == b;
    }
  }

  function RemoveFromCell(c: Cell, typeId: string): Cell
  {
    var ivs := Without(c.interventions, typeId);
    c.(interventions := ivs, emission := StackedEmission(c.baseEmission, ivs))
  }

  /** The grid after `handleRemoveIntervention(key)`: the key is parsed into a
      cell id and a type id, every entry with that type id is dropped from the
      matching cells and their emission recomputed by the capped rule. */
  function Removed(cells: seq<Cell>, key: string): seq<Cell>
  {
    var (cellId, typeId) := ParseKey(key);
    seq(|cells|, i requires 0 <= i < |cells| =>
      if cells[i].id == cellId then RemoveFromCell(cells[i], typeId) else cells[i])
  }

  /** Removing the key of a placed intervention from cell "x-y" drops every
      entry of that type from the cells with id "x-y" only; when the cell had
      no entry of that type its list is unchanged, yet its emission is still
      rewritten to the intervention-derived value. */
  lemma RemovedSpec(cells: seq<Cell>, x: nat, y: nat, typeId: string, i: nat)
    requires i < |cells|
    ensures var r := Removed(cells, PlacedKey(CellId(x, y), typeId))[i];
      if cells[i].id == CellId(x, y) then
        && (forall j :: 0 <= j < |r.interventions| ==> r.interventions[j].id != typeId)
        && (forall iv :: iv in cells[i].interventions && iv.id != typeId ==> iv in r.interventions)
        && (forall iv: Intervention :: iv.id != typeId ==> multiset(r.interventions)[iv] == multiset(cells[i].interventions)[iv])
        && r.emission == StackedEmission(cells[i].baseEmission, r.interventions)
        && r == cells[i].(interventions := r.interventions, emission := r.emission)
        && ((forall j :: 0 <= j < |cells[i].interventions| ==> cells[i].interventions[j].id != typeId) ==>
              r.interventions == cells[i].interventions
              && r.emission == StackedEmission(cells[i].baseEmission, cells[i].interventions))
      else r == cells[i]
  {
    KeyRoundTrip(x, y, typeId);
    var r := Removed(cells, PlacedKey(CellId(x, y), typeId))[i];
    if cells[i].id == CellId(x, y) {
      assert r.interventions == Without(cells[i].interventions, typeId);
      WithoutSpec(cells[i].interventions, typeId);
      WithoutMultiset(cells[i].interventions, typeId);
      forall j | 0 <= j < |r.interventions| ensures r.interventions[j].id != typeId {
        assert r.interventions[j] in r.interventions;
      }
    }
  }

  /** Removing what was just placed on a cell that held no entry of that
      type restores its intervention list, and leaves the cell at the
      emission its interventions alone determine. */
  lemma RemoveUndoesPlace(cells: seq<Cell>, x: nat, y: nat, typeId: string, i: nat)
    requires i < |cells| && Lookup(typeId).Some? && cells[i].id == CellId(x, y)
    requires forall j :: 0 <= j < |cells[i].interventions| ==> cells[i].interventions[j].id != typeId
    ensures var r := Removed(Placed(cells, typeId, CellId(x, y)), PlacedKey(CellId(x, y), typeId))[i];
      r == cells[i].(emission := StackedEmission(cells[i].baseEmission, cells[i].interventions))
  {
    KeyRoundTrip(x, y, typeId);
    var t := Lookup(typeId).value;
    var p := Placed(cells, typeId, CellId(x, y));
    assert p[i].interventions == cells[i].interventions + [Copy(t)];
    WithoutAppend(cells[i].interventions, [Copy(t)], typeId);
    assert Copy(t).id == typeId && [Copy(t)][1..] == [];
    assert Without([Copy(t)], typeId) == [];
    WithoutSpec(cells[i].interventions, typeId);
    assert Without(p[i].interventions, typeId) == cells[i].interventions;
  }
}
