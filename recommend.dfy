/** The recommendation heuristic: cells with positive emission, highest
    first, each mapped to a fixed suggestion for its zone, top four kept
    (src/App.tsx:610-656). */
module Recommend {
  import opened Types
  import opened Interventions

  /** A suggestion for one cell. The explanation text is not kept. */
  datatype Recommendation = Recommendation(
    intervention: string, reductionPercent: real, cellId: string, zone: Zone, emission: real)

  /** `gridData.filter(cell => cell.emission > 0)`. */
  function Positive(cells: seq<Cell>): (r: seq<Cell>)
    ensures forall c :: c in r <==> c in cells && c.emission > 0.0
  {
    if |cells| == 0 then []
    else if cells[0].emission > 0.0 then [cells[0]] + Positive(cells[1..])
    else Positive(cells[1..])
  }

  predicate SortedDesc(s: seq<Cell>)
  {
    forall i, j :: 0 <= i < j < |s| ==> s[i].emission >= s[j].emission
  }

  /** Inserts c in front of the first element it is not below, so that
      among equal emissions earlier cells stay first. */
  function Insert(c: Cell, s: seq<Cell>): seq<Cell>
  {
    if |s| == 0 || s[0].emission <= c.emission then [c] + s
    else [s[0]] + Insert(c, s[1..])
  }

  lemma TailSorted(s: seq<Cell>)
    requires SortedDesc(s) && |s| > 0
    ensures SortedDesc(s[1..])
  {
    forall i, j | 0 <= i < j < |s[1..]| ensures s[1..][i].emission >= s[1..][j].emission {
      assert s[1..][i] == s[i + 1] && s[1..][j] == s[j + 1];
    }
  }

  /** Inserting adds exactly c and keeps a descending sequence descending;
      the new head is c or the old head. */
  lemma {:induction false} InsertSpec(c: Cell, s: seq<Cell>)
    ensures multiset(Insert(c, s)) == multiset(s) + multiset{c}
    ensures |Insert(c, s)| == |s| + 1
    ensures Insert(c, s)[0] == c || (|s| > 0 && Insert(c, s)[0] == s[0])
    ensures SortedDesc(s) ==> SortedDesc(Insert(c, s))
  {
    if |s| == 0 || s[0].emission <= c.emission {
    } else {
      InsertSpec(c, s[1..]);
      assert s == [s[0]] + s[1..];
      if SortedDesc(s) {
        TailSorted(s);
        var r := Insert(c, s);
        assert r == [s[0]] + Insert(c, s[1..]);
        forall i, j | 0 <= i < j < |r| ensures r[i].emission >= r[j].emission {
          if i == 0 {
            assert r[j] in multiset(Insert(c, s[1..]));
            assert r[j] in multiset(s[1..]) + multiset{c};
            if r[j] != c {
              assert r[j] in s[1..];
            }
          }
        }
      }
    }
  }

  /** The stable descending sort done by `sort((a, b) => b.emission - a.emission)`. */
  function SortDesc(s: seq<Cell>): seq<Cell>
  {
    if |s| == 0 then [] else Insert(s[0], SortDesc(s[1..]))
  }

  /** The sort returns a descending permutation of its input. */
  lemma {:induction false} SortSpec(s: seq<Cell>)
    ensures multiset(SortDesc(s)) == multiset(s)
    ensures |SortDesc(s)| == |s|
    ensures SortedDesc(SortDesc(s))
  {
    if |s| > 0 {
      SortSpec(s[1..]);
      InsertSpec(s[0], SortDesc(s[1..]));
      assert s == [s[0]] + s[1..];
    }
  }

  // ---------------------------------------------------------------------------
  // Stability

  /** The cells of s with emission exactly e, in order. */
  function WithEmission(s: seq<Cell>, e: real): seq<Cell>
  {
    if |s| == 0 then []
    else if s[0].emission == e then [s[0]] + WithEmission(s[1..], e)
    else WithEmission(s[1..], e)
  }

  lemma {:induction false} InsertStable(c: Cell, s: seq<Cell>, e: real)
    requires SortedDesc(s)
    ensures WithEmission(Insert(c, s), e)
         == if c.emission == e then [c] + WithEmission(s, e) else WithEmission(s, e)
  {
    if |s| == 0 || s[0].emission <= c.emission {
      assert ([c] + s)[1..] == s;
      if c.emission == e && |s| > 0 && s[0].emission < c.emission {
        AllBelow(s, e);
      }
    } else {
      TailSorted(s);
      InsertStable(c, s[1..], e);
      assert ([s[0]] + Insert(c, s[1..]))[1..] == Insert(c, s[1..]);
      if c.emission == e {
        assert s[0].emission > e;
      }
    }
  }

  /** In a descending sequence whose head is below e, no element equals e. */
  lemma {:induction false} AllBelow(s: seq<Cell>, e: real)
    requires SortedDesc(s) && |s| > 0 && s[0].emission < e
    ensures WithEmission(s, e) == []
  {
    if |s| > 1 {
      TailSorted(s);
      assert s[1].emission <= s[0].emission;
      AllBelow(s[1..], e);
    }
  }

  /** Stability: the sort keeps the grid order of cells with equal emission. */
  lemma {:induction false} SortStable(s: seq<Cell>, e: real)
    ensures WithEmission(SortDesc(s), e) == WithEmission(s, e)
  {
    if |s| > 0 {
      SortStable(s[1..], e);
      SortSpec(s[1..]);
      InsertStable(s[0], SortDesc(s[1..]), e);
    }
  }

  // ---------------------------------------------------------------------------
  // Suggestions

  /** The fixed suggestion per zone: name and reduction percent. */
  function Suggestion(zone: Zone): (string, real)
  {
    match zone
    case Industrial => ("Industrial CO₂ Capture Unit", 35.0)
    case Commercial => ("Rooftop Garden + Solar", 25.0)
    case Transport => ("Compact Roadside Capture", 20.0)
    case Residential => ("Vertical Garden Wall", 15.0)
  }

  /** Each suggested percentage is the efficiency of a catalog entry that is
      suitable for the zone: capture_unit_1 for industrial, vertical_garden_2
      for commercial, capture_unit_2 for transport and vertical_garden_1 for
      residential. */
  lemma SuggestionMatchesCatalog(zone: Zone)
    ensures exists k :: 0 <= k < |Catalog| && Catalog[k].efficiency == Suggestion(zone).1
                        && zone in Catalog[k].suitableFor
  {
    match zone
    case Industrial => assert Catalog[0].efficiency == 35.0 && Industrial in Catalog[0].suitableFor;
    case Commercial => assert Catalog[3].efficiency == 25.0 && Commercial in Catalog[3].suitableFor;
    case Transport => assert Catalog[1].efficiency == 20.0 && Transport in Catalog[1].suitableFor;
    case Residential => assert Catalog[2].efficiency == 15.0 && Residential in Catalog[2].suitableFor;
  }

  function Suggest(c: Cell): (r: Recommendation)
    ensures r.cellId == c.id && r.zone == c.zone && r.emission == c.emission
  {
    Recommendation(Suggestion(c.zone).0, Suggestion(c.zone).1, c.id, c.zone, c.emission)
  }

  function SuggestAll(s: seq<Cell>): seq<Recommendation>
  {
    seq(|s|, k requires 0 <= k < |s| => Suggest(s[k]))
  }

  function Min(a: nat, b: nat): nat { if a <= b then a else b }

  /** `generateRecommendations()`. */
  function Recommendations(cells: seq<Cell>): seq<Recommendation>
  {
    var all := SuggestAll(SortDesc(Positive(cells)));
    all[..Min(4, |all|)]
  }

  /** At most four recommendations, as many as there are positive cells up
      to four, each for a grid cell with positive emission, highest first,
      with the zone's fixed suggestion. */
  lemma RecommendationsSpec(cells: seq<Cell>)
    ensures var r := Recommendations(cells);
      && |r| == Min(4, |Positive(cells)|)
      && (forall k :: 0 <= k < |r| ==> r[k].emission > 0.0)
      && (forall k :: 0 <= k < |r| ==> exists c :: c in cells && r[k] == Suggest(c))
      && (forall k :: 0 <= k < |r| ==>
            r[k].intervention == Suggestion(r[k].zone).0 && r[k].reductionPercent == Suggestion(r[k].zone).1)
      && (forall i, j :: 0 <= i < j < |r| ==> r[i].emission >= r[j].emission)
  {
    var sorted := SortDesc(Positive(cells));
    SortSpec(Positive(cells));
    var r := Recommendations(cells);
    assert forall k :: 0 <= k < |r| ==> r[k] == Suggest(sorted[k]);
    forall k | 0 <= k < |r| ensures r[k].emission > 0.0 && exists c :: c in cells && r[k] == Suggest(c) {
      assert sorted[k] in multiset(sorted);
      assert sorted[k] in Positive(cells);
    }
  }

  /** Top four: a positive cell whose emission is above the last recommended
      one is itself recommended; with fewer than four positive cells every
      positive cell is. */
  lemma RecommendationsTop(cells: seq<Cell>, c: Cell)
    requires c in cells && c.emission > 0.0
    requires var r := Recommendations(cells); |r| < 4 || c.emission > r[|r| - 1].emission
    ensures Suggest(c) in Recommendations(cells)
  {
    var sorted := SortDesc(Positive(cells));
    SortSpec(Positive(cells));
    var r := Recommendations(cells);
    assert c in Positive(cells);
    assert c in multiset(sorted);
    var k :| 0 <= k < |sorted| && sorted[k] == c;
    assert k < 4;
    assert r[k] == Suggest(c);
  }

  /** For a positive emission, the filter keeps the cells of that emission
      in grid order. */
  lemma {:induction false} PositiveKeepsTies(cells: seq<Cell>, e: real)
    requires e > 0.0
    ensures WithEmission(Positive(cells), e) == WithEmission(cells, e)
  {
    if |cells| > 0 {
      PositiveKeepsTies(cells[1..], e);
      if cells[0].emission > 0.0 {
        assert ([cells[0]] + Positive(cells[1..]))[1..] == Positive(cells[1..]);
      }
    }
  }

  /** Ties keep grid order: the cells behind the recommendations of one
      emission appear in the order they have in the grid. */
  lemma RecommendationsKeepGridOrder(cells: seq<Cell>, e: real)
    ensures WithEmission(SortDesc(Positive(cells)), e) == WithEmission(Positive(cells), e)
    ensures e > 0.0 ==> WithEmission(SortDesc(Positive(cells)), e) == WithEmission(cells, e)
  {
    SortStable(Positive(cells), e);
    if e > 0.0 {
      PositiveKeepsTies(cells, e);
    }
  }
}
