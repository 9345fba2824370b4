/** Parameter propagation to the selected cell and its clipped 3 × 3
    neighbourhood (src/App.tsx:389-411, 421-480). */
module Neighborhood {
  import opened Types
  import opened Factors
  import opened Interventions
  import opened Grid

  predicate InBounds(x: int, y: int) { 0 <= x < Side && 0 <= y < Side }

  /** Within Chebyshev distance 1 of (cx, cy). */
  predicate Near(c: Cell, cx: int, cy: int)
  {
    -1 <= c.x - cx <= 1 && -1 <= c.y - cy <= 1
  }

  /** `allCells.find(cell => cell.x === x && cell.y === y)`: the first cell
      at that position, if any. */
  function Find(cells: seq<Cell>, x: int, y: int): Option<Cell>
  {
    if |cells| == 0 then None
    else if cells[0].x == x && cells[0].y == y then Some(cells[0])
    else Find(cells[1..], x, y)
  }

  /** Find returns a cell at the position exactly when there is one, and
      then the first one. */
  lemma {:induction false} FindSpec(cells: seq<Cell>, x: int, y: int)
    ensures var r := Find(cells, x, y);
      && (r.Some? ==> exists i :: 0 <= i < |cells| && cells[i] == r.value && r.value.x == x && r.value.y == y
                        && forall j :: 0 <= j < i ==> !(cells[j].x == x && cells[j].y == y))
      && (r.None? <==> forall i :: 0 <= i < |cells| ==> !(cells[i].x == x && cells[i].y == y))
  {
    if |cells| > 0 && !(cells[0].x == x && cells[0].y == y) {
      FindSpec(cells[1..], x, y);
      var r := Find(cells, x, y);
      if r.Some? {
        var i :| 0 <= i < |cells[1..]| && cells[1..][i] == r.value
          && forall j :: 0 <= j < i ==> !(cells[1..][j].x == x && cells[1..][j].y == y);
        assert cells[i + 1] == r.value;
        forall j | 0 <= j < i + 1 ensures !(cells[j].x == x && cells[j].y == y) {
          if j > 0 {
            assert cells[j] == cells[1..][j - 1];
          }
        }
      } else {
        forall i | 0 <= i < |cells| ensures !(cells[i].x == x && cells[i].y == y) {
          if i > 0 {
            assert cells[i] == cells[1..][i - 1];
          }
        }
      }
    }
  }

  /** In a well-formed grid the cell found at an in-bounds position is the
      one stored at index y*12 + x. */
  lemma FindWellFormed(cells: seq<Cell>, x: int, y: int)
    requires WellFormed(cells) && InBounds(x, y)
    ensures Find(cells, x, y) == Some(cells[y * Side + x])
  {
    WellFormedIndex(cells, y * Side + x, x, y);
    FindSpec(cells, x, y);
    var r := Find(cells, x, y);
    var k :| 0 <= k < |cells| && cells[k] == r.value && r.value.x == x && r.value.y == y;
    WellFormedIndex(cells, k, x, y);
  }

  // ---------------------------------------------------------------------------
  // The nine candidate positions, visited with dx outer and dy inner

  /** The cell pushed for position (nx, ny), if the position is on the map
      and holds a cell. */
  function Candidate(cells: seq<Cell>, nx: int, ny: int): seq<Cell>
  {
    if InBounds(nx, ny) && Find(cells, nx, ny).Some? then [Find(cells, nx, ny).value] else []
  }

  /** What the inner loop has pushed for column offset dx after its first m
      row offsets dy = -1, 0, 1. */
  function ColumnUpTo(cells: seq<Cell>, cx: int, cy: int, dx: int, m: nat): (ns: seq<Cell>)
    requires -1 <= dx <= 1 && m <= 3
    ensures |ns| <= m
  {
    if m == 0 then [] else ColumnUpTo(cells, cx, cy, dx, m - 1) + Candidate(cells, cx + dx, cy + m - 2)
  }

  /** What the visit has pushed after its first n column offsets dx = -1, 0, 1. */
  function BlockUpTo(cells: seq<Cell>, cx: int, cy: int, n: nat): (ns: seq<Cell>)
    requires n <= 3
    ensures |ns| <= 3 * n
  {
    if n == 0 then [] else BlockUpTo(cells, cx, cy, n - 1) + ColumnUpTo(cells, cx, cy, n - 2, 3)
  }

  function Neighbors(cells: seq<Cell>, cx: int, cy: int): (ns: seq<Cell>)
    ensures |ns| <= 9
  {
    BlockUpTo(cells, cx, cy, 3)
  }

  lemma {:induction false} ColumnSound(cells: seq<Cell>, cx: int, cy: int, dx: int, m: nat)
    requires -1 <= dx <= 1 && m <= 3
    ensures forall c :: c in ColumnUpTo(cells, cx, cy, dx, m) ==>
      c in cells && InBounds(c.x, c.y) && Near(c, cx, cy)
  {
    if m > 0 {
      ColumnSound(cells, cx, cy, dx, m - 1);
      FindSpec(cells, cx + dx, cy + m - 2);
    }
  }

  lemma {:induction false} BlockSound(cells: seq<Cell>, cx: int, cy: int, n: nat)
    requires n <= 3
    ensures forall c :: c in BlockUpTo(cells, cx, cy, n) ==>
      c in cells && InBounds(c.x, c.y) && Near(c, cx, cy)
  {
    if n > 0 {
      BlockSound(cells, cx, cy, n - 1);
      ColumnSound(cells, cx, cy, n - 2, 3);
    }
  }

  /** Every collected cell is a grid cell, on the map, within Chebyshev
      distance 1 of the centre; at most nine are collected. */
  lemma NeighborsSound(cells: seq<Cell>, cx: int, cy: int)
    ensures |Neighbors(cells, cx, cy)| <= 9
    ensures forall c :: c in Neighbors(cells, cx, cy) ==>
      c in cells && InBounds(c.x, c.y) && Near(c, cx, cy)
  {
    BlockSound(cells, cx, cy, 3);
  }

  /** `getNeighboringCells`: nested loops over dx and dy, pushing each
      in-bounds cell found. */
  method NeighboringCells(center: Cell, cells: seq<Cell>) returns (ns: seq<Cell>)
    ensures ns == Neighbors(cells, center.x, center.y)
    ensures |ns| <= 9
    ensures forall m :: m in ns ==> m in cells && InBounds(m.x, m.y) && Near(m, center.x, center.y)
  {
    var cx, cy: int := center.x, center.y;
    ns := [];
    var dx: int := -1;
    while dx <= 1
      invariant -1 <= dx <= 2
      invariant ns == BlockUpTo(cells, cx, cy, dx + 1)
    {
      ghost var before := ns;
      var dy: int := -1;
      while dy <= 1
        invariant -1 <= dy <= 2
        invariant ns == before + ColumnUpTo(cells, cx, cy, dx, dy + 1)
      {
        var nx, ny := cx + dx, cy + dy;
        if InBounds(nx, ny) {
          var neighbor := Find(cells, nx, ny);
          if neighbor.Some? {
            ns := ns + [neighbor.value];
          }
        }
        dy := dy + 1;
      }
      dx := dx + 1;
    }
    NeighborsSound(cells, cx, cy);
  }

  lemma {:induction false} ColumnContains(cells: seq<Cell>, cx: int, cy: int, dx: int, m: nat, j: nat)
    requires -1 <= dx <= 1 && j < m <= 3
    ensures forall c :: c in Candidate(cells, cx + dx, cy + j - 1) ==> c in ColumnUpTo(cells, cx, cy, dx, m)
  {
    if j < m - 1 {
      ColumnContains(cells, cx, cy, dx, m - 1, j);
    }
  }

  lemma {:induction false} BlockContains(cells: seq<Cell>, cx: int, cy: int, n: nat, a: nat)
    requires a < n <= 3
    ensures forall c :: c in ColumnUpTo(cells, cx, cy, a - 1, 3) ==> c in BlockUpTo(cells, cx, cy, n)
  {
    if a < n - 1 {
      BlockContains(cells, cx, cy, n - 1, a);
    }
  }

  /** In a well-formed grid a cell is collected exactly when it lies within
      Chebyshev distance 1 of the centre. */
  lemma NeighborsMembership(cells: seq<Cell>, cx: int, cy: int, i: nat)
    requires WellFormed(cells) && i < |cells|
    ensures cells[i] in Neighbors(cells, cx, cy) <==> Near(cells[i], cx, cy)
  {
    var c := cells[i];
    NeighborsSound(cells, cx, cy);
    if Near(c, cx, cy) {
      ViewIsRowMajor(cells, i);
      FindWellFormed(cells, c.x, c.y);
      WellFormedIndex(cells, i, c.x, c.y);
      assert Candidate(cells, c.x, c.y) == [c];
      var dx, j := c.x - cx, c.y - cy + 1;
      assert c.x == cx + dx && c.y == cy + j - 1;
      ColumnContains(cells, cx, cy, dx, 3, j);
      BlockContains(cells, cx, cy, 3, dx + 1);
    }
  }

  // ---------------------------------------------------------------------------
  // Recomputing the neighbourhood from the sliders

  /** A cell recomputed from its base emission; its interventions stay in
      its list but no longer affect its emission. */
  function Recomputed(c: Cell, p: Params): Cell
  {
    c.(emission := ApplyFactors(c.baseEmission, c.zone, p))
  }

  function IdsOf(ns: seq<Cell>): seq<string>
  {
    seq(|ns|, k requires 0 <= k < |ns| => ns[k].id)
  }

  /** `updateGridDataFromParameters(params)` given the selected cell: with no
      selection the grid is returned as it is; otherwise every cell whose id
      is among the neighbours is recomputed. */
  function Updated(cells: seq<Cell>, sel: Option<Cell>, p: Params): (r: seq<Cell>)
    ensures |r| == |cells|
    ensures sel.None? ==> r == cells
    ensures forall i :: 0 <= i < |cells| ==> r[i] == cells[i] || r[i] == Recomputed(cells[i], p)
  {
    match sel
    case None => cells
    case Some(c) =>
      var ids := IdsOf(Neighbors(cells, c.x, c.y));
      seq(|cells|, i requires 0 <= i < |cells| => Refreshed(cells[i], ids, p))
  }

  /** One cell under the update: recomputed when its id is among `ids`. */
  function Refreshed(c: Cell, ids: seq<string>, p: Params): Cell
  {
    if c.id in ids then Recomputed(c, p) else c
  }

  /** Locality: on a well-formed grid exactly the cells within Chebyshev
      distance 1 of the selection are recomputed; every other cell is
      returned identical. */
  lemma UpdatedLocality(cells: seq<Cell>, c: Cell, p: Params, i: nat)
    requires WellFormed(cells) && i < |cells|
    ensures Updated(cells, Some(c), p)[i]
      == if Near(cells[i], c.x, c.y) then Recomputed(cells[i], p) else cells[i]
  {
    var ns := Neighbors(cells, c.x, c.y);
    NeighborsSound(cells, c.x, c.y);
    NeighborsMembership(cells, c.x, c.y, i);
    assert forall k :: 0 <= k < |ns| ==> IdsOf(ns)[k] == ns[k].id;
    if cells[i].id in IdsOf(ns) {
      var k :| 0 <= k < |ns| && IdsOf(ns)[k] == cells[i].id;
      assert ns[k] in ns;
      var j :| 0 <= j < |cells| && cells[j] == ns[k];
      WellFormedIdsUnique(cells, i, j);
    }
  }

  /** Index of the visit's k-th position. */
  function BlockIndex(cx: int, cy: int, k: nat): int
  {
    (cy + k % 3 - 1) * Side + (cx + k / 3 - 1)
  }

  lemma {:induction false} BlockCard(cx: int, cy: int, n: nat)
    ensures |set k | 0 <= k < n :: BlockIndex(cx, cy, k)| <= n
  {
    if n > 0 {
      BlockCard(cx, cy, n - 1);
      assert (set k | 0 <= k < n :: BlockIndex(cx, cy, k))
        == (set k | 0 <= k < n - 1 :: BlockIndex(cx, cy, k)) + {BlockIndex(cx, cy, n - 1)};
    }
  }

  /** At most nine cells, the centre included, are recomputed. */
  lemma UpdatedAtMostNine(cells: seq<Cell>, c: Cell, p: Params)
    requires WellFormed(cells)
    ensures |set i | 0 <= i < |cells| && Near(cells[i], c.x, c.y)| <= 9
  {
    var touched := set i | 0 <= i < |cells| && Near(cells[i], c.x, c.y);
    var block := set k | 0 <= k < 9 :: BlockIndex(c.x, c.y, k);
    forall i | i in touched ensures i in block {
      var k: nat := (cells[i].x - c.x + 1) * 3 + (cells[i].y - c.y + 1);
      assert k / 3 - 1 == cells[i].x - c.x && k % 3 - 1 == cells[i].y - c.y;
      assert i == (i / Side) * Side + i % Side;
      assert i == BlockIndex(c.x, c.y, k);
    }
    BlockCard(c.x, c.y, 9);
    assert touched <= block;
    assert |block| == |touched| + |block - touched|;
  }

  /** Recomputed emissions are non-negative, so the update keeps the grid
      invariant. */
  lemma UpdatedWellFormed(cells: seq<Cell>, sel: Option<Cell>, p: Params)
    requires WellFormed(cells)
    ensures WellFormed(Updated(cells, sel, p))
  {
  }

  /** Last writer wins: recomputing after a placement gives the cell the same
      emission as recomputing without it; the placement's effect is lost. */
  lemma UpdateDiscardsPlacement(cells: seq<Cell>, typeId: string, cellId: string,
                                c: Cell, p: Params, i: nat)
    requires WellFormed(cells) && i < |cells| && Near(cells[i], c.x, c.y)
    ensures Updated(Placed(cells, typeId, cellId), Some(c), p)[i].emission
         == Updated(cells, Some(c), p)[i].emission
         == ApplyFactors(cells[i].baseEmission, cells[i].zone, p)
  {
    var placed := Placed(cells, typeId, cellId);
    PlacedWellFormed(cells, typeId, cellId);
    UpdatedLocality(cells, c, p, i);
    UpdatedLocality(placed, c, p, i);
  }
}
