/** `adj_coords`: the on-board neighbours of a cell, listed in the order the
    two nested `range` loops visit them (row-major over the 3 × 3 block
    centred on the cell). */
module Neighbours {
  import opened Coords

  /** Columns `j .. y + 1` of block row `i`, keeping the cells that pass the
      bounds-and-not-centre test. */
  function ScanCols(x: int, y: int, dim: int, i: int, j: int): (r: seq<Coord>)
    requires y - 1 <= j <= y + 2
    ensures forall n :: n in r <==> n.0 == i && j <= n.1 <= y + 1 && InBounds(n, dim) && n != (x, y)
    ensures forall k :: 0 <= k < |r| ==> r[k].0 == i
    ensures Distinct(r)
    ensures |r| <= y + 2 - j - (if i == x && j <= y then 1 else 0)
    decreases y + 2 - j
  {
    if j >= y + 2 then []
    else
      var rest := ScanCols(x, y, dim, i, j + 1);
      if 0 <= i < dim && 0 <= j < dim && (i != x || j != y) then
        assert (i, j) !in rest;
        [(i, j)] + rest
      else rest
  }

  /** Block rows `i .. x + 1`, each scanned column by column. */
  function ScanRows(x: int, y: int, dim: int, i: int): (r: seq<Coord>)
    requires x - 1 <= i <= x + 2
    ensures forall n :: n in r <==> i <= n.0 <= x + 1 && y - 1 <= n.1 <= y + 1 && InBounds(n, dim) && n != (x, y)
    ensures Distinct(r)
    ensures |r| <= 3 * (x + 2 - i) - (if i <= x then 1 else 0)
    decreases x + 2 - i
  {
    if i >= x + 2 then []
    else
      var here := ScanCols(x, y, dim, i, y - 1);
      var rest := ScanRows(x, y, dim, i + 1);
      DistinctConcat(here, rest);
      here + rest
  }

  /** `adj_coords(x, y, dim)`: exactly the on-board cells adjacent to
      `(x, y)`, each once, at most eight of them. */
  function AdjCoords(x: int, y: int, dim: int): (r: seq<Coord>)
    ensures forall n :: n in r <==> IsNeighbour((x, y), n, dim)
    ensures Distinct(r)
    ensures |r| <= 8
  {
    ScanRows(x, y, dim, x - 1)
  }

  /** The neighbour list of a cell, as a set. */
  function NeighbourSet(c: Coord, dim: int): (r: set<Coord>)
    ensures forall n :: n in r <==> IsNeighbour(c, n, dim)
    ensures |r| <= 8
  {
    var ns := AdjCoords(c.0, c.1, dim);
    DistinctCard(ns);
    Elems(ns)
  }
}
