/** `add_mines`: rejection sampling of distinct mine positions.

    The calls to `random.randint` are replaced by a finite sequence of
    draws, each already a coordinate in `[0, len(field))²` as `randint`
    promises. The Python loop keeps drawing for as long as it needs; the
    model reports `OutOfDraws` when the given draws run out first. */
module Mines {
  import opened Coords

  datatype Placement =
    | Placed(mines: seq<Coord>)
    | TooManyMines   // the exception raised when there are more mines than cells
    | OutOfDraws     // the finite draw sequence ran out before enough distinct draws

  /** The draws with repeats removed, first occurrences kept in order: the
      reference for what rejection sampling keeps. */
  function Dedup(s: seq<Coord>): (r: seq<Coord>)
    ensures Distinct(r)
    ensures forall c :: c in r <==> c in s
    ensures |r| <= |s|
  {
    if s == [] then []
    else
      var kept := Dedup(s[..|s| - 1]);
      if s[|s| - 1] in kept then kept
      else
        DistinctConcat(kept, [s[|s| - 1]]);
        kept + [s[|s| - 1]]
  }

  /** Dropping the last draw drops at most the last kept cell. */
  lemma DedupStep(s: seq<Coord>)
    requires s != []
    ensures Dedup(s[..|s| - 1]) <= Dedup(s)
  {
  }

  /** Deduplicating a prefix of the draws gives a prefix of the deduplicated
      draws. */
  lemma {:induction false} DedupPrefix(s: seq<Coord>, k: nat)
    requires k <= |s|
    ensures |Dedup(s[..k])| <= |Dedup(s)|
    ensures Dedup(s[..k]) == Dedup(s)[..|Dedup(s[..k])|]
    decreases |s| - k
  {
    if k < |s| {
      DedupPrefix(s, k + 1);
      DedupStep(s[..k + 1]);
      assert s[..k + 1][..k] == s[..k];
    } else {
      assert s[..k] == s;
    }
  }

  /** `add_mines(n_mines, field)`: fails exactly when there are more mines
      than cells; otherwise, given enough distinct draws, returns exactly
      `n_mines` distinct on-board positions, namely the first `n_mines`
      distinct draws in the order they were drawn. */
  method AddMines(nMines: int, field: seq<seq<string>>, draws: seq<Coord>) returns (r: Placement)
    requires forall k :: 0 <= k < |draws| ==> InBounds(draws[k], |field|)
    ensures r.TooManyMines? <==> nMines > |field| * |field|
    ensures r.OutOfDraws? <==> nMines <= |field| * |field| && |Dedup(draws)| < nMines
    ensures r.Placed? ==> |r.mines| == (if nMines < 0 then 0 else nMines)
    ensures r.Placed? ==> Distinct(r.mines)
    ensures r.Placed? ==> forall k :: 0 <= k < |r.mines| ==> InBounds(r.mines[k], |field|)
    ensures r.Placed? ==> r.mines == Dedup(draws)[..|r.mines|]
  {
    if nMines > |field| * |field| {
      return TooManyMines;
    }
    var mines: seq<Coord> := [];
    var k := 0;
    while |mines| < nMines
      invariant 0 <= k <= |draws|
      invariant mines == Dedup(draws[..k])
      invariant |mines| <= (if nMines < 0 then 0 else nMines)
      decreases |draws| - k
    {
      if k == |draws| {
        assert draws[..k] == draws;
        return OutOfDraws;
      }
      assert draws[..k + 1][..k] == draws[..k];
      if draws[k] !in mines {
        mines := mines + [draws[k]];
      }
      k := k + 1;
    }
    DedupPrefix(draws, k);
    forall i | 0 <= i < |mines|
      ensures InBounds(mines[i], |field|)
    {
      assert mines[i] in draws[..k];
    }
    return Placed(mines);
  }

  /** Draws that hit every cell at least once always suffice for any mine
      count `add_mines` accepts. */
  lemma CoveringDrawsSuffice(nMines: int, size: nat, draws: seq<Coord>)
    requires forall c :: InBounds(c, size) ==> c in draws
    requires nMines <= size * size
    ensures nMines <= |Dedup(draws)|
  {
    var kept := Dedup(draws);
    DistinctCard(kept);
    SubsetCard(Cells(size), Elems(kept));
    CellsCard(size);
  }
}
