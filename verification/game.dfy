/** The board state of `MinesweeperGUI` with its widgets stripped away:
    construction (`__init__`), the primary click (`left_click`, with its
    recursive cascade) and the secondary click (`right_click`). */
module Game {
  import opened Coords
  import opened Neighbours
  import opened Mines
  import opened Adjacency

  /** The fields of `MinesweeperGUI` that hold game state. `zero` is the
      adjacency grid; `flagged` stands for the buttons whose text is the
      flag symbol, which `right_click` keeps in step with that set until
      `end_game` relabels the hidden mines. */
  datatype Board = Board(
    dim: int,
    minesNum: int,
    flagsLeft: int,
    mines: seq<Coord>,
    zero: seq<seq<int>>,
    revealed: set<Coord>,
    flagged: set<Coord>)

  /** The calls `end_game(False)` and `end_game(True)`. */
  datatype Ending = Loss | Win

  /** What one primary click does: the new board, the cells it uncovered in
      the order it uncovered them, and the `end_game` calls made by the
      clicked cell's own handler, in order. */
  datatype Click = Click(board: Board, shown: seq<Coord>, endings: seq<Ending>)

  /** Construction either yields a board or the placement that failed. */
  datatype Setup = Ready(board: Board) | Refused(placement: Placement)

  /** The shape every board in play has: a `dim × dim` adjacency grid and
      only on-board cells uncovered or flagged. */
  predicate Shaped(b: Board)
  {
    IsGrid(b.zero, b.dim) && b.revealed <= Cells(b.dim) && b.flagged <= Cells(b.dim)
  }

  /** The invariant of a game in progress. */
  ghost predicate Valid(b: Board)
  {
    && Shaped(b)
    && Distinct(b.mines)
    && (forall k :: 0 <= k < |b.mines| ==> InBounds(b.mines[k], b.dim))
    && |b.mines| == (if b.minesNum < 0 then 0 else b.minesNum)
    && IsAdjacencyGrid(b.zero, Elems(b.mines), b.dim)
    && b.revealed !! b.flagged
    && b.flagsLeft + |b.flagged| == b.minesNum
    && (0 <= b.minesNum ==> 0 <= b.flagsLeft)
  }

  /** `MinesweeperGUI.__init__`, state only: the grids, the mines placed
      from the draws, the adjacency grid, a full flag budget and nothing
      uncovered or flagged yet. */
  method NewGame(dim: int, mines: int, draws: seq<Coord>) returns (r: Setup)
    requires forall k :: 0 <= k < |draws| ==> InBounds(draws[k], dim)
    ensures r.Refused? ==> r.placement.TooManyMines? || r.placement.OutOfDraws?
    ensures r.Refused? && r.placement.TooManyMines? <==> mines > (if dim < 0 then 0 else dim * dim)
    ensures r.Refused? && r.placement.OutOfDraws? <==>
      mines <= (if dim < 0 then 0 else dim * dim) && |Dedup(draws)| < mines
    ensures r.Ready? ==> |r.board.mines| == (if mines < 0 then 0 else mines)
    ensures r.Ready? ==> r.board.mines == Dedup(draws)[..|r.board.mines|]
    ensures r.Ready? ==> r.board.dim == dim && r.board.minesNum == mines && r.board.flagsLeft == mines
    ensures r.Ready? ==> r.board.revealed == {} && r.board.flagged == {}
    ensures r.Ready? && 0 <= dim ==> Valid(r.board)
  {
    var (cover, zero) := GenMatrix(dim);
    var placement := AddMines(mines, cover, draws);
    if !placement.Placed? {
      return Refused(placement);
    }
    var mList := placement.mines;
    var grid := GenAdjposMat(mList, zero);
    r := Ready(Board(dim, mines, mines, mList, grid, {}, {}));
    if 0 <= dim {
      AdjacencyCorrect(mList, dim);
    }
  }

  /** The cells of `t` are new: each once, on the board, neither already
      uncovered (in `rev`) nor flagged. */
  predicate Fresh(b: Board, rev: set<Coord>, t: seq<Coord>)
  {
    && Distinct(t)
    && forall k :: 0 <= k < |t| ==> InBounds(t[k], b.dim) && t[k] !in rev && t[k] !in b.flagged
  }

  /** Every uncovered zero cell of `t` has each of its neighbours uncovered
      (before or in `t`) or flagged. */
  ghost predicate Closed(b: Board, rev: set<Coord>, t: seq<Coord>)
    requires IsGrid(b.zero, b.dim)
  {
    forall d, n :: d in t && InBounds(d, b.dim) && At(b.zero, d) == 0 && IsNeighbour(d, n, b.dim) ==>
      n in rev || n in t || n in b.flagged
  }

  /** `d` is a zero cell next to `n`, the step by which a cascade spreads. */
  ghost predicate Spreads(b: Board, d: Coord, n: Coord)
    requires IsGrid(b.zero, b.dim)
  {
    InBounds(d, b.dim) && At(b.zero, d) == 0 && Adjacent(d, n)
  }

  /** Every cell of `t` is one of the `roots` or spreads from a zero cell
      uncovered earlier in `t`. */
  ghost predicate Reached(b: Board, t: seq<Coord>, roots: set<Coord>)
    requires IsGrid(b.zero, b.dim)
  {
    forall k :: 0 <= k < |t| ==>
      t[k] in roots || exists m :: 0 <= m < k && Spreads(b, t[m], t[k])
  }

  lemma RemoveOne(all: set<Coord>, rev: set<Coord>, c: Coord)
    requires c in all && c !in rev
    ensures |all - (rev + {c})| < |all - rev|
  {
    assert all - (rev + {c}) == (all - rev) - {c};
  }

  /** One call of `left_click` after the timer stamp, as seen by the board:
      the cells it uncovers, in order, given the cells `rev` uncovered so
      far. A flagged or uncovered cell is left alone; otherwise the cell is
      uncovered and, when it holds 0, every neighbour is clicked in turn. */
  function Cascade(b: Board, rev: set<Coord>, c: Coord): (t: seq<Coord>)
    requires IsGrid(b.zero, b.dim) && rev <= Cells(b.dim)
    requires InBounds(c, b.dim)
    ensures Fresh(b, rev, t)
    ensures t == [] <==> c in b.flagged || c in rev
    ensures t != [] ==> t[0] == c
    ensures Closed(b, rev, t)
    ensures Reached(b, t, {c})
    decreases |Cells(b.dim) - rev|, 0
  {
    if c in b.flagged || c in rev then []
    else if At(b.zero, c) == 0 then
      RemoveOne(Cells(b.dim), rev, c);
      var rest := CascadeAll(b, rev + {c}, AdjCoords(c.0, c.1, b.dim));
      StepFresh(b, rev, c, rest);
      StepClosed(b, rev, c, rest);
      StepReached(b, c, rest, Elems(AdjCoords(c.0, c.1, b.dim)));
      [c] + rest
    else [c]
  }

  /** The loop `for (i, j) in adj_coords(...): self.left_click(i, j)`:
      each listed cell clicked in turn, each click seeing the cells the
      earlier ones uncovered. */
  function CascadeAll(b: Board, rev: set<Coord>, cs: seq<Coord>): (t: seq<Coord>)
    requires IsGrid(b.zero, b.dim) && rev <= Cells(b.dim)
    requires forall k :: 0 <= k < |cs| ==> InBounds(cs[k], b.dim)
    ensures Fresh(b, rev, t)
    ensures forall k :: 0 <= k < |cs| ==> cs[k] in rev || cs[k] in t || cs[k] in b.flagged
    ensures Closed(b, rev, t)
    ensures Reached(b, t, Elems(cs))
    decreases |Cells(b.dim) - rev|, 1, |cs|
  {
    if cs == [] then []
    else
      var first := Cascade(b, rev, cs[0]);
      var rev' := rev + Elems(first);
      SubsetCard(Cells(b.dim) - rev', Cells(b.dim) - rev);
      var rest := CascadeAll(b, rev', cs[1..]);
      LoopFresh(b, rev, first, rest);
      LoopCovers(b, rev, cs, first, rest);
      LoopClosed(b, rev, first, rest);
      LoopReached(b, cs, first, rest);
      first + rest
  }

  /** A zero cell's cascade, `[c]` followed by the clicks on its
      neighbours, uncovers only new cells. */
  lemma StepFresh(b: Board, rev: set<Coord>, c: Coord, rest: seq<Coord>)
    requires InBounds(c, b.dim) && c !in b.flagged && c !in rev
    requires Fresh(b, rev + {c}, rest)
    ensures Fresh(b, rev, [c] + rest)
  {
    DistinctConcat([c], rest);
  }

  /** A zero cell's cascade leaves no zero cell with a covered, unflagged
      neighbour. */
  lemma StepClosed(b: Board, rev: set<Coord>, c: Coord, rest: seq<Coord>)
    requires IsGrid(b.zero, b.dim) && InBounds(c, b.dim)
    requires forall n :: n in AdjCoords(c.0, c.1, b.dim) ==> n in rev + {c} || n in rest || n in b.flagged
    requires Closed(b, rev + {c}, rest)
    ensures Closed(b, rev, [c] + rest)
  {
  }

  /** Every cell of a zero cell's cascade spreads from an earlier one. */
  lemma StepReached(b: Board, c: Coord, rest: seq<Coord>, roots: set<Coord>)
    requires IsGrid(b.zero, b.dim) && InBounds(c, b.dim) && At(b.zero, c) == 0
    requires forall n :: n in roots ==> Adjacent(c, n)
    requires Reached(b, rest, roots)
    ensures Reached(b, [c] + rest, {c})
  {
    var t := [c] + rest;
    forall k | 0 < k < |t|
      ensures exists m :: 0 <= m < k && Spreads(b, t[m], t[k])
    {
      var n := rest[k - 1];
      assert t[k] == n;
      if n in roots {
        assert Spreads(b, t[0], n);
      } else {
        var m :| 0 <= m < k - 1 && Spreads(b, rest[m], n);
        assert t[m + 1] == rest[m];
      }
    }
  }

  /** The clicks of the neighbour loop together uncover only new cells. */
  lemma LoopFresh(b: Board, rev: set<Coord>, first: seq<Coord>, rest: seq<Coord>)
    requires Fresh(b, rev, first) && Fresh(b, rev + Elems(first), rest)
    ensures Fresh(b, rev, first + rest)
  {
    DistinctConcat(first, rest);
  }

  /** After the neighbour loop every listed cell is uncovered or flagged. */
  lemma LoopCovers(b: Board, rev: set<Coord>, cs: seq<Coord>, first: seq<Coord>, rest: seq<Coord>)
    requires cs != []
    requires cs[0] in rev || cs[0] in first || cs[0] in b.flagged
    requires forall k :: 0 <= k < |cs[1..]| ==>
      cs[1..][k] in rev + Elems(first) || cs[1..][k] in rest || cs[1..][k] in b.flagged
    ensures forall k :: 0 <= k < |cs| ==> cs[k] in rev || cs[k] in first + rest || cs[k] in b.flagged
  {
    forall k | 1 <= k < |cs|
      ensures cs[k] in rev || cs[k] in first + rest || cs[k] in b.flagged
    {
      assert cs[k] == cs[1..][k - 1];
    }
  }

  /** The neighbour loop leaves no zero cell it uncovered with a covered,
      unflagged neighbour. */
  lemma LoopClosed(b: Board, rev: set<Coord>, first: seq<Coord>, rest: seq<Coord>)
    requires IsGrid(b.zero, b.dim)
    requires Closed(b, rev, first) && Closed(b, rev + Elems(first), rest)
    ensures Closed(b, rev, first + rest)
  {
  }

  /** Every cell the neighbour loop uncovers is listed or spreads from an
      earlier one. */
  lemma LoopReached(b: Board, cs: seq<Coord>, first: seq<Coord>, rest: seq<Coord>)
    requires IsGrid(b.zero, b.dim) && cs != []
    requires Reached(b, first, {cs[0]}) && Reached(b, rest, Elems(cs[1..]))
    ensures Reached(b, first + rest, Elems(cs))
  {
    var t := first + rest;
    forall k | 0 <= k < |t| && t[k] !in Elems(cs)
      ensures exists m :: 0 <= m < k && Spreads(b, t[m], t[k])
    {
      if k < |first| {
        assert t[k] == first[k];
        var m :| 0 <= m < k && Spreads(b, first[m], first[k]);
        assert t[m] == first[m];
      } else {
        var j := k - |first|;
        assert t[k] == rest[j];
        assert rest[j] !in Elems(cs[1..]);
        var m :| 0 <= m < j && Spreads(b, rest[m], rest[j]);
        assert t[m + |first|] == rest[m];
      }
    }
  }

  /** `left_click(x, y)`, state only. A flagged or uncovered cell is left
      alone. Otherwise the click uncovers the cell, and the whole cascade
      when it holds 0; it calls `end_game(False)` when the cell is a mine,
      then `end_game(True)` when the number of uncovered cells (the mine
      included) equals `dim**2 - mines_num`. */
  function LeftClick(b: Board, c: Coord): (r: Click)
    requires Shaped(b) && InBounds(c, b.dim)
    ensures c in b.flagged || c in b.revealed ==> r == Click(b, [], [])
    ensures c !in b.flagged && c !in b.revealed ==> r.shown != [] && r.shown[0] == c
    ensures Fresh(b, b.revealed, r.shown)
    ensures r.board == b.(revealed := b.revealed + Elems(r.shown))
    ensures |r.board.revealed| == |b.revealed| + |r.shown|
    ensures At(b.zero, c) != 0 ==> |r.shown| <= 1
    ensures Closed(b, b.revealed, r.shown) && Reached(b, r.shown, {c})
    ensures Loss in r.endings <==> r.shown != [] && At(b.zero, c) == -1
    ensures Win in r.endings <==> r.shown != [] && |r.board.revealed| == b.dim * b.dim - b.minesNum
    ensures |r.endings| == (if Loss in r.endings then 1 else 0) + (if Win in r.endings then 1 else 0)
    ensures |r.endings| == 2 ==> r.endings[0] == Loss
    ensures Valid(b) ==> Valid(r.board)
    ensures Valid(b) ==> (Loss in r.endings <==> r.shown != [] && c in b.mines)
  {
    var t := Cascade(b, b.revealed, c);
    var rev := b.revealed + Elems(t);
    DistinctCard(t);
    assert b.revealed !! Elems(t);
    if t == [] then
      assert rev == b.revealed;
      Click(b, [], [])
    else
      var lost := if At(b.zero, c) == -1 then [Loss] else [];
      var won := if |rev| == b.dim * b.dim - b.minesNum then [Win] else [];
      Click(b.(revealed := rev), t, lost + won)
  }

  /** `right_click(x, y)`, state only. An uncovered cell is left alone; a
      flagged cell loses its flag and returns it to the budget; an unflagged
      cell takes a flag from the budget unless the budget is 0. */
  function RightClick(b: Board, c: Coord): (r: Board)
    requires InBounds(c, b.dim)
    ensures r.(flagged := b.flagged, flagsLeft := b.flagsLeft) == b
    ensures forall d :: d != c ==> (d in r.flagged <==> d in b.flagged)
    ensures c in b.revealed ==> r == b
    ensures c !in b.revealed && c in b.flagged ==> c !in r.flagged && r.flagsLeft == b.flagsLeft + 1
    ensures c !in b.revealed && c !in b.flagged && b.flagsLeft == 0 ==> r == b
    ensures c !in b.revealed && c !in b.flagged && b.flagsLeft != 0 ==>
      c in r.flagged && r.flagsLeft == b.flagsLeft - 1
    ensures r.flagsLeft + |r.flagged| == b.flagsLeft + |b.flagged|
    ensures Valid(b) ==> Valid(r)
  {
    if c in b.revealed then b
    else if c in b.flagged then
      b.(flagsLeft := b.flagsLeft + 1, flagged := b.flagged - {c})
    else if b.flagsLeft == 0 then b
    else
      b.(flagsLeft := b.flagsLeft - 1, flagged := b.flagged + {c})
  }

  /** The mines of `ms` not in `rev`, in list order. */
  function Unrevealed(ms: seq<Coord>, rev: set<Coord>): (r: seq<Coord>)
    ensures forall m :: m in r <==> m in ms && m !in rev
    ensures |r| <= |ms|
  {
    if ms == [] then []
    else (if ms[0] in rev then [] else [ms[0]]) + Unrevealed(ms[1..], rev)
  }

  /** The mines `end_game` shows: those not uncovered. */
  function HiddenMines(b: Board): (r: seq<Coord>)
    ensures forall m :: m in r <==> m in b.mines && m !in b.revealed
    ensures Distinct(b.mines) ==> Distinct(r)
  {
    UnrevealedDistinct(b.mines, b.revealed);
    Unrevealed(b.mines, b.revealed)
  }

  lemma {:induction false} UnrevealedDistinct(ms: seq<Coord>, rev: set<Coord>)
    ensures Distinct(ms) ==> Distinct(Unrevealed(ms, rev))
  {
    if ms != [] && Distinct(ms) {
      UnrevealedDistinct(ms[1..], rev);
      assert ms[0] !in ms[1..];
      DistinctConcat(if ms[0] in rev then [] else [ms[0]], Unrevealed(ms[1..], rev));
    }
  }

  /** The flood region of a click on `c` over uncovered set `rev`: it holds
      `c` unless `c` is flagged or uncovered, and with every zero cell it
      holds each on-board neighbour that is neither flagged nor uncovered. */
  ghost predicate FloodClosed(b: Board, rev: set<Coord>, c: Coord, region: set<Coord>)
    requires IsGrid(b.zero, b.dim)
  {
    && (c !in rev && c !in b.flagged ==> c in region)
    && forall d, n :: d in region && Spreads(b, d, n) && InBounds(n, b.dim) && n !in rev && n !in b.flagged ==>
         n in region
  }

  lemma {:induction false} PrefixInRegion(b: Board, rev: set<Coord>, c: Coord, region: set<Coord>, t: seq<Coord>, k: nat)
    requires IsGrid(b.zero, b.dim)
    requires Fresh(b, rev, t) && Reached(b, t, {c})
    requires FloodClosed(b, rev, c, region)
    requires k <= |t|
    ensures forall j :: 0 <= j < k ==> t[j] in region
  {
    if k > 0 {
      PrefixInRegion(b, rev, c, region, t, k - 1);
      if t[k - 1] != c {
        var m :| 0 <= m < k - 1 && Spreads(b, t[m], t[k - 1]);
        assert t[m] in region;
      }
    }
  }

  /** The cascade uncovers exactly the flood region: the least set closed
      under spreading from zero cells, stopping at flags and at cells
      already uncovered. */
  lemma CascadeIsFlood(b: Board, rev: set<Coord>, c: Coord)
    requires IsGrid(b.zero, b.dim) && rev <= Cells(b.dim) && InBounds(c, b.dim)
    ensures FloodClosed(b, rev, c, Elems(Cascade(b, rev, c)))
    ensures forall region :: FloodClosed(b, rev, c, region) ==> Elems(Cascade(b, rev, c)) <= region
  {
    var t := Cascade(b, rev, c);
    forall d, n | d in Elems(t) && Spreads(b, d, n) && InBounds(n, b.dim) && n !in rev && n !in b.flagged
      ensures n in Elems(t)
    {
      assert IsNeighbour(d, n, b.dim);
    }
    forall region | FloodClosed(b, rev, c, region)
      ensures Elems(t) <= region
    {
      PrefixInRegion(b, rev, c, region, t, |t|);
    }
  }

  /** On the adjacency grid of `mines`, no neighbour of a zero cell is a
      mine. */
  lemma ZeroCellSafe(g: seq<seq<int>>, mines: set<Coord>, dim: int, d: Coord, n: Coord)
    requires IsAdjacencyGrid(g, mines, dim)
    requires InBounds(d, dim) && At(g, d) == 0 && IsNeighbour(d, n, dim)
    ensures n !in mines
  {
    var around := mines * NeighbourSet(d, dim);
    assert d !in mines && |around| == 0;
    assert n in NeighbourSet(d, dim) && n !in around;
  }

  /** On the adjacency grid of `mines`, a sequence whose cells all spread
      from earlier zero cells, apart from its first cell `c`, holds no mine
      after that first cell. */
  lemma ReachedSafe(b: Board, t: seq<Coord>, c: Coord, mines: set<Coord>)
    requires IsAdjacencyGrid(b.zero, mines, b.dim)
    requires Distinct(t) && t != [] && t[0] == c && Reached(b, t, {c})
    requires forall k :: 0 <= k < |t| ==> InBounds(t[k], b.dim)
    ensures forall k :: 1 <= k < |t| ==> t[k] !in mines
  {
    forall k | 1 <= k < |t|
      ensures t[k] !in mines
    {
      assert t[k] != t[0];
      var m :| 0 <= m < k && Spreads(b, t[m], t[k]);
      ZeroCellSafe(b.zero, mines, b.dim, t[m], t[k]);
    }
  }

  /** On a board whose grid is the adjacency grid of `mines`, a cascade
      uncovers no mine other than the clicked cell. */
  lemma CascadeSafe(b: Board, rev: set<Coord>, c: Coord, mines: set<Coord>)
    requires IsGrid(b.zero, b.dim) && rev <= Cells(b.dim) && InBounds(c, b.dim)
    requires IsAdjacencyGrid(b.zero, mines, b.dim)
    ensures forall k :: 1 <= k < |Cascade(b, rev, c)| ==> Cascade(b, rev, c)[k] !in mines
  {
    var t := Cascade(b, rev, c);
    if t != [] {
      ReachedSafe(b, t, c, mines);
    }
  }

  /** While no mine is uncovered, a click on a safe cell uncovers no mine,
      and it calls `end_game(True)` exactly when every safe cell is then
      uncovered. */
  lemma WinIffCleared(b: Board, c: Coord)
    requires Valid(b) && InBounds(c, b.dim) && 0 <= b.minesNum
    requires b.revealed !! Elems(b.mines)
    requires c !in b.mines
    ensures LeftClick(b, c).board.revealed !! Elems(b.mines)
    ensures Win in LeftClick(b, c).endings <==>
      c !in b.flagged && c !in b.revealed && LeftClick(b, c).board.revealed == Cells(b.dim) - Elems(b.mines)
  {
    var r := LeftClick(b, c);
    var safe := Cells(b.dim) - Elems(b.mines);
    CascadeSafe(b, b.revealed, c, Elems(b.mines));
    assert r.board.revealed <= safe;
    CellsCard(b.dim);
    DistinctCard(b.mines);
    SubsetCard(Elems(b.mines), Cells(b.dim));
    assert |safe| == b.dim * b.dim - b.minesNum;
    if |r.board.revealed| == |safe| {
      SubsetEqualCard(r.board.revealed, safe);
    }
  }

  /** With one safe cell left covered, clicking a mine calls
      `end_game(False)` and then `end_game(True)`: the win check counts the
      mine just uncovered. */
  lemma LastSafeMineClickAlsoWins(b: Board, c: Coord)
    requires Valid(b) && InBounds(c, b.dim)
    requires c in b.mines && c !in b.revealed && c !in b.flagged
    requires |b.revealed| + 1 == b.dim * b.dim - b.minesNum
    ensures LeftClick(b, c).endings == [Loss, Win]
  {
  }

  /** A board with as many mines as cells, which `add_mines` accepts, can
      only be lost: every cell is a mine and no click calls
      `end_game(True)`. */
  lemma FullBoardCannotBeWon(b: Board, c: Coord)
    requires Valid(b) && InBounds(c, b.dim)
    requires b.minesNum == b.dim * b.dim
    ensures c in b.mines
    ensures Win !in LeftClick(b, c).endings
    ensures LeftClick(b, c).shown != [] ==> Loss in LeftClick(b, c).endings
  {
    CellsCard(b.dim);
    DistinctCard(b.mines);
    SubsetEqualCard(Elems(b.mines), Cells(b.dim));
    assert c in Elems(b.mines);
  }

  /** A flag toggle that changed something is undone by a second toggle of
      the same cell. */
  lemma ToggleTwice(b: Board, c: Coord)
    requires InBounds(c, b.dim) && c !in b.revealed && 0 <= b.flagsLeft
    requires c in b.flagged || b.flagsLeft != 0
    ensures RightClick(RightClick(b, c), c) == b
  {
    var once := RightClick(b, c);
    if c in b.flagged {
      assert once.flagged + {c} == b.flagged;
    } else {
      assert once.flagged - {c} == b.flagged;
    }
  }

  /** With a single mine, a cell's count is 1 next to it and 0 elsewhere. */
  lemma SingleMineCount(c: Coord, m: Coord, dim: int)
    ensures MineCount(c, {m}, dim) == if IsNeighbour(c, m, dim) then 1 else 0
  {
    if IsNeighbour(c, m, dim) {
      assert {m} * NeighbourSet(c, dim) == {m};
    } else {
      assert {m} * NeighbourSet(c, dim) == {};
    }
  }

  /** One spreading step of a finished cascade: a covered, unflagged
      neighbour of an uncovered zero cell is uncovered too. */
  lemma ClosedStep(b: Board, rev: set<Coord>, t: seq<Coord>, d: Coord, n: Coord)
    requires IsGrid(b.zero, b.dim) && Closed(b, rev, t)
    requires d in t && InBounds(d, b.dim) && At(b.zero, d) == 0
    requires IsNeighbour(d, n, b.dim) && n !in rev && n !in b.flagged
    ensures n in t
  {
  }

  /** The eight listed cells cover the 3 × 3 board but its corner (0, 0). */
  lemma CornerComplement(t: seq<Coord>)
    requires (0, 1) in t && (0, 2) in t && (1, 0) in t && (1, 1) in t
    requires (1, 2) in t && (2, 0) in t && (2, 1) in t && (2, 2) in t
    ensures Cells(3) - {(0, 0)} <= Elems(t)
  {
    forall c | InBounds(c, 3) && c != (0, 0)
      ensures c in t
    {
      assert c.0 == 0 || c.0 == 1 || c.0 == 2;
      assert c.1 == 0 || c.1 == 1 || c.1 == 2;
    }
  }

  /** On the 3 × 3 board with (2, 2), (1, 2) and (2, 1) holding 0, a
      finished cascade from (2, 2) that never reaches (0, 0) has uncovered
      exactly the other eight cells. */
  lemma CornerCascade(b: Board, rev: set<Coord>, t: seq<Coord>)
    requires IsGrid(b.zero, b.dim) && b.dim == 3 && b.flagged == {} && rev == {}
    requires At(b.zero, (2, 2)) == 0 && At(b.zero, (1, 2)) == 0 && At(b.zero, (2, 1)) == 0
    requires Fresh(b, rev, t) && Closed(b, rev, t)
    requires t != [] && t[0] == (2, 2)
    requires forall k :: 1 <= k < |t| ==> t[k] != (0, 0)
    ensures |t| == 8
  {
    var mine := (0, 0);
    ClosedStep(b, rev, t, (2, 2), (1, 2));
    ClosedStep(b, rev, t, (2, 2), (2, 1));
    ClosedStep(b, rev, t, (2, 2), (1, 1));
    ClosedStep(b, rev, t, (1, 2), (0, 1));
    ClosedStep(b, rev, t, (1, 2), (0, 2));
    ClosedStep(b, rev, t, (2, 1), (1, 0));
    ClosedStep(b, rev, t, (2, 1), (2, 0));
    assert (2, 2) in t;
    CornerComplement(t);
    forall x | x in Elems(t)
      ensures x in Cells(3) - {mine}
    {
      var k :| 0 <= k < |t| && t[k] == x;
    }
    assert Elems(t) == Cells(3) - {mine};
    CellsCard(3);
    SubsetCard({mine}, Cells(3));
    DistinctCard(t);
  }

  /** On a board whose only mine is `m`, every other cell holds 1 next to
      it and 0 elsewhere. */
  lemma SingleMineGrid(g: seq<seq<int>>, mines: set<Coord>, m: Coord, dim: int, c: Coord)
    requires mines == {m} && IsAdjacencyGrid(g, mines, dim) && InBounds(c, dim) && c != m
    ensures At(g, c) == if Adjacent(c, m) && InBounds(m, dim) then 1 else 0
  {
    SingleMineCount(c, m, dim);
  }

  /** The adjacency grid of a 3 × 3 board whose only mine is (0, 0): the
      cells next to the mine hold 1, the far ones 0. */
  lemma CornerGrid(g: seq<seq<int>>, mines: set<Coord>, dim: int)
    requires dim == 3 && mines == {(0, 0)} && IsAdjacencyGrid(g, mines, dim)
    ensures At(g, (0, 0)) == -1
    ensures At(g, (0, 1)) == 1 && At(g, (1, 0)) == 1 && At(g, (1, 1)) == 1
    ensures At(g, (2, 2)) == 0 && At(g, (1, 2)) == 0 && At(g, (2, 1)) == 0
  {
    var mine := (0, 0);
    SingleMineGrid(g, mines, mine, dim, (0, 1));
    SingleMineGrid(g, mines, mine, dim, (1, 0));
    SingleMineGrid(g, mines, mine, dim, (1, 1));
    SingleMineGrid(g, mines, mine, dim, (2, 2));
    SingleMineGrid(g, mines, mine, dim, (1, 2));
    SingleMineGrid(g, mines, mine, dim, (2, 1));
  }

  /** On a 3 × 3 board whose only mine is (0, 0), a finished cascade from
      (2, 2) over a fresh board has exactly eight cells. */
  lemma CornerClickShown(b: Board, mines: set<Coord>, rev: set<Coord>, t: seq<Coord>)
    requires b.dim == 3 && mines == {(0, 0)} && IsAdjacencyGrid(b.zero, mines, b.dim)
    requires b.flagged == {} && rev == {}
    requires Fresh(b, rev, t) && Closed(b, rev, t) && Reached(b, t, {(2, 2)})
    requires t != [] && t[0] == (2, 2)
    ensures |t| == 8
  {
    CornerGrid(b.zero, mines, b.dim);
    ReachedSafe(b, t, (2, 2), mines);
    CornerCascade(b, rev, t);
  }

  /** A fresh 3 × 3 board whose only mine is in a corner: clicking the far
      corner uncovers all eight safe cells and wins. */
  lemma CornerMineScenario(b: Board)
    requires b.dim == 3 && b.minesNum == 1 && IsAdjacencyGrid(b.zero, {(0, 0)}, b.dim)
    requires b.revealed == {} && b.flagged == {}
    ensures |LeftClick(b, (2, 2)).shown| == 8
    ensures LeftClick(b, (2, 2)).endings == [Win]
  {
    var r := LeftClick(b, (2, 2));
    CornerClickShown(b, {(0, 0)}, b.revealed, r.shown);
    assert At(b.zero, (2, 2)) == 0 by {
      CornerGrid(b.zero, {(0, 0)}, b.dim);
    }
    assert Win in r.endings && Loss !in r.endings;
  }
}
