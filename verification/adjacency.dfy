/** `gen_matrix` and `gen_adjpos_mat`: the covered-symbol grid, the grid of
    zeros, and the adjacency grid computed from the mine list. */
module Adjacency {
  import opened Coords
  import opened Neighbours

  /** The symbol a covered button shows. */
  const Symbol: string := "☐"

  /** `g` has `dim` rows of `dim` entries each. */
  predicate IsGrid<T>(g: seq<seq<T>>, dim: int)
  {
    |g| == dim && forall i :: 0 <= i < |g| ==> |g[i]| == dim
  }

  /** The entry of a grid at a cell. */
  function At<T>(g: seq<seq<T>>, c: Coord): T
    requires IsGrid(g, |g|) && InBounds(c, |g|)
  {
    g[c.0][c.1]
  }

  /** `gen_matrix(dim)`: a grid of covered symbols and a grid of zeros, both
      `dim × dim` (both empty when `dim` is negative, as `range` is). */
  function GenMatrix(dim: int): (r: (seq<seq<string>>, seq<seq<int>>))
    ensures IsGrid(r.0, |r.0|) && IsGrid(r.1, |r.1|)
    ensures |r.0| == |r.1| == (if dim < 0 then 0 else dim)
    ensures forall c :: InBounds(c, dim) ==> At(r.0, c) == Symbol
    ensures forall c :: InBounds(c, dim) ==> At(r.1, c) == 0
  {
    var n := if dim < 0 then 0 else dim;
    (seq(n, i => seq(n, j => Symbol)), seq(n, i => seq(n, j => 0)))
  }

  /** The grid with the entry at `c` replaced by `v`. */
  function Update(g: seq<seq<int>>, c: Coord, v: int): (r: seq<seq<int>>)
    requires IsGrid(g, |g|) && InBounds(c, |g|)
    ensures IsGrid(r, |g|)
    ensures At(r, c) == v
    ensures forall d :: InBounds(d, |g|) && d != c ==> At(r, d) == At(g, d)
  {
    g[c.0 := g[c.0][c.1 := v]]
  }

  /** The inner loop of `gen_adjpos_mat`: add one to every listed cell that
      is not itself in the mine list. */
  function Bump(g: seq<seq<int>>, ns: seq<Coord>, mList: seq<Coord>): (r: seq<seq<int>>)
    requires IsGrid(g, |g|)
    requires forall k :: 0 <= k < |ns| ==> InBounds(ns[k], |g|)
    requires Distinct(ns)
    ensures IsGrid(r, |g|)
    ensures forall c :: InBounds(c, |g|) ==>
      At(r, c) == At(g, c) + (if c in ns && c !in mList then 1 else 0)
    decreases |ns|
  {
    if ns == [] then g
    else
      var g' := if ns[0] !in mList then Update(g, ns[0], At(g, ns[0]) + 1) else g;
      assert ns[0] !in ns[1..];
      Bump(g', ns[1..], mList)
  }

  /** How many entries of `ms` are adjacent to `c`, counting repeats. */
  function CountAdjacent(ms: seq<Coord>, c: Coord): nat
  {
    if ms == [] then 0
    else (if Adjacent(ms[0], c) then 1 else 0) + CountAdjacent(ms[1..], c)
  }

  /** The outer loop of `gen_adjpos_mat` over the mines still to visit
      (`todo`, a suffix of the whole list `mList`): each visited mine gets
      -1 and bumps its neighbours that are not mines. */
  function Visit(g: seq<seq<int>>, todo: seq<Coord>, mList: seq<Coord>): (r: seq<seq<int>>)
    requires IsGrid(g, |g|)
    requires forall k :: 0 <= k < |todo| ==> InBounds(todo[k], |g|) && todo[k] in mList
    ensures IsGrid(r, |g|)
    ensures forall c :: InBounds(c, |g|) ==>
      At(r, c) == (if c in todo then -1
                   else if c in mList then At(g, c)
                   else At(g, c) + CountAdjacent(todo, c))
    decreases |todo|
  {
    if todo == [] then g
    else
      var m := todo[0];
      var g' := Bump(Update(g, m, -1), AdjCoords(m.0, m.1, |g|), mList);
      Visit(g', todo[1..], mList)
  }

  /** `gen_adjpos_mat(m_list, zero)`: every listed mine holds -1 and every
      other cell holds its old value plus the number of list entries
      adjacent to it. */
  function GenAdjposMat(mList: seq<Coord>, zero: seq<seq<int>>): (r: seq<seq<int>>)
    requires IsGrid(zero, |zero|)
    requires forall k :: 0 <= k < |mList| ==> InBounds(mList[k], |zero|)
    ensures IsGrid(r, |zero|)
    ensures forall c :: InBounds(c, |zero|) ==>
      At(r, c) == (if c in mList then -1 else At(zero, c) + CountAdjacent(mList, c))
  {
    Visit(zero, mList, mList)
  }

  /** The mines among the neighbours of `c`; there are at most eight. */
  function MineCount(c: Coord, mines: set<Coord>, dim: int): (r: nat)
    ensures r <= 8
  {
    SubsetCard(mines * NeighbourSet(c, dim), NeighbourSet(c, dim));
    |mines * NeighbourSet(c, dim)|
  }

  /** The adjacency grid the game reads: -1 at each mine, the neighbouring
      mine count everywhere else. */
  ghost predicate IsAdjacencyGrid(g: seq<seq<int>>, mines: set<Coord>, dim: int)
  {
    && IsGrid(g, dim)
    && forall c {:trigger At(g, c)} :: InBounds(c, dim) ==>
         At(g, c) == (if c in mines then -1 else MineCount(c, mines, dim))
  }

  /** Adding a new element to a set grows its intersection with `nb` by one
      exactly when the element is in `nb`. */
  lemma InterInsert(a: set<Coord>, h: Coord, nb: set<Coord>)
    requires h !in a
    ensures |({h} + a) * nb| == |a * nb| + (if h in nb then 1 else 0)
  {
    if h in nb {
      assert ({h} + a) * nb == {h} + a * nb;
    } else {
      assert ({h} + a) * nb == a * nb;
    }
  }

  /** When `nb` holds exactly the list entries adjacent to `c`, counting the
      adjacent entries of a duplicate-free list counts its members in `nb`. */
  lemma {:induction false} CountAdjacentIn(ms: seq<Coord>, c: Coord, nb: set<Coord>)
    requires Distinct(ms)
    requires forall k :: 0 <= k < |ms| ==> (ms[k] in nb <==> Adjacent(ms[k], c))
    ensures CountAdjacent(ms, c) == |Elems(ms) * nb|
  {
    if ms != [] {
      var head, tail := ms[0], Elems(ms[1..]);
      CountAdjacentIn(ms[1..], c, nb);
      assert head !in tail;
      assert Elems(ms) == {head} + tail;
      InterInsert(tail, head, nb);
    } else {
      assert Elems(ms) * nb == {};
    }
  }

  /** Over a duplicate-free on-board list, counting adjacent entries is
      counting the mines in the neighbourhood. */
  lemma CountAdjacentDistinct(ms: seq<Coord>, c: Coord, dim: int)
    requires Distinct(ms)
    requires forall k :: 0 <= k < |ms| ==> InBounds(ms[k], dim)
    ensures CountAdjacent(ms, c) == |Elems(ms) * NeighbourSet(c, dim)|
  {
    var nb := NeighbourSet(c, dim);
    forall k | 0 <= k < |ms|
      ensures ms[k] in nb <==> Adjacent(ms[k], c)
    {
      assert Adjacent(ms[k], c) <==> Adjacent(c, ms[k]);
    }
    CountAdjacentIn(ms, c, nb);
  }

  /** Given a duplicate-free on-board mine list and the zero grid,
      `gen_adjpos_mat` produces the adjacency grid of those mines. */
  lemma AdjacencyCorrect(mList: seq<Coord>, dim: nat)
    requires Distinct(mList)
    requires forall k :: 0 <= k < |mList| ==> InBounds(mList[k], dim)
    ensures IsAdjacencyGrid(GenAdjposMat(mList, GenMatrix(dim).1), Elems(mList), dim)
  {
    var r := GenAdjposMat(mList, GenMatrix(dim).1);
    forall c | InBounds(c, dim)
      ensures At(r, c) == (if c in Elems(mList) then -1 else MineCount(c, Elems(mList), dim))
    {
      CountAdjacentDistinct(mList, c, dim);
    }
  }
}
