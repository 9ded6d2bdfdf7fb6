/** Cells of the square board, the Chebyshev-distance-1 relation between
    them, and the counting facts about sets and sequences of cells that the
    rest of the model leans on. */
module Coords {

  /** A (row, column) position; the game addresses cells with Python tuples. */
  type Coord = (int, int)

  /** The cell lies on a `dim × dim` board. */
  predicate InBounds(c: Coord, dim: int)
  {
    0 <= c.0 < dim && 0 <= c.1 < dim
  }

  /** Two distinct cells whose rows and columns each differ by at most one. */
  predicate Adjacent(a: Coord, b: Coord)
  {
    a != b && -1 <= a.0 - b.0 <= 1 && -1 <= a.1 - b.1 <= 1
  }

  /** `n` is one of the up to eight on-board neighbours of `c`. */
  predicate IsNeighbour(c: Coord, n: Coord, dim: int)
  {
    InBounds(n, dim) && Adjacent(c, n)
  }

  /** The cells of the rectangle `[0, rows) × [0, cols)`. */
  function Rect(rows: int, cols: int): (r: set<Coord>)
    ensures forall c :: c in r <==> 0 <= c.0 < rows && 0 <= c.1 < cols
  {
    set i, j | 0 <= i < rows && 0 <= j < cols :: (i, j)
  }

  /** Every cell of a `dim × dim` board. */
  function Cells(dim: int): (r: set<Coord>)
    ensures forall c :: c in r <==> InBounds(c, dim)
  {
    Rect(dim, dim)
  }

  /** No element occurs twice. */
  predicate Distinct<T(==)>(s: seq<T>)
  {
    forall i, j :: 0 <= i < j < |s| ==> s[i] != s[j]
  }

  /** The set of elements of a sequence. */
  function Elems(s: seq<Coord>): (r: set<Coord>)
    ensures forall x :: x in r <==> x in s
  {
    set x | x in s
  }

  lemma SubsetCard<T>(a: set<T>, b: set<T>)
    requires a <= b
    ensures |a| <= |b|
    ensures |b - a| == |b| - |a|
  {
    assert b == a + (b - a);
  }

  /** A subset as large as its superset is the whole superset. */
  lemma SubsetEqualCard<T>(a: set<T>, b: set<T>)
    requires a <= b
    requires |a| == |b|
    ensures a == b
  {
    SubsetCard(a, b);
    assert |b - a| == 0;
  }

  lemma {:induction false} DistinctCard(s: seq<Coord>)
    requires Distinct(s)
    ensures |Elems(s)| == |s|
  {
    if s != [] {
      DistinctCard(s[1..]);
      assert Elems(s) == {s[0]} + Elems(s[1..]);
      assert s[0] !in Elems(s[1..]);
    }
  }

  lemma {:induction false} ElemsCard(s: seq<Coord>)
    ensures |Elems(s)| <= |s|
  {
    if s != [] {
      ElemsCard(s[1..]);
      assert Elems(s) == {s[0]} + Elems(s[1..]);
    }
  }

  /** A concatenation of two duplicate-free sequences with no common
      element is duplicate-free. */
  lemma DistinctConcat<T>(s: seq<T>, t: seq<T>)
    requires Distinct(s) && Distinct(t)
    requires forall x :: x in s ==> x !in t
    ensures Distinct(s + t)
  {
    forall i, j | 0 <= i < j < |s + t|
      ensures (s + t)[i] != (s + t)[j]
    {
      if j >= |s| && i < |s| {
        assert (s + t)[i] in s;
        assert (s + t)[j] in t;
      }
    }
  }

  /** The cells of row `i` in columns `[0, cols)`. */
  function Row(i: int, cols: int): (r: set<Coord>)
    ensures forall c :: c in r <==> c.0 == i && 0 <= c.1 < cols
  {
    set j | 0 <= j < cols :: (i, j)
  }

  lemma {:induction false} RowCard(i: int, cols: nat)
    ensures |Row(i, cols)| == cols
  {
    if cols > 0 {
      RowCard(i, cols - 1);
      assert Row(i, cols) == Row(i, cols - 1) + {(i, cols - 1)};
    }
  }

  /** A rectangle is the one a row shorter plus its last row. */
  lemma RectSplit(rows: int, cols: int)
    requires rows > 0
    ensures Rect(rows, cols) == Rect(rows - 1, cols) + Row(rows - 1, cols)
    ensures Rect(rows - 1, cols) * Row(rows - 1, cols) == {}
  {
  }

  lemma {:induction false} RectCard(rows: nat, cols: nat)
    ensures |Rect(rows, cols)| == rows * cols
  {
    if rows > 0 {
      var above, last := Rect(rows - 1, cols), Row(rows - 1, cols);
      RectCard(rows - 1, cols);
      RowCard(rows - 1, cols);
      RectSplit(rows, cols);
      assert |above + last| == |above| + |last|;
      assert (rows - 1) * cols + cols == rows * cols by {
        assert (rows - 1) * cols == rows * cols - cols;
      }
    }
  }

  /** A `dim × dim` board has `dim * dim` cells. */
  lemma CellsCard(dim: nat)
    ensures |Cells(dim)| == dim * dim
  {
    RectCard(dim, dim);
  }
}
