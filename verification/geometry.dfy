/**
 * Index arithmetic of the padded one-dimensional board.
 *
 * A board of size `n` is stored row by row with rows of width `n + 1`: column 0 of every row is
 * border and doubles as the right-hand border of the row before it.  Rows 0 and `n + 1` are border
 * too.  Interior point (row, col), both 1-based, lives at `row * (n + 1) + col`.
 */
module Geometry {

  /** Largest supported board size. */
  const MaxSize: nat := 25

  /** Length of the board array for a board of size `n`. */
  function ArraySize(n: nat): nat
  {
    n * n + 3 * (n + 1)
  }

  /** coord_to_point: the index of the 1-based (row, col). */
  function Pt(n: nat, row: int, col: int): int
  {
    row * (n + 1) + col
  }

  function Row(n: nat, p: int): int
  {
    p / (n + 1)
  }

  function Col(n: nat, p: int): int
  {
    p % (n + 1)
  }

  /** A point of the playing area (as opposed to the border padding). */
  predicate IsInterior(n: nat, p: int)
  {
    0 <= p && 1 <= Row(n, p) <= n && 1 <= Col(n, p)
  }

  /** The set of interior points; every search over the board stays inside it. */
  function InteriorSet(n: nat): (s: set<int>)
    ensures forall p :: p in s <==> IsInterior(n, p)
  {
    var s := set p | 0 <= p < ArraySize(n) && IsInterior(n, p);
    assert forall p :: IsInterior(n, p) ==> p in s by {
      forall p | IsInterior(n, p) ensures p < ArraySize(n) {
        InteriorBounds(n, p);
      }
    }
    s
  }

  lemma MulLe(a: int, b: int, k: nat)
    requires a <= b
    ensures a * k <= b * k
  {
  }

  /** Division by the row stride recovers row and column. */
  lemma PtRowCol(n: nat, row: int, col: int)
    requires 0 <= row && 0 <= col <= n
    ensures Row(n, Pt(n, row, col)) == row && Col(n, Pt(n, row, col)) == col
  {
    var p := Pt(n, row, col);
    var q, r := p / (n + 1), p % (n + 1);
    assert p == q * (n + 1) + r;
    if q < row {
      MulLe(q + 1, row, n + 1);
      assert false;
    } else if q > row {
      MulLe(row + 1, q, n + 1);
      assert false;
    }
  }

  lemma RowColPt(n: nat, p: int)
    requires 0 <= p
    ensures p == Pt(n, Row(n, p), Col(n, p))
  {
  }

  /** Interior points lie strictly inside the array, with room for every neighbour and diagonal. */
  lemma InteriorBounds(n: nat, p: int)
    requires IsInterior(n, p)
    ensures n + 2 <= p && p + n + 2 < ArraySize(n)
  {
    var r := Row(n, p);
    RowColPt(n, p);
    MulLe(r, n, n + 1);
    MulLe(1, r, n + 1);
    Distrib(n);
  }

  lemma Distrib(n: nat)
    ensures n * (n + 1) == n * n + n
  {
  }

  lemma InteriorIsPt(n: nat, row: int, col: int)
    requires 1 <= row <= n && 1 <= col <= n
    ensures IsInterior(n, Pt(n, row, col))
  {
    PtRowCol(n, row, col);
  }

  /** Direction `d` neighbour: left, right, above, below (the source's `_neighbors` order). */
  function Nbr(n: nat, p: int, d: nat): int
    requires d < 4
  {
    if d == 0 then p - 1 else if d == 1 then p + 1 else if d == 2 then p - (n + 1) else p + (n + 1)
  }

  /** `_neighbors`: all four orthogonal neighbours, border included. */
  function Neighbors(n: nat, p: int): seq<int>
  {
    [Nbr(n, p, 0), Nbr(n, p, 1), Nbr(n, p, 2), Nbr(n, p, 3)]
  }

  /** `_diag_neighbors`: the four diagonal neighbours. */
  function Diagonals(n: nat, p: int): seq<int>
  {
    [p - (n + 1) - 1, p - (n + 1) + 1, p + (n + 1) - 1, p + (n + 1) + 1]
  }

  lemma NeighborsInBounds(n: nat, p: int)
    requires IsInterior(n, p)
    ensures forall q :: q in Neighbors(n, p) ==> 0 <= q < ArraySize(n)
    ensures forall q :: q in Diagonals(n, p) ==> 0 <= q < ArraySize(n)
  {
    InteriorBounds(n, p);
  }

  /** Keeps the interior points of `s`, in order. */
  function InteriorOnly(n: nat, s: seq<int>): (r: seq<int>)
    ensures forall x :: x in r <==> x in s && IsInterior(n, x)
    ensures |r| <= |s|
  {
    if s == [] then []
    else (if IsInterior(n, s[0]) then [s[0]] else []) + InteriorOnly(n, s[1..])
  }

  /** The per-point entry of `non_border_neighbors`: the interior orthogonal neighbours. */
  function NonBorderNeighbors(n: nat, p: int): seq<int>
  {
    InteriorOnly(n, Neighbors(n, p))
  }

  /** Adjacency is symmetric, and the neighbour table lists only interior points. */
  lemma NonBorderNeighborsSymmetric(n: nat, p: int, q: int)
    requires IsInterior(n, p) && IsInterior(n, q)
    ensures q in NonBorderNeighbors(n, p) <==> p in NonBorderNeighbors(n, q)
    ensures forall x :: x in NonBorderNeighbors(n, p) ==> IsInterior(n, x)
  {
  }

  /** Row-major interior points (the keys of `non_border_neighbors`, in insertion order). */
  function NonBorderPoints(n: nat): seq<int>
  {
    seq(n * n, k requires 0 <= k < n * n => Pt(n, k / n + 1, k % n + 1))
  }

  /** Position of interior point `p` within `NonBorderPoints(n)`. */
  function IndexOf(n: nat, p: int): int
  {
    (Row(n, p) - 1) * n + (Col(n, p) - 1)
  }

  lemma DivModSplit(n: nat, i: int, j: int)
    requires 0 < n && 0 <= i && 0 <= j < n
    ensures (i * n + j) / n == i && (i * n + j) % n == j
  {
    var k := i * n + j;
    var q, r := k / n, k % n;
    if q < i {
      MulLe(q + 1, i, n);
      assert false;
    } else if q > i {
      MulLe(i + 1, q, n);
      assert false;
    }
  }

  lemma IndexBound(n: nat, i: int, j: int)
    requires 0 <= i < n && 0 <= j < n
    ensures 0 <= i * n + j < n * n
  {
    MulLe(i + 1, n, n);
  }

  /** Every entry of `NonBorderPoints(n)` is interior, and `IndexOf` recovers its position. */
  lemma NonBorderPointsInterior(n: nat)
    requires 1 <= n
    ensures |NonBorderPoints(n)| == n * n
    ensures forall k :: 0 <= k < n * n ==>
      IsInterior(n, NonBorderPoints(n)[k]) && IndexOf(n, NonBorderPoints(n)[k]) == k
  {
    forall k | 0 <= k < n * n
      ensures IsInterior(n, NonBorderPoints(n)[k]) && IndexOf(n, NonBorderPoints(n)[k]) == k
    {
      PointAt(n, k);
    }
  }

  /** Every interior point occurs in `NonBorderPoints(n)`, at position `IndexOf`. */
  lemma NonBorderPointsComplete(n: nat, p: int)
    requires 1 <= n && IsInterior(n, p)
    ensures 0 <= IndexOf(n, p) < n * n && NonBorderPoints(n)[IndexOf(n, p)] == p
  {
    var i, j := Row(n, p) - 1, Col(n, p) - 1;
    IndexBound(n, i, j);
    DivModSplit(n, i, j);
    RowColPt(n, p);
  }

  /** `NonBorderPoints(n)` is strictly increasing: it is the ascending list of interior points. */
  lemma NonBorderPointsIncreasing(n: nat, k: int, k': int)
    requires 1 <= n && 0 <= k < k' < n * n
    ensures NonBorderPoints(n)[k] < NonBorderPoints(n)[k']
  {
    PointAt(n, k);
    PointAt(n, k');
    var i, j, i', j' := k / n, k % n, k' / n, k' % n;
    if i == i' {
      assert j < j';
    } else if i > i' {
      MulLe(i' + 1, i, n);
      assert false;
    } else {
      MulLe(i + 2, i' + 1, n + 1);
      assert (i + 1) * (n + 1) + j + 1 < (i + 2) * (n + 1);
    }
  }

  lemma PointAt(n: nat, k: int)
    requires 1 <= n && 0 <= k < n * n
    ensures NonBorderPoints(n)[k] == Pt(n, k / n + 1, k % n + 1)
    ensures 0 <= k / n < n && 0 <= k % n < n && k == (k / n) * n + k % n
    ensures IsInterior(n, NonBorderPoints(n)[k]) && IndexOf(n, NonBorderPoints(n)[k]) == k
    ensures Row(n, NonBorderPoints(n)[k]) == k / n + 1 && Col(n, NonBorderPoints(n)[k]) == k % n + 1
  {
    var i, j := k / n, k % n;
    if i >= n {
      MulLe(n, i, n);
      assert false;
    }
    PtRowCol(n, i + 1, j + 1);
  }
}
