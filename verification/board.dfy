/**
 * The board state: a padded array of stones, its reset, stone placement and removal, the list of
 * empty points, and the eye test used to order moves.
 */
module GoBoard {
  import opened Stones
  import opened Geometry

  /** `cells` is the padded array; `toPlay` is the side to move (the source's `current_player`). */
  datatype Board = Board(size: nat, cells: seq<Stone>, toPlay: Color)

  /** Border exactly on the padding, so playable points are the interior ones. */
  predicate Valid(b: Board)
  {
    && 2 <= b.size <= MaxSize
    && |b.cells| == ArraySize(b.size)
    && forall p :: 0 <= p < |b.cells| ==> (b.cells[p] == Border <==> !IsInterior(b.size, p))
  }

  /** The stone at index `p`; indices outside the array read as border. */
  function At(b: Board, p: int): Stone
  {
    if 0 <= p < |b.cells| then b.cells[p] else Border
  }

  /** On a valid board, a point holds a non-border value exactly when it is interior. */
  lemma AtInterior(b: Board, p: int)
    requires Valid(b)
    ensures At(b, p) != Border <==> IsInterior(b.size, p)
  {
    if IsInterior(b.size, p) {
      InteriorBounds(b.size, p);
    }
  }

  lemma AtInteriorAll(b: Board)
    requires Valid(b)
    ensures forall p :: At(b, p) != Border <==> IsInterior(b.size, p)
  {
    forall p ensures At(b, p) != Border <==> IsInterior(b.size, p) {
      AtInterior(b, p);
    }
  }

  /** `row_start`: index of column 1 of the given row. */
  function RowStart(n: nat, row: int): int
    requires 1 <= row <= n
  {
    row * (n + 1) + 1
  }

  /** The `n` indices from `RowStart(n, row)` on are exactly the interior points of that row. */
  lemma RowSegment(n: nat, row: int, p: int)
    requires 1 <= row <= n && 0 <= p
    ensures RowStart(n, row) <= p < RowStart(n, row) + n <==> IsInterior(n, p) && Row(n, p) == row
  {
    if RowStart(n, row) <= p < RowStart(n, row) + n {
      PtRowCol(n, row, p - row * (n + 1));
    }
    RowColPt(n, p);
  }

  /**
   * `_initialize_empty_points`: starting from an all-border array, overwrite the `n` points of
   * each row with Empty.  The result is Empty exactly on the interior.
   */
  method InitializeEmptyPoints(n: nat) returns (cells: seq<Stone>)
    requires 1 <= n
    ensures |cells| == ArraySize(n)
    ensures forall p :: 0 <= p < |cells| ==> (cells[p] == Empty <==> IsInterior(n, p))
    ensures forall p :: 0 <= p < |cells| ==> (cells[p] == Border <==> !IsInterior(n, p))
  {
    cells := seq(ArraySize(n), _ => Border);
    var row := 1;
    while row <= n
      invariant 1 <= row <= n + 1
      invariant |cells| == ArraySize(n)
      invariant forall p :: 0 <= p < |cells| ==>
        cells[p] == (if IsInterior(n, p) && Row(n, p) < row then Empty else Border)
    {
      var start := RowStart(n, row);
      MulLe(row, n, n + 1);
      var next := cells[..start] + seq(n, _ => Empty) + cells[start + n..];
      forall p | 0 <= p < |next|
        ensures next[p] == (if IsInterior(n, p) && Row(n, p) < row + 1 then Empty else Border)
      {
        RowSegment(n, row, p);
      }
      cells := next;
      row := row + 1;
    }
  }

  /** `reset`: an empty board of size `n`, Black to play. */
  method Reset(n: nat) returns (b: Board)
    requires 2 <= n <= MaxSize
    ensures Valid(b) && b.size == n && b.toPlay == Black
    ensures forall p :: IsInterior(n, p) ==> At(b, p) == Empty
    ensures forall p :: !IsInterior(n, p) ==> At(b, p) == Border
  {
    var cells := InitializeEmptyPoints(n);
    b := Board(n, cells, Black);
    forall p | IsInterior(n, p) ensures At(b, p) == Empty {
      InteriorBounds(n, p);
    }
  }

  /**
   * The points of `ps` holding `s`, in order (`neighbors_of_color` applied to a list of points).
   * A neighbour-table entry, as `_initialize_non_border_neighbors_dict` builds it, is
   * `OfColor(b, Neighbors(n, p), Empty)`.
   */
  function OfColor(b: Board, ps: seq<int>, s: Stone): (r: seq<int>)
    ensures forall x :: x in r <==> x in ps && At(b, x) == s
    ensures |r| <= |ps|
  {
    if ps == [] then []
    else (if At(b, ps[0]) == s then [ps[0]] else []) + OfColor(b, ps[1..], s)
  }

  /**
   * Built on a freshly reset board, the table's entry for `p` is the list of interior
   * neighbours, in `_neighbors` order.
   */
  lemma {:induction false} ResetNeighborTable(b: Board, nbs: seq<int>)
    requires Valid(b) && forall p :: IsInterior(b.size, p) ==> At(b, p) == Empty
    ensures OfColor(b, nbs, Empty) == InteriorOnly(b.size, nbs)
  {
    if nbs != [] {
      AtInterior(b, nbs[0]);
      ResetNeighborTable(b, nbs[1..]);
    }
  }

  /** `play_move`: put a stone on an interior point; nothing else changes. */
  function PlayMove(b: Board, p: int, c: Color): (r: Board)
    requires Valid(b) && IsInterior(b.size, p)
    ensures Valid(r) && r.size == b.size && r.toPlay == b.toPlay
    ensures At(r, p) == c && forall q :: q != p ==> At(r, q) == At(b, q)
  {
    InteriorBounds(b.size, p);
    b.(cells := b.cells[p := c])
  }

  /** `undo_move`: make an interior point Empty again; nothing else changes. */
  function UndoMove(b: Board, p: int): (r: Board)
    requires Valid(b) && IsInterior(b.size, p)
    ensures Valid(r) && r.size == b.size && r.toPlay == b.toPlay
    ensures At(r, p) == Empty && forall q :: q != p ==> At(r, q) == At(b, q)
  {
    InteriorBounds(b.size, p);
    b.(cells := b.cells[p := Empty])
  }

  /** Undoing a move played on an Empty point restores the board exactly. */
  lemma UndoPlay(b: Board, p: int, c: Color)
    requires Valid(b) && IsInterior(b.size, p) && At(b, p) == Empty
    ensures UndoMove(PlayMove(b, p, c), p) == b
  {
    InteriorBounds(b.size, p);
    assert UndoMove(PlayMove(b, p, c), p).cells == b.cells;
  }

  /** Indices `i..` of the array holding Empty, in increasing order. */
  function EmptyFrom(b: Board, i: nat): (r: seq<int>)
    requires i <= |b.cells|
    ensures forall x :: x in r <==> i <= x < |b.cells| && b.cells[x] == Empty
    ensures forall a, c :: 0 <= a < c < |r| ==> r[a] < r[c]
    decreases |b.cells| - i
  {
    if i == |b.cells| then []
    else
      var rest := EmptyFrom(b, i + 1);
      assert forall a :: 0 <= a < |rest| ==> i < rest[a] by {
        forall a | 0 <= a < |rest| ensures i < rest[a] {
          assert rest[a] in rest;
        }
      }
      (if b.cells[i] == Empty then [i] else []) + rest
  }

  /** `get_empty_points`: the Empty points of the board in increasing index order. */
  function EmptyPoints(b: Board): (r: seq<int>)
    requires Valid(b)
    ensures forall x :: x in r <==> IsInterior(b.size, x) && At(b, x) == Empty
    ensures forall a, c :: 0 <= a < c < |r| ==> r[a] < r[c]
  {
    AtInteriorAll(b);
    EmptyFrom(b, 0)
  }

  /** `_is_surrounded`: every point of `nbs` is border or holds `c`. */
  function SurroundedBy(b: Board, nbs: seq<int>, c: Color): (r: bool)
    ensures r <==> forall i :: 0 <= i < |nbs| ==> At(b, nbs[i]) in {Border, c}
  {
    if nbs == [] then true
    else (At(b, nbs[0]) == Border || At(b, nbs[0]) == c) && SurroundedBy(b, nbs[1..], c)
  }

  /** The loop over diagonals in `is_eye`: (number of `opp` diagonals, whether one is border). */
  function DiagonalScan(b: Board, ds: seq<int>, opp: Color): (nat, nat)
  {
    if ds == [] then (0, 0)
    else
      var (falseCount, atEdge) := DiagonalScan(b, ds[1..], opp);
      if At(b, ds[0]) == Border then (falseCount, 1)
      else if At(b, ds[0]) == opp then (falseCount + 1, atEdge)
      else (falseCount, atEdge)
  }

  /** The stones on a list of points. */
  function Values(b: Board, ps: seq<int>): (r: seq<Stone>)
    ensures |r| == |ps| && forall i :: 0 <= i < |ps| ==> r[i] == At(b, ps[i])
  {
    seq(|ps|, i requires 0 <= i < |ps| => At(b, ps[i]))
  }

  /** The scan counts the opponent diagonals and detects a border diagonal. */
  lemma {:induction false} DiagonalScanCounts(b: Board, ds: seq<int>, opp: Color)
    ensures DiagonalScan(b, ds, opp).0 == multiset(Values(b, ds))[opp]
    ensures DiagonalScan(b, ds, opp).1 == (if Border in Values(b, ds) then 1 else 0)
  {
    if ds != [] {
      DiagonalScanCounts(b, ds[1..], opp);
      assert Values(b, ds) == [At(b, ds[0])] + Values(b, ds[1..]);
    }
  }

  /**
   * `is_eye`: `p` is surrounded by `c` or border, and not spoilt by opponent diagonals
   * (none allowed at the edge, at most one in the centre).
   */
  function IsEye(b: Board, p: int, c: Color): bool
  {
    if !SurroundedBy(b, Neighbors(b.size, p), c) then false
    else
      var (falseCount, atEdge) := DiagonalScan(b, Diagonals(b.size, p), Opponent(c));
      falseCount <= 1 - atEdge
  }

  /**
   * The eye test, stated without the scan: false unless all four orthogonal neighbours are
   * border or `c`; then true iff the opponent holds no diagonal (at the edge) or at most
   * one (in the centre).
   */
  lemma IsEyeSpec(b: Board, p: int, c: Color)
    ensures !(forall d :: 0 <= d < 4 ==> At(b, Nbr(b.size, p, d)) in {Border, c}) ==> !IsEye(b, p, c)
    ensures (forall d :: 0 <= d < 4 ==> At(b, Nbr(b.size, p, d)) in {Border, c}) ==>
      var diag := Values(b, Diagonals(b.size, p));
      IsEye(b, p, c) <==>
        if Border in diag then Opponent(c) !in diag else multiset(diag)[Opponent(c)] <= 1
  {
    var nbs := Neighbors(b.size, p);
    assert forall d :: 0 <= d < 4 ==> nbs[d] == Nbr(b.size, p, d);
    DiagonalScanCounts(b, Diagonals(b.size, p), Opponent(c));
  }
}
