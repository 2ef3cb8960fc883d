/**
 * The eight symmetries of the square board (the dihedral group of order 8) and the boards they
 * produce.  A symmetry is given by the cell each cell of the image reads from:
 * `image[i][j] == original[SrcRC(t, n, i, j)]`, with 0-based row `i` and column `j`.
 */
module Symmetry {
  import opened Stones
  import opened Geometry
  import opened GoBoard
  import opened Seqs

  datatype Sym =
    | Identity
    | MirrorLeftRight
    | Transpose
    | RotateClockwise
    | Rotate180
    | MirrorTopBottom
    | AntiTranspose
    | RotateCounterClockwise

  /** The 0-based cell of the original that cell (i, j) of the image shows. */
  function SrcRC(t: Sym, n: int, i: int, j: int): (int, int)
  {
    match t
    case Identity => (i, j)
    case MirrorLeftRight => (i, n - 1 - j)
    case Transpose => (j, i)
    case RotateClockwise => (n - 1 - j, i)
    case Rotate180 => (n - 1 - i, n - 1 - j)
    case MirrorTopBottom => (n - 1 - i, j)
    case AntiTranspose => (n - 1 - j, n - 1 - i)
    case RotateCounterClockwise => (j, n - 1 - i)
  }

  /** The symmetry that undoes `t`: the two quarter turns swap, the rest are involutions. */
  function Inverse(t: Sym): Sym
  {
    match t
    case RotateClockwise => RotateCounterClockwise
    case RotateCounterClockwise => RotateClockwise
    case _ => t
  }

  /** `t` followed by a half turn: the image read backwards, cell by cell (see `HalfTurnRC`). */
  function HalfTurn(t: Sym): Sym
  {
    match t
    case Identity => Rotate180
    case Rotate180 => Identity
    case MirrorLeftRight => MirrorTopBottom
    case MirrorTopBottom => MirrorLeftRight
    case Transpose => AntiTranspose
    case AntiTranspose => Transpose
    case RotateClockwise => RotateCounterClockwise
    case RotateCounterClockwise => RotateClockwise
  }

  /** Cell (i, j) of the image under `HalfTurn(t)` reads what the opposite cell of the image under `t` reads. */
  lemma HalfTurnRC(t: Sym, n: int, i: int, j: int)
    ensures SrcRC(HalfTurn(t), n, i, j) == SrcRC(t, n, n - 1 - i, n - 1 - j)
  {
  }

  /**
   * A symmetry as three independent choices: swap row and column, then flip the row, then flip
   * the column.  Every symmetry is exactly one such triple.
   */
  function Parts(t: Sym): (bool, bool, bool)
  {
    match t
    case Identity => (false, false, false)
    case MirrorLeftRight => (false, false, true)
    case Transpose => (true, false, false)
    case RotateClockwise => (true, true, false)
    case Rotate180 => (false, true, true)
    case MirrorTopBottom => (false, true, false)
    case AntiTranspose => (true, true, true)
    case RotateCounterClockwise => (true, false, true)
  }

  function OfParts(swap: bool, flipRow: bool, flipCol: bool): (t: Sym)
    ensures Parts(t) == (swap, flipRow, flipCol)
  {
    if swap then
      if flipRow then (if flipCol then AntiTranspose else RotateClockwise)
      else (if flipCol then RotateCounterClockwise else Transpose)
    else
      if flipRow then (if flipCol then Rotate180 else MirrorTopBottom)
      else (if flipCol then MirrorLeftRight else Identity)
  }

  /** `SrcRC` spelled out through the three choices of `Parts`. */
  lemma SrcRCParts(t: Sym, n: int, i: int, j: int)
    ensures var (swap, flipRow, flipCol) := Parts(t);
      var (x, y) := if swap then (j, i) else (i, j);
      SrcRC(t, n, i, j) == (if flipRow then n - 1 - x else x, if flipCol then n - 1 - y else y)
  {
  }

  /** The symmetry that reads through `b` first and then through `a`: the image under `b` of the image under `a`. */
  function Compose(a: Sym, b: Sym): Sym
  {
    var (sa, ra, ca) := Parts(a);
    var (sb, rb, cb) := Parts(b);
    OfParts(sa != sb, (if sa then cb else rb) != ra, (if sa then rb else cb) != ca)
  }

  /** Cell (i, j) under `Compose(a, b)` reads what cell `SrcRC(b, n, i, j)` reads under `a`. */
  lemma ComposeRC(a: Sym, b: Sym, n: int, i: int, j: int)
    ensures SrcRC(Compose(a, b), n, i, j) == SrcRC(a, n, SrcRC(b, n, i, j).0, SrcRC(b, n, i, j).1)
  {
    SrcRCParts(a, n, SrcRC(b, n, i, j).0, SrcRC(b, n, i, j).1);
    SrcRCParts(b, n, i, j);
    SrcRCParts(Compose(a, b), n, i, j);
  }

  /** `SrcRC` maps the n-by-n square onto itself. */
  lemma SrcRCRange(t: Sym, n: int, i: int, j: int)
    requires 0 <= i < n && 0 <= j < n
    ensures 0 <= SrcRC(t, n, i, j).0 < n && 0 <= SrcRC(t, n, i, j).1 < n
  {
  }

  /** The point a point of the image under `t` reads from; border points map to themselves. */
  function SourcePoint(n: nat, t: Sym, p: int): int
  {
    if IsInterior(n, p) then
      var src := SrcRC(t, n, Row(n, p) - 1, Col(n, p) - 1);
      Pt(n, src.0 + 1, src.1 + 1)
    else p
  }

  /** On cell (i, j), `SourcePoint` is `SrcRC` written in board points. */
  lemma SourcePointRC(n: nat, t: Sym, i: int, j: int)
    requires 0 <= i < n && 0 <= j < n
    ensures IsInterior(n, Pt(n, i + 1, j + 1))
    ensures SourcePoint(n, t, Pt(n, i + 1, j + 1)) ==
      Pt(n, SrcRC(t, n, i, j).0 + 1, SrcRC(t, n, i, j).1 + 1)
  {
    InteriorIsPt(n, i + 1, j + 1);
    PtRowCol(n, i + 1, j + 1);
  }

  /** Interior points read from interior points. */
  lemma SourcePointInterior(n: nat, t: Sym, p: int)
    ensures IsInterior(n, SourcePoint(n, t, p)) <==> IsInterior(n, p)
  {
    if IsInterior(n, p) {
      var src := SrcRC(t, n, Row(n, p) - 1, Col(n, p) - 1);
      SrcRCRange(t, n, Row(n, p) - 1, Col(n, p) - 1);
      InteriorIsPt(n, src.0 + 1, src.1 + 1);
    }
  }

  /** The stone point `p` of the image under `t` shows. */
  function TransformCell(b: Board, t: Sym, p: int): (s: Stone)
    requires Valid(b)
    ensures s == Border <==> !IsInterior(b.size, p)
  {
    SourcePointInterior(b.size, t, p);
    AtInterior(b, SourcePoint(b.size, t, p));
    At(b, SourcePoint(b.size, t, p))
  }

  /** The first `k` cells of the image under `t`. */
  function TransformCells(b: Board, t: Sym, k: nat): (r: seq<Stone>)
    requires Valid(b)
    ensures |r| == k
    ensures forall p :: 0 <= p < k ==> (r[p] == Border <==> !IsInterior(b.size, p))
  {
    if k == 0 then [] else TransformCells(b, t, k - 1) + [TransformCell(b, t, k - 1)]
  }

  lemma {:induction false} TransformCellsAt(b: Board, t: Sym, k: nat, p: int)
    requires Valid(b) && 0 <= p < k
    ensures TransformCells(b, t, k)[p] == TransformCell(b, t, p)
  {
    if p < k - 1 {
      TransformCellsAt(b, t, k - 1, p);
    }
  }

  /** The board seen through symmetry `t`: a rotation or mirror image of `b`. */
  function Transform(b: Board, t: Sym): (r: Board)
    requires Valid(b)
    ensures Valid(r) && r.size == b.size && r.toPlay == b.toPlay
  {
    b.(cells := TransformCells(b, t, |b.cells|))
  }

  /** Every point of the image shows the point it reads from. */
  lemma TransformPoint(b: Board, t: Sym, p: int)
    requires Valid(b)
    ensures At(Transform(b, t), p) == At(b, SourcePoint(b.size, t, p))
  {
    if 0 <= p < |b.cells| {
      TransformCellsAt(b, t, |b.cells|, p);
    } else if IsInterior(b.size, p) {
      InteriorBounds(b.size, p);
    }
  }

  /** Cell (i, j) of the transformed board shows cell `SrcRC(t, n, i, j)` of the original. */
  lemma TransformAt(b: Board, n: nat, t: Sym, i: int, j: int)
    requires Valid(b) && n == b.size && 0 <= i < n && 0 <= j < n
    ensures At(Transform(b, t), Pt(n, i + 1, j + 1)) ==
      At(b, Pt(n, SrcRC(t, n, i, j).0 + 1, SrcRC(t, n, i, j).1 + 1))
  {
    var tb := Transform(b, t);
    var p := Pt(n, i + 1, j + 1);
    SourcePointRC(n, t, i, j);
    TransformPoint(b, t, p);
  }

  /** The identity leaves the board as it is. */
  lemma TransformIdentity(b: Board)
    requires Valid(b)
    ensures Transform(b, Identity) == b
  {
    var r := Transform(b, Identity);
    forall p | 0 <= p < |b.cells| ensures r.cells[p] == b.cells[p] {
      TransformPoint(b, Identity, p);
      if IsInterior(b.size, p) {
        RowColPt(b.size, p);
      }
    }
  }

  /** `TransformAt` for a cell whose source cell is already known to be (i, j). */
  lemma TransformAtKnown(b: Board, n: nat, t: Sym, x: int, y: int, i: int, j: int)
    requires Valid(b) && n == b.size && 0 <= x < n && 0 <= y < n && SrcRC(t, n, x, y) == (i, j)
    ensures At(Transform(b, t), Pt(n, x + 1, y + 1)) == At(b, Pt(n, i + 1, j + 1))
  {
    TransformAt(b, n, t, x, y);
  }

  /** If cell (i, j) of the image under `Inverse(t)` reads from (x, y), then (x, y) under `t` reads from (i, j). */
  lemma InverseRC(t: Sym, n: int, i: int, j: int, x: int, y: int)
    requires 0 <= i < n && 0 <= j < n && (x, y) == SrcRC(Inverse(t), n, i, j)
    ensures SrcRC(t, n, x, y) == (i, j) && 0 <= x < n && 0 <= y < n
  {
  }

  lemma InverseCellVia(b: Board, n: nat, t: Sym, i: int, j: int, x: int, y: int)
    requires Valid(b) && n == b.size && 0 <= i < n && 0 <= j < n
    requires (x, y) == SrcRC(Inverse(t), n, i, j)
    ensures At(Transform(Transform(b, t), Inverse(t)), Pt(n, i + 1, j + 1)) == At(b, Pt(n, i + 1, j + 1))
  {
    TransformAt(Transform(b, t), n, Inverse(t), i, j);
    InverseRC(t, n, i, j, x, y);
    TransformAtKnown(b, n, t, x, y, i, j);
  }

  lemma InverseCell(b: Board, n: nat, t: Sym, i: int, j: int)
    requires Valid(b) && n == b.size && 0 <= i < n && 0 <= j < n
    ensures At(Transform(Transform(b, t), Inverse(t)), Pt(n, i + 1, j + 1)) == At(b, Pt(n, i + 1, j + 1))
  {
    var src := SrcRC(Inverse(t), n, i, j);
    InverseCellVia(b, n, t, i, j, src.0, src.1);
  }

  /** Undoing a symmetry: transforming by `t` and then by `Inverse(t)` gives the board back. */
  lemma TransformInverse(b: Board, t: Sym)
    requires Valid(b)
    ensures Transform(Transform(b, t), Inverse(t)) == b
  {
    var n := b.size;
    var r2 := Transform(Transform(b, t), Inverse(t));
    forall p | 0 <= p < |b.cells| ensures r2.cells[p] == b.cells[p] {
      if IsInterior(n, p) {
        RowColPt(n, p);
        InverseCell(b, n, t, Row(n, p) - 1, Col(n, p) - 1);
      } else {
        AtInterior(r2, p);
        AtInterior(b, p);
      }
    }
    SameElements(r2.cells, b.cells);
  }

  lemma ComposeCellVia(b: Board, n: nat, a: Sym, t: Sym, i: int, j: int, x: int, y: int, u: int, v: int)
    requires Valid(b) && n == b.size && 0 <= i < n && 0 <= j < n
    requires (x, y) == SrcRC(t, n, i, j) && (u, v) == SrcRC(a, n, x, y)
    requires SrcRC(Compose(a, t), n, i, j) == (u, v)
    ensures At(Transform(Transform(b, a), t), Pt(n, i + 1, j + 1)) ==
      At(Transform(b, Compose(a, t)), Pt(n, i + 1, j + 1))
  {
    SrcRCRange(t, n, i, j);
    TransformAtKnown(Transform(b, a), n, t, i, j, x, y);
    TransformAtKnown(b, n, a, x, y, u, v);
    TransformAtKnown(b, n, Compose(a, t), i, j, u, v);
  }

  /** An image of an image is an image: transforming by `a` and then by `t` is `Compose(a, t)`. */
  lemma TransformCompose(b: Board, a: Sym, t: Sym)
    requires Valid(b)
    ensures Transform(Transform(b, a), t) == Transform(b, Compose(a, t))
  {
    var n := b.size;
    var r1 := Transform(Transform(b, a), t);
    var r2 := Transform(b, Compose(a, t));
    forall p | 0 <= p < |b.cells| ensures r1.cells[p] == r2.cells[p] {
      if IsInterior(n, p) {
        RowColPt(n, p);
        var i, j := Row(n, p) - 1, Col(n, p) - 1;
        var src := SrcRC(t, n, i, j);
        var dst := SrcRC(a, n, src.0, src.1);
        ComposeRC(a, t, n, i, j);
        ComposeCellVia(b, n, a, t, i, j, src.0, src.1, dst.0, dst.1);
      } else {
        AtInterior(r1, p);
        AtInterior(r2, p);
      }
    }
    SameElements(r1.cells, r2.cells);
  }
}
