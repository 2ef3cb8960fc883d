/**
 * Counting Empty points.  A rotation or mirror image of a position has as many Empty points as
 * the position, and playing a stone removes one; so the table keys written for a position can
 * never be the key of a position with a different number of Empty points.  This is what keeps
 * a search from writing the entry of the position it started from.
 */
module Counting {
  import opened Stones
  import opened Geometry
  import opened GoBoard
  import opened Symmetry
  import opened TTable
  import opened SetLemmas

  /** The Empty points of a board, as a set. */
  function EmptySet(b: Board): (s: set<int>)
    requires Valid(b)
    ensures forall x :: x in s <==> IsInterior(b.size, x) && At(b, x) == Empty
  {
    set x | x in EmptyPoints(b)
  }

  /** Empty points are array indices. */
  lemma EmptySetBounded(b: Board)
    requires Valid(b)
    ensures forall x :: x in EmptySet(b) ==> 0 <= x < ArraySize(b.size)
  {
    forall x | x in EmptySet(b) ensures 0 <= x < ArraySize(b.size) {
      InteriorBounds(b.size, x);
    }
  }

  function EmptyCount(b: Board): nat
    requires Valid(b)
  {
    |EmptySet(b)|
  }

  /** A map that is one-to-one on `a` and sends `a` into `bs` shows `|a| <= |bs|`. */
  lemma {:induction false} CardInjection(a: set<int>, bs: set<int>, f: int -> int, hi: nat)
    requires forall x :: x in a ==> 0 <= x < hi
    requires forall x :: x in a ==> f(x) in bs
    requires forall x, y :: x in a && y in a && f(x) == f(y) ==> x == y
    ensures |a| <= |bs|
    decreases |a|
  {
    if |a| > 0 {
      var x := Member(a, hi);
      CardInjection(a - {x}, bs - {f(x)}, f, hi);
    }
  }

  lemma InverseInverse(t: Sym)
    ensures Inverse(Inverse(t)) == t
  {
  }

  /** Reading through `Inverse(t)` and then through `t` comes back to the point. */
  lemma SourcePointInverse(n: nat, t: Sym, p: int)
    requires IsInterior(n, p)
    ensures SourcePoint(n, t, SourcePoint(n, Inverse(t), p)) == p
  {
    RowColPt(n, p);
    var i, j := Row(n, p) - 1, Col(n, p) - 1;
    var src := SrcRC(Inverse(t), n, i, j);
    SourcePointRC(n, Inverse(t), i, j);
    InverseRC(t, n, i, j, src.0, src.1);
    SourcePointRC(n, t, src.0, src.1);
  }

  /** `SourcePoint(n, t, .)` sends the Empty points of the image one-to-one into those of `b`. */
  lemma ImageEmptiesInto(b: Board, t: Sym)
    requires Valid(b)
    ensures |EmptySet(Transform(b, t))| <= |EmptySet(b)|
  {
    var n := b.size;
    var f := (p: int) => SourcePoint(n, t, p);
    forall x | x in EmptySet(Transform(b, t)) ensures f(x) in EmptySet(b) {
      TransformPoint(b, t, x);
      SourcePointInterior(n, t, x);
    }
    forall x, y | x in EmptySet(Transform(b, t)) && y in EmptySet(Transform(b, t)) && f(x) == f(y)
      ensures x == y
    {
      InverseInverse(t);
      SourcePointInverse(n, Inverse(t), x);
      SourcePointInverse(n, Inverse(t), y);
    }
    EmptySetBounded(Transform(b, t));
    CardInjection(EmptySet(Transform(b, t)), EmptySet(b), f, ArraySize(n));
  }

  /** `SourcePoint(n, Inverse(t), .)` sends the Empty points of `b` one-to-one into those of the image. */
  lemma EmptiesIntoImage(b: Board, t: Sym)
    requires Valid(b)
    ensures |EmptySet(b)| <= |EmptySet(Transform(b, t))|
  {
    var n := b.size;
    var f := (p: int) => SourcePoint(n, Inverse(t), p);
    forall x | x in EmptySet(b) ensures f(x) in EmptySet(Transform(b, t)) {
      SourcePointInterior(n, Inverse(t), x);
      TransformPoint(b, t, f(x));
      SourcePointInverse(n, t, x);
    }
    forall x, y | x in EmptySet(b) && y in EmptySet(b) && f(x) == f(y) ensures x == y {
      SourcePointInverse(n, t, x);
      SourcePointInverse(n, t, y);
    }
    EmptySetBounded(b);
    CardInjection(EmptySet(b), EmptySet(Transform(b, t)), f, ArraySize(n));
  }

  /** A rotation or mirror image has as many Empty points as the board. */
  lemma TransformEmptyCount(b: Board, t: Sym)
    requires Valid(b)
    ensures EmptyCount(Transform(b, t)) == EmptyCount(b)
  {
    ImageEmptiesInto(b, t);
    EmptiesIntoImage(b, t);
  }

  /** Boards of one size with the same key have the same Empty points. */
  lemma SameKeySameEmpties(y: Board, z: Board)
    requires Valid(y) && Valid(z) && y.size == z.size && KeyOf(y) == KeyOf(z)
    ensures EmptySet(y) == EmptySet(z)
  {
    var n := y.size;
    forall p | IsInterior(n, p) ensures At(y, p) == At(z, p) {
      RowColPt(n, p);
      KeyOfAt(y, n, Row(n, p) - 1, Col(n, p) - 1);
      KeyOfAt(z, n, Row(n, p) - 1, Col(n, p) - 1);
    }
  }

  /** A key written for `x` is only the key of boards with as many Empty points as `x`. */
  lemma ImageCount(x: Board, y: Board)
    requires Valid(x) && Valid(y) && x.size == y.size && KeyOf(y) in Images(x)
    ensures EmptyCount(y) == EmptyCount(x)
  {
    ImagesSpec(x, KeyOf(y));
    var t :| KeyOf(y) == KeyOf(Transform(x, t));
    SameKeySameEmpties(y, Transform(x, t));
    TransformEmptyCount(x, t);
  }

  /** Recording a result for `x` leaves the entry of every board with another Empty count alone. */
  lemma SetEntryElsewhere(tt: Table, x: Board, c: Color, y: Board)
    requires Valid(x) && Valid(y) && x.size == y.size && EmptyCount(y) != EmptyCount(x)
    ensures GetEntry(SetEntry(tt, x, c), y) == GetEntry(tt, y)
  {
    SetEntrySpec(tt, x, c);
    if KeyOf(y) in Images(x) {
      ImageCount(x, y);
    }
  }

  /** Playing on an Empty point takes exactly that point out of the Empty set. */
  lemma PlayMoveCount(b: Board, m: int, c: Color)
    requires Valid(b) && IsInterior(b.size, m) && At(b, m) == Empty
    ensures EmptySet(PlayMove(b, m, c)) == EmptySet(b) - {m}
    ensures EmptyCount(PlayMove(b, m, c)) == EmptyCount(b) - 1
  {
    assert EmptySet(PlayMove(b, m, c)) == EmptySet(b) - {m};
  }
}
