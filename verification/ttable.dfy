/**
 * The transposition table: `get_tt_entry` looks a position up under its row-major key, and
 * `set_tt_entry` records a result under the keys of all eight symmetric images of the position.
 *
 * A key in the source is the string of one-digit stone codes; distinct stones have distinct
 * codes, so a sequence of stones is an equivalent key.
 */
module TTable {
  import opened Stones
  import opened Geometry
  import opened GoBoard
  import opened Seqs
  import opened Symmetry

  /** Position keys mapped to the colour that wins the position. */
  type Table = map<seq<Stone>, Color>

  /** The loop of `get_tt_entry`: the stone on each point, appended in order. */
  function StonesOf(b: Board, ps: seq<int>): (r: seq<Stone>)
    ensures |r| == |ps|
  {
    if ps == [] then [] else [At(b, ps[0])] + StonesOf(b, ps[1..])
  }

  /** The loop collects exactly the stones on the points. */
  lemma {:induction false} StonesOfValues(b: Board, ps: seq<int>)
    ensures StonesOf(b, ps) == Values(b, ps)
  {
    if ps != [] {
      StonesOfValues(b, ps[1..]);
      SameElements(StonesOf(b, ps), Values(b, ps));
    }
  }

  /** `get_tt_entry`'s key: the stones of `non_border_points`, in order. */
  function KeyOf(b: Board): (k: seq<Stone>)
    requires Valid(b)
    ensures |k| == b.size * b.size
  {
    StonesOf(b, NonBorderPoints(b.size))
  }

  /** Entry `i * n + j` of a key is the stone at 0-based row `i`, column `j`. */
  lemma KeyOfAt(b: Board, n: nat, i: int, j: int)
    requires Valid(b) && n == b.size && 0 <= i < n && 0 <= j < n
    ensures 0 <= i * n + j < n * n
    ensures KeyOf(b)[i * n + j] == At(b, Pt(n, i + 1, j + 1))
  {
    IndexBound(n, i, j);
    StonesOfValues(b, NonBorderPoints(n));
    PointAt(n, i * n + j);
    DivModSplit(n, i, j);
  }

  /** `get_tt_entry`: the recorded winner of the position, if any. */
  function GetEntry(tt: Table, b: Board): (r: Option<Color>)
    requires Valid(b)
    ensures r.Some? <==> KeyOf(b) in tt
    ensures r.Some? ==> r.value == tt[KeyOf(b)]
  {
    var k := KeyOf(b);
    if k in tt then Some(tt[k]) else None
  }

  /** Row `i` of the interior, `non_border_points[i*n:(i+1)*n]`. */
  function RowPoints(n: nat, i: nat): (r: seq<int>)
    requires 1 <= n && i < n
    ensures |r| == n
  {
    RowBounds(n, i);
    NonBorderPoints(n)[i * n..(i + 1) * n]
  }

  lemma RowBounds(n: nat, i: nat)
    requires 1 <= n && i < n
    ensures 0 <= i * n && i * n + n <= n * n && (i + 1) * n == i * n + n
  {
    MulLe(i + 1, n, n);
  }

  /** Column `i` of the interior, `non_border_points[i::n]`. */
  function ColPoints(n: nat, i: nat): (r: seq<int>)
    requires 1 <= n && i < n
    ensures |r| == n
  {
    assert i + (n - 1) * n < n * n <= i + n * n;
    EveryLength(NonBorderPoints(n), i, n, n);
    Every(NonBorderPoints(n), i, n)
  }

  /** Row `i` lists the points of board row `i + 1`, left to right. */
  lemma RowPointsAt(n: nat, i: nat, j: nat)
    requires 1 <= n && i < n && j < n
    ensures RowPoints(n, i)[j] == Pt(n, i + 1, j + 1)
  {
    RowBounds(n, i);
    IndexBound(n, i, j);
    PointAt(n, i * n + j);
    DivModSplit(n, i, j);
  }

  /** Column `i` lists the points of board column `i + 1`, bottom row first. */
  lemma ColPointsAt(n: nat, i: nat, j: nat)
    requires 1 <= n && i < n && j < n
    ensures ColPoints(n, i)[j] == Pt(n, j + 1, i + 1)
  {
    IndexBound(n, j, i);
    EveryAt(NonBorderPoints(n), i, n, j);
    assert i + j * n == j * n + i;
    PointAt(n, j * n + i);
    DivModSplit(n, j, i);
  }

  /** `_initialize_tt_sub_arrays`: the rows and the columns of the interior. */
  function SubArrays(n: nat): (r: (seq<seq<int>>, seq<seq<int>>))
    requires 1 <= n
    ensures |r.0| == n && |r.1| == n
    ensures forall i :: 0 <= i < n ==> |r.0[i]| == n && |r.1[i]| == n
    ensures forall i, j :: 0 <= i < n && 0 <= j < n ==> r.0[i][j] == Pt(n, i + 1, j + 1)
    ensures forall i, j :: 0 <= i < n && 0 <= j < n ==> r.1[i][j] == Pt(n, j + 1, i + 1)
  {
    var rows := seq(n, i requires 0 <= i < n => RowPoints(n, i));
    var cols := seq(n, i requires 0 <= i < n => ColPoints(n, i));
    assert forall i, j :: 0 <= i < n && 0 <= j < n ==> rows[i][j] == Pt(n, i + 1, j + 1) && cols[i][j] == Pt(n, j + 1, i + 1) by {
      forall i, j | 0 <= i < n && 0 <= j < n
        ensures rows[i][j] == Pt(n, i + 1, j + 1) && cols[i][j] == Pt(n, j + 1, i + 1)
      {
        RowPointsAt(n, i, j);
        ColPointsAt(n, i, j);
      }
    }
    (rows, cols)
  }

  /**
   * The pieces `set_tt_entry` joins into one key: the stones of each row (`cols == false`) or
   * column (`cols == true`) sub-array, each reversed when `reversed` holds.
   */
  function Pieces(b: Board, cols: bool, reversed: bool): (r: seq<seq<Stone>>)
    requires Valid(b)
    ensures |r| == b.size && forall i :: 0 <= i < |r| ==> |r[i]| == b.size
  {
    var n := b.size;
    var subs := SubArrays(n);
    seq(n, i requires 0 <= i < n =>
      var v := Values(b, if cols then subs.1[i] else subs.0[i]);
      if reversed then Rev(v) else v)
  }

  /** `key1` .. `key4` of `set_tt_entry`: the joined rows, mirrored rows, columns and mirrored columns. */
  function JoinedKey(b: Board, cols: bool, reversed: bool): seq<Stone>
    requires Valid(b)
  {
    Concat(Pieces(b, cols, reversed))
  }

  /** The symmetry each joined key of `set_tt_entry` realises. */
  function PieceSym(cols: bool, reversed: bool): Sym
  {
    if !cols then (if !reversed then Identity else MirrorLeftRight)
    else (if !reversed then Transpose else RotateClockwise)
  }

  /**
   * Key `i` of the eight `set_tt_entry` assigns: `key1` .. `key4` for `i` below 4 (rows, mirrored
   * rows, columns, mirrored columns), then their reverses in the same order.
   */
  function EntryKey(b: Board, i: int): seq<Stone>
    requires Valid(b) && 0 <= i < 8
  {
    var j := if i < 4 then i else i - 4;
    var key := JoinedKey(b, j >= 2, j == 1 || j == 3);
    if i < 4 then key else Rev(key)
  }

  /** The eight keys `set_tt_entry` assigns, in the order it assigns them. */
  function EntryKeys(b: Board): (ks: seq<seq<Stone>>)
    requires Valid(b)
    ensures |ks| == 8
  {
    seq(8, i requires 0 <= i < 8 => EntryKey(b, i))
  }

  /** Successive assignments `tt[key] = c`, one per key, in order. */
  function StoreAll(tt: Table, keys: seq<seq<Stone>>, c: Color): Table
    decreases |keys|
  {
    if keys == [] then tt else StoreAll(tt[keys[0] := c], keys[1..], c)
  }

  /** The assigned keys map to `c`; every other key keeps its entry, or stays absent. */
  lemma {:induction false} StoreAllSpec(tt: Table, keys: seq<seq<Stone>>, c: Color)
    ensures StoreAll(tt, keys, c).Keys == tt.Keys + set k | k in keys
    ensures forall k :: k in keys ==> StoreAll(tt, keys, c)[k] == c
    ensures forall k :: k in tt && k !in keys ==> StoreAll(tt, keys, c)[k] == tt[k]
    decreases |keys|
  {
    if keys != [] {
      var rest := keys[1..];
      StoreAllSpec(tt[keys[0] := c], rest, c);
      assert keys == [keys[0]] + rest;
      assert forall k :: k in keys <==> k == keys[0] || k in rest;
    }
  }

  /** `set_tt_entry(color)`: the four keys and their reverses all map to `c`. */
  function SetEntry(tt: Table, b: Board, c: Color): Table
    requires Valid(b)
  {
    StoreAll(tt, EntryKeys(b), c)
  }

  /** The symmetry whose image has key `i` of `EntryKeys`; reversing a key is a half turn. */
  function EntrySym(i: int): Sym
  {
    var j := if i < 4 then i else i - 4;
    var t := PieceSym(j >= 2, j == 1 || j == 3);
    if i < 4 then t else HalfTurn(t)
  }

  /** Every symmetry is the symmetry of one of the eight keys. */
  lemma EntrySymOnto(t: Sym) returns (i: int)
    ensures 0 <= i < 8 && EntrySym(i) == t
  {
    match t
    case Identity => i := 0;
    case MirrorLeftRight => i := 1;
    case Transpose => i := 2;
    case RotateClockwise => i := 3;
    case Rotate180 => i := 4;
    case MirrorTopBottom => i := 5;
    case AntiTranspose => i := 6;
    case RotateCounterClockwise => i := 7;
  }

  /** The keys of the eight symmetric images of `b`: its rotations and mirror images. */
  function Images(b: Board): set<seq<Stone>>
    requires Valid(b)
  {
    set i | 0 <= i < 8 :: KeyOf(Transform(b, EntrySym(i)))
  }

  /** `Images(b)` holds the key of every symmetric image of `b`, and nothing else. */
  lemma ImagesSpec(b: Board, key: seq<Stone>)
    requires Valid(b)
    ensures key in Images(b) <==> exists t :: key == KeyOf(Transform(b, t))
  {
    if exists t :: key == KeyOf(Transform(b, t)) {
      var t :| key == KeyOf(Transform(b, t));
      var i := EntrySymOnto(t);
      assert key == KeyOf(Transform(b, EntrySym(i)));
    }
  }

  /** Point `k` of row sub-array `i` (`cols == false`) or column sub-array `i` (`cols == true`). */
  function SubPoint(n: nat, cols: bool, i: int, k: int): int
    requires 1 <= n && 0 <= i < n && 0 <= k < n
  {
    if cols then ColPoints(n, i)[k] else RowPoints(n, i)[k]
  }

  /** Entry `j` of piece `i` is the stone on point `j` of its sub-array, counted from the far end when reversed. */
  lemma PieceValue(b: Board, n: nat, cols: bool, reversed: bool, i: int, j: int)
    requires Valid(b) && n == b.size && 0 <= i < n && 0 <= j < n
    ensures Pieces(b, cols, reversed)[i][j] == At(b, SubPoint(n, cols, i, if reversed then n - 1 - j else j))
  {
    var ps := if cols then SubArrays(n).1[i] else SubArrays(n).0[i];
    var v := Values(b, ps);
    assert Pieces(b, cols, reversed)[i] == (if reversed then Rev(v) else v);
  }

  /** The sub-array point a piece entry reads is the cell its symmetry reads at (i, j). */
  lemma SubPointSym(n: nat, cols: bool, reversed: bool, i: int, j: int)
    requires 1 <= n && 0 <= i < n && 0 <= j < n
    ensures SubPoint(n, cols, i, if reversed then n - 1 - j else j) ==
      Pt(n, SrcRC(PieceSym(cols, reversed), n, i, j).0 + 1,
            SrcRC(PieceSym(cols, reversed), n, i, j).1 + 1)
  {
    var j' := if reversed then n - 1 - j else j;
    if cols {
      ColPointsAt(n, i, j');
    } else {
      RowPointsAt(n, i, j');
    }
  }

  /** Entry `j` of piece `i` is the stone on the cell the piece's symmetry reads at (i, j). */
  lemma PieceAt(b: Board, n: nat, cols: bool, reversed: bool, i: int, j: int)
    requires Valid(b) && n == b.size && 0 <= i < n && 0 <= j < n
    ensures Pieces(b, cols, reversed)[i][j] ==
      At(b, Pt(n, SrcRC(PieceSym(cols, reversed), n, i, j).0 + 1,
                  SrcRC(PieceSym(cols, reversed), n, i, j).1 + 1))
  {
    PieceValue(b, n, cols, reversed, i, j);
    SubPointSym(n, cols, reversed, i, j);
  }

  /** Entry `j` of row piece `i` is the stone at 0-based row `i`, column `j`. */
  lemma RowPieceAt(b: Board, n: nat, i: int, j: int)
    requires Valid(b) && n == b.size && 0 <= i < n && 0 <= j < n
    ensures Pieces(b, false, false)[i][j] == At(b, Pt(n, i + 1, j + 1))
  {
    PieceAt(b, n, false, false, i, j);
  }

  /** A piece of `b` read through its symmetry is the plain row of the transformed board. */
  lemma PieceCell(b: Board, n: nat, cols: bool, reversed: bool, i: int, j: int)
    requires Valid(b) && n == b.size && 0 <= i < n && 0 <= j < n
    ensures Pieces(b, cols, reversed)[i][j] ==
      Pieces(Transform(b, PieceSym(cols, reversed)), false, false)[i][j]
  {
    var t := PieceSym(cols, reversed);
    var x := SrcRC(t, n, i, j).0;
    var y := SrcRC(t, n, i, j).1;
    PieceCellVia(b, n, cols, reversed, t, i, j, x, y);
  }

  lemma PieceCellVia(b: Board, n: nat, cols: bool, reversed: bool, t: Sym, i: int, j: int, x: int, y: int)
    requires Valid(b) && n == b.size && 0 <= i < n && 0 <= j < n
    requires t == PieceSym(cols, reversed) && x == SrcRC(t, n, i, j).0 && y == SrcRC(t, n, i, j).1
    ensures Pieces(b, cols, reversed)[i][j] == Pieces(Transform(b, t), false, false)[i][j]
  {
    PieceAt(b, n, cols, reversed, i, j);
    assert Pieces(b, cols, reversed)[i][j] == At(b, Pt(n, x + 1, y + 1));
    TransformAt(b, n, t, i, j);
    assert At(Transform(b, t), Pt(n, i + 1, j + 1)) == At(b, Pt(n, x + 1, y + 1));
    RowPieceAt(Transform(b, t), n, i, j);
  }

  /** The pieces of `b` are the rows of `b` under the piece's symmetry. */
  lemma PiecesImage(b: Board, cols: bool, reversed: bool)
    requires Valid(b)
    ensures Pieces(b, cols, reversed) == Pieces(Transform(b, PieceSym(cols, reversed)), false, false)
  {
    var n := b.size;
    var x, y := Pieces(b, cols, reversed), Pieces(Transform(b, PieceSym(cols, reversed)), false, false);
    forall i | 0 <= i < n ensures x[i] == y[i] {
      forall j | 0 <= j < n ensures x[i][j] == y[i][j] {
        PieceCell(b, n, cols, reversed, i, j);
      }
      SameElements(x[i], y[i]);
    }
    SameElements(x, y);
  }

  /** The stones on a slice of a point list are the slice of the stones. */
  lemma ValuesSlice(b: Board, ps: seq<int>, lo: int, hi: int)
    requires 0 <= lo <= hi <= |ps|
    ensures Values(b, ps[lo..hi]) == Values(b, ps)[lo..hi]
  {
    SameElements(Values(b, ps[lo..hi]), Values(b, ps)[lo..hi]);
  }

  /** Joining the plain rows of a board gives its key: `key1` is the `get_tt_entry` key. */
  lemma KeyRows(b: Board)
    requires Valid(b)
    ensures Concat(Pieces(b, false, false)) == KeyOf(b)
  {
    var n := b.size;
    var key := KeyOf(b);
    var rows := Pieces(b, false, false);
    ConcatChunks(key, n, n);
    StonesOfValues(b, NonBorderPoints(n));
    forall i | 0 <= i < n ensures rows[i] == Chunks(key, n)[i] {
      ChunksAt(key, n, n, i);
      RowBounds(n, i);
      ValuesSlice(b, NonBorderPoints(n), i * n, i * n + n);
    }
    SameElements(rows, Chunks(key, n));
  }

  /** Each base key of `set_tt_entry` is the key of one symmetric image of the position. */
  lemma BaseKeyImage(b: Board, cols: bool, reversed: bool)
    requires Valid(b)
    ensures JoinedKey(b, cols, reversed) == KeyOf(Transform(b, PieceSym(cols, reversed)))
  {
    PiecesImage(b, cols, reversed);
    KeyRows(Transform(b, PieceSym(cols, reversed)));
  }

  /** Reading an n-by-n key backwards: entry (i, j) of the reverse is entry (n-1-i, n-1-j). */
  lemma RevIndex<T>(key: seq<T>, n: nat, i: int, j: int)
    requires |key| == n * n && 0 <= i < n && 0 <= j < n
    ensures 0 <= i * n + j < n * n && 0 <= (n - 1 - i) * n + (n - 1 - j) < n * n
    ensures Rev(key)[i * n + j] == key[(n - 1 - i) * n + (n - 1 - j)]
  {
    IndexBound(n, i, j);
    IndexBound(n, n - 1 - i, n - 1 - j);
  }

  /** Cell (i, j) of the image under `HalfTurn(t)` is the opposite cell of the image under `t`. */
  lemma HalfTurnCell(b: Board, n: nat, t: Sym, i: int, j: int)
    requires Valid(b) && n == b.size && 0 <= i < n && 0 <= j < n
    ensures At(Transform(b, HalfTurn(t)), Pt(n, i + 1, j + 1)) ==
      At(Transform(b, t), Pt(n, n - 1 - i + 1, n - 1 - j + 1))
  {
    var x := SrcRC(t, n, n - 1 - i, n - 1 - j).0;
    var y := SrcRC(t, n, n - 1 - i, n - 1 - j).1;
    HalfTurnRC(t, n, i, j);
    OppositeCells(b, n, t, HalfTurn(t), i, j, x, y);
  }

  /** Two images whose cells (i, j) and (n-1-i, n-1-j) read the same cell show the same stone there. */
  lemma OppositeCells(b: Board, n: nat, t: Sym, u: Sym, i: int, j: int, x: int, y: int)
    requires Valid(b) && n == b.size && 0 <= i < n && 0 <= j < n
    requires SrcRC(u, n, i, j) == (x, y) && SrcRC(t, n, n - 1 - i, n - 1 - j) == (x, y)
    ensures At(Transform(b, u), Pt(n, i + 1, j + 1)) ==
      At(Transform(b, t), Pt(n, n - 1 - i + 1, n - 1 - j + 1))
  {
    SrcRCRange(u, n, i, j);
    TransformAtKnown(b, n, u, i, j, x, y);
    TransformAtKnown(b, n, t, n - 1 - i, n - 1 - j, x, y);
  }

  lemma RevKeyAt(b: Board, n: nat, t: Sym, i: int, j: int)
    requires Valid(b) && n == b.size && 0 <= i < n && 0 <= j < n
    ensures 0 <= i * n + j < n * n
    ensures Rev(KeyOf(Transform(b, t)))[i * n + j] == KeyOf(Transform(b, HalfTurn(t)))[i * n + j]
  {
    var key := KeyOf(Transform(b, t));
    var i', j' := n - 1 - i, n - 1 - j;
    KeyOfAt(Transform(b, HalfTurn(t)), n, i, j);
    KeyOfAt(Transform(b, t), n, i', j');
    assert key[i' * n + j'] == At(Transform(b, t), Pt(n, i' + 1, j' + 1));
    RevIndex(key, n, i, j);
    assert Rev(key)[i * n + j] == key[i' * n + j'];
    HalfTurnCell(b, n, t, i, j);
  }

  /** Reading the key of an image backwards gives the key of that image turned half way round. */
  lemma RevKey(b: Board, t: Sym)
    requires Valid(b)
    ensures Rev(KeyOf(Transform(b, t))) == KeyOf(Transform(b, HalfTurn(t)))
  {
    var n := b.size;
    var x, y := Rev(KeyOf(Transform(b, t))), KeyOf(Transform(b, HalfTurn(t)));
    forall k | 0 <= k < n * n ensures x[k] == y[k] {
      RevKeyIndex(b, n, t, k);
    }
    SameElements(x, y);
  }

  lemma RevKeyIndex(b: Board, n: nat, t: Sym, k: int)
    requires Valid(b) && n == b.size && 0 <= k < n * n
    ensures Rev(KeyOf(Transform(b, t)))[k] == KeyOf(Transform(b, HalfTurn(t)))[k]
  {
    PointAt(n, k);
    RevKeyAt(b, n, t, k / n, k % n);
  }

  /** Key `i` of `set_tt_entry` is the key of the image under `EntrySym(i)`. */
  lemma EntryKeyImage(b: Board, i: int)
    requires Valid(b) && 0 <= i < 8
    ensures EntryKey(b, i) == KeyOf(Transform(b, EntrySym(i)))
  {
    var j := if i < 4 then i else i - 4;
    var cols, reversed := j >= 2, j == 1 || j == 3;
    BaseKeyImage(b, cols, reversed);
    if i >= 4 {
      RevKey(b, PieceSym(cols, reversed));
    }
  }

  /**
   * The eight keys `set_tt_entry` writes are exactly the keys of the eight symmetric images:
   * the joined rows, mirrored rows, columns and mirrored columns are the keys of the identity,
   * the left-right mirror, the transpose and the clockwise quarter turn, and their reverses are
   * the keys of the same images turned half way round.
   */
  lemma WrittenKeys(b: Board)
    requires Valid(b)
    ensures forall k :: k in EntryKeys(b) <==> k in Images(b)
  {
    var ks := EntryKeys(b);
    forall i | 0 <= i < 8 ensures ks[i] == KeyOf(Transform(b, EntrySym(i))) {
      EntryKeyImage(b, i);
    }
    forall k | k in Images(b) ensures k in ks {
      var i :| 0 <= i < 8 && k == KeyOf(Transform(b, EntrySym(i)));
      assert ks[i] == k;
    }
  }

  /** Storing one value under every key of a list that enumerates `img`. */
  lemma StoreAllSet(tt: Table, keys: seq<seq<Stone>>, img: set<seq<Stone>>, c: Color)
    requires forall k :: k in keys <==> k in img
    ensures StoreAll(tt, keys, c).Keys == tt.Keys + img
    ensures forall k :: k in img ==> StoreAll(tt, keys, c)[k] == c
    ensures forall k :: k in tt && k !in img ==> StoreAll(tt, keys, c)[k] == tt[k]
  {
    StoreAllSpec(tt, keys, c);
  }

  /**
   * `set_tt_entry` maps every image key to `c` and leaves every other key (present or absent)
   * as it was.
   */
  lemma SetEntrySpec(tt: Table, b: Board, c: Color)
    requires Valid(b)
    ensures SetEntry(tt, b, c).Keys == tt.Keys + Images(b)
    ensures forall k :: k in Images(b) ==> SetEntry(tt, b, c)[k] == c
    ensures forall k :: k in tt && k !in Images(b) ==> SetEntry(tt, b, c)[k] == tt[k]
  {
    WrittenKeys(b);
    StoreAllSet(tt, EntryKeys(b), Images(b), c);
  }

  /** Round trip: after recording `c` for a position, looking the position up yields `c`. */
  lemma GetAfterSet(tt: Table, b: Board, c: Color)
    requires Valid(b)
    ensures GetEntry(SetEntry(tt, b, c), b) == Some(c)
  {
    SetEntrySpec(tt, b, c);
    TransformIdentity(b);
    assert EntrySym(0) == Identity;
  }

  /** After recording `c` for a position, a lookup of any rotation or mirror image of it yields `c`. */
  lemma GetSymmetricAfterSet(tt: Table, b: Board, c: Color, t: Sym)
    requires Valid(b)
    ensures GetEntry(SetEntry(tt, b, c), Transform(b, t)) == Some(c)
  {
    SetEntrySpec(tt, b, c);
    ImagesSpec(b, KeyOf(Transform(b, t)));
  }

  /** After recording `c` for any rotation or mirror image of a position, a lookup of the position yields `c`. */
  lemma SymmetricHit(tt: Table, b: Board, c: Color, t: Sym)
    requires Valid(b)
    ensures GetEntry(SetEntry(tt, Transform(b, t), c), b) == Some(c)
  {
    TransformInverse(b, t);
    GetSymmetricAfterSet(tt, Transform(b, t), c, Inverse(t));
  }

  /** Keys of different board sizes differ in length. */
  lemma KeySize(y: Board, z: Board)
    requires Valid(y) && Valid(z) && KeyOf(y) == KeyOf(z)
    ensures y.size == z.size
  {
    var n, m := y.size, z.size;
    assert |KeyOf(y)| == n * n && |KeyOf(z)| == m * m;
    if n < m {
      SquareLess(n, m);
    } else if m < n {
      SquareLess(m, n);
    }
  }

  lemma SquareLess(n: nat, m: nat)
    requires n < m
    ensures n * n < m * m
  {
    assert n * n <= n * m by { assert n * (m - n) >= 0; }
    assert n * m < m * m by { assert (m - n) * m > 0; }
  }

  lemma SameKeyImageCell(y: Board, z: Board, n: nat, t: Sym, i: int, j: int)
    requires Valid(y) && Valid(z) && y.size == n && z.size == n && KeyOf(y) == KeyOf(z)
    requires 0 <= i < n && 0 <= j < n
    ensures 0 <= i * n + j < n * n
    ensures KeyOf(Transform(y, t))[i * n + j] == KeyOf(Transform(z, t))[i * n + j]
  {
    var src := SrcRC(t, n, i, j);
    SrcRCRange(t, n, i, j);
    KeyOfAt(Transform(y, t), n, i, j);
    KeyOfAt(Transform(z, t), n, i, j);
    TransformAt(y, n, t, i, j);
    TransformAt(z, n, t, i, j);
    KeyOfAt(y, n, src.0, src.1);
    KeyOfAt(z, n, src.0, src.1);
  }

  /** Boards with the same key have images with the same key. */
  lemma SameKeyImages(y: Board, z: Board, t: Sym)
    requires Valid(y) && Valid(z) && KeyOf(y) == KeyOf(z)
    ensures KeyOf(Transform(y, t)) == KeyOf(Transform(z, t))
  {
    KeySize(y, z);
    var n := y.size;
    var ky, kz := KeyOf(Transform(y, t)), KeyOf(Transform(z, t));
    forall k | 0 <= k < n * n ensures ky[k] == kz[k] {
      PointAt(n, k);
      SameKeyImageCell(y, z, n, t, k / n, k % n);
    }
    SameElements(ky, kz);
  }

  /**
   * Every recorded position has the keys of all its rotations and mirror images recorded too:
   * the shape of every table that `set_tt_entry` builds from an empty one.
   */
  ghost predicate Closed(tt: Table)
  {
    forall y :: Valid(y) && KeyOf(y) in tt ==> Images(y) <= tt.Keys
  }

  /** `tt'` keeps every entry of `tt`. */
  predicate Extends(tt: Table, tt': Table)
  {
    forall k :: k in tt ==> k in tt' && tt'[k] == tt[k]
  }

  /** `tt'` keeps every entry of `tt` except those under the keys of `b`'s images. */
  predicate Keeps(tt: Table, tt': Table, b: Board)
    requires Valid(b)
  {
    forall k :: k in tt && k !in Images(b) ==> k in tt' && tt'[k] == tt[k]
  }

  /** The table a game starts with is closed. */
  lemma ClosedEmpty()
    ensures Closed(map[])
  {
  }

  /** A key written for `z` belongs to a board whose images are all images of `z`. */
  lemma ImagesOfImage(z: Board, y: Board)
    requires Valid(z) && Valid(y) && KeyOf(y) in Images(z)
    ensures Images(y) <= Images(z)
  {
    ImagesSpec(z, KeyOf(y));
    var a :| KeyOf(y) == KeyOf(Transform(z, a));
    forall k | k in Images(y) ensures k in Images(z) {
      ImagesSpec(y, k);
      var t :| k == KeyOf(Transform(y, t));
      SameKeyImages(y, Transform(z, a), t);
      TransformCompose(z, a, t);
      ImagesSpec(z, k);
    }
  }

  /** `set_tt_entry` keeps a table closed, since it writes one whole set of images. */
  lemma {:induction false} ClosedAfterSet(tt: Table, z: Board, c: Color)
    requires Valid(z) && Closed(tt)
    ensures Closed(SetEntry(tt, z, c))
  {
    SetEntrySpec(tt, z, c);
    var tt' := SetEntry(tt, z, c);
    forall y | Valid(y) && KeyOf(y) in tt' ensures Images(y) <= tt'.Keys {
      if KeyOf(y) !in tt {
        ImagesOfImage(z, y);
      }
    }
  }

  /** In a closed table, a recorded image of a position means the position is recorded. */
  lemma RecordedImage(tt: Table, z: Board, k: seq<Stone>)
    requires Valid(z) && Closed(tt) && k in Images(z)
    ensures k in tt ==> KeyOf(z) in tt
  {
    ImagesSpec(z, k);
    var a :| k == KeyOf(Transform(z, a));
    var w := Transform(z, a);
    TransformInverse(z, a);
    ImagesSpec(w, KeyOf(z));
  }

  /**
   * In a closed table, a position with no entry shares no key with a recorded one: none of its
   * images is recorded.
   */
  lemma FreshApart(tt: Table, z: Board)
    requires Valid(z) && Closed(tt) && GetEntry(tt, z) == None
    ensures forall k :: k in Images(z) ==> k !in tt
  {
    forall k | k in Images(z) ensures k in tt ==> KeyOf(z) in tt {
      RecordedImage(tt, z, k);
    }
  }

  /** In a closed table, recording a position with no entry yet keeps every entry. */
  lemma FreshSetExtends(tt: Table, z: Board, c: Color)
    requires Valid(z) && Closed(tt) && GetEntry(tt, z) == None
    ensures Extends(tt, SetEntry(tt, z, c))
  {
    FreshApart(tt, z);
    SetEntrySpec(tt, z, c);
  }

  lemma ExtendsTrans(t1: Table, t2: Table, t3: Table)
    requires Extends(t1, t2) && Extends(t2, t3)
    ensures Extends(t1, t3)
  {
  }

  lemma ExtendsThenKeeps(t1: Table, t2: Table, t3: Table, b: Board)
    requires Valid(b) && Extends(t1, t2) && Keeps(t2, t3, b)
    ensures Keeps(t1, t3, b)
  {
  }

  /** In a closed table, a search that only overwrites the images of a fresh position keeps every entry. */
  lemma KeepsFresh(tt: Table, tt': Table, z: Board)
    requires Valid(z) && Closed(tt) && GetEntry(tt, z) == None && Keeps(tt, tt', z)
    ensures Extends(tt, tt')
  {
    FreshApart(tt, z);
  }

  lemma ExtendsGet(tt: Table, tt': Table, y: Board)
    requires Valid(y) && Extends(tt, tt') && GetEntry(tt, y).Some?
    ensures GetEntry(tt', y) == GetEntry(tt, y)
  {
  }
}
