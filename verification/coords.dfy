/**
 * The GTP coordinate and colour helpers: a board index to (row, column), (row, column) to a
 * vertex such as "C3", a vertex back to (row, column), and the colour names.
 *
 * A Python exception (an index out of range, a failed `int()` or a missing dictionary key) is
 * the `None` result.
 */
module Coords {
  import opened Stones
  import opened Geometry

  /** `point_to_coord`: `divmod(point, NS)`.  For a positive divisor Dafny's `/` and `%` are Python's. */
  function PointToCoord(p: int, n: nat): (rc: (int, int))
    ensures rc.0 * (n + 1) + rc.1 == p && 0 <= rc.1 <= n
  {
    (p / (n + 1), p % (n + 1))
  }

  /** The coordinates of an interior point are its row and column. */
  lemma PointToCoordPt(n: nat, row: int, col: int)
    requires 0 <= row && 0 <= col <= n
    ensures PointToCoord(Pt(n, row, col), n) == (row, col)
  {
    PtRowCol(n, row, col);
  }

  /** The GTP column letters: A to Z without I. */
  const ColumnLetters: string := "ABCDEFGHJKLMNOPQRSTUVWXYZ"

  function DigitChar(d: nat): (c: char)
    requires d < 10
    ensures '0' <= c <= '9' && c as int - '0' as int == d
  {
    ('0' as int + d) as char
  }

  /** Python's `str` on a natural number: its decimal digits, most significant first. */
  function NatToString(k: nat): (s: string)
    ensures |s| >= 1 && forall i :: 0 <= i < |s| ==> '0' <= s[i] <= '9'
    decreases k
  {
    if k < 10 then [DigitChar(k)] else NatToString(k / 10) + [DigitChar(k % 10)]
  }

  /** Python's `str` on an integer. */
  function IntToString(i: int): string
  {
    if i < 0 then "-" + NatToString(-i) else NatToString(i)
  }

  /** The value of a string of decimal digits. */
  function DigitsValue(s: string): nat
    requires forall i :: 0 <= i < |s| ==> '0' <= s[i] <= '9'
  {
    if s == [] then 0 else 10 * DigitsValue(s[..|s| - 1]) + (s[|s| - 1] as int - '0' as int)
  }

  predicate AllDigits(s: string)
  {
    forall i :: 0 <= i < |s| ==> '0' <= s[i] <= '9'
  }

  /**
   * Python's `int()` on an optional sign followed by decimal digits.  Other strings raise, so
   * they give `None`.
   */
  function ParseInt(s: string): (r: Option<int>)
    ensures r.Some? ==> |s| >= 1
  {
    if |s| >= 2 && (s[0] == '-' || s[0] == '+') && AllDigits(s[1..]) then
      var v: int := DigitsValue(s[1..]);
      Some(if s[0] == '-' then -v else v)
    else if |s| >= 1 && AllDigits(s) then Some(DigitsValue(s))
    else None
  }

  /** Reading back the digits of a number gives the number. */
  lemma {:induction false} DigitsOfNat(k: nat)
    ensures AllDigits(NatToString(k)) && DigitsValue(NatToString(k)) == k
    decreases k
  {
    var s := NatToString(k);
    if k >= 10 {
      DigitsOfNat(k / 10);
      assert s[..|s| - 1] == NatToString(k / 10);
    }
  }

  /** `int(str(i)) == i`. */
  lemma ParseIntToString(i: int)
    ensures ParseInt(IntToString(i)) == Some(i)
  {
    var s := IntToString(i);
    if i < 0 {
      var digits := NatToString(-i);
      DigitsOfNat(-i);
      assert s == "-" + digits && s[1..] == digits;
      assert s[0] == '-' && AllDigits(s[1..]);
    } else {
      DigitsOfNat(i);
      assert s[0] != '-' && s[0] != '+';
    }
  }

  /** `str.lower()` on ASCII: capital letters become small, everything else is kept. */
  function Lower(s: string): (r: string)
    ensures |r| == |s|
    ensures forall i :: 0 <= i < |s| ==> r[i] == if 'A' <= s[i] <= 'Z' then (s[i] as int + 32) as char else s[i]
  {
    seq(|s|, i requires 0 <= i < |s| => if 'A' <= s[i] <= 'Z' then (s[i] as int + 32) as char else s[i])
  }

  /**
   * `format_point`: the column letter followed by the row number.  Python indexing lets
   * `col - 1` run from -25 (counted from the end) to 24; other columns raise.
   */
  function FormatPoint(row: int, col: int): (r: Option<string>)
    ensures r.Some? <==> -24 <= col <= 25
  {
    var i := col - 1;
    if -|ColumnLetters| <= i < 0 then Some([ColumnLetters[i + |ColumnLetters|]] + IntToString(row))
    else if 0 <= i < |ColumnLetters| then Some([ColumnLetters[i]] + IntToString(row))
    else None
  }

  /**
   * `move_to_coord`: lower-case the vertex, turn its letter into a column (letters before `i`
   * are shifted by one, because `i` is skipped) and parse the rest as the row.
   */
  function MoveToCoord(s: string, boardSize: nat): (r: Option<(int, int)>)
    ensures r.Some? ==> |s| >= 2
  {
    var t := Lower(s);
    if |t| == 0 then None
    else
      var colChar := t[0];
      var col := (colChar as int - 'a' as int) + (if colChar < 'i' then 1 else 0);
      match ParseInt(t[1..])
      case None => None
      case Some(row) => Some((row, col))
  }

  /** The column a lower-cased GTP letter stands for is the letter's column. */
  lemma LetterColumn(col: int)
    requires 1 <= col <= 25
    ensures var c := Lower([ColumnLetters[col - 1]])[0];
      (c as int - 'a' as int) + (if c < 'i' then 1 else 0) == col
  {
  }

  /** The vertex `format_point` writes is the column letter followed by `str(row)`. */
  lemma FormatPointShape(row: int, col: int)
    requires 1 <= col <= 25
    ensures FormatPoint(row, col) == Some([ColumnLetters[col - 1]] + IntToString(row))
  {
  }

  /** `str(i)` is a sign and digits. */
  lemma IntToStringChars(i: int)
    ensures forall k :: 0 <= k < |IntToString(i)| ==> IntToString(i)[k] == '-' || '0' <= IntToString(i)[k] <= '9'
  {
    if i < 0 {
      var s := IntToString(i);
      assert s == "-" + NatToString(-i);
      forall k | 0 <= k < |s| ensures s[k] == '-' || '0' <= s[k] <= '9' {
        if k > 0 {
          assert s[k] == NatToString(-i)[k - 1];
        }
      }
    }
  }

  /** Lower-casing a letter followed by a number lower-cases the letter only. */
  lemma LowerVertex(letter: char, num: string)
    requires forall i :: 0 <= i < |num| ==> num[i] == '-' || '0' <= num[i] <= '9'
    ensures |Lower([letter] + num)| >= 1 && Lower([letter] + num)[0] == Lower([letter])[0]
    ensures Lower([letter] + num)[1..] == num
  {
    var t := Lower([letter] + num);
    assert forall i :: 0 <= i < |num| ==> t[i + 1] == num[i];
  }

  /** `move_to_coord` reads the column from the lower-cased first character and the row from the rest. */
  lemma MoveToCoordOf(s: string, boardSize: nat, row: int, col: int)
    requires |s| >= 1
    requires (Lower(s)[0] as int - 'a' as int) + (if Lower(s)[0] < 'i' then 1 else 0) == col
    requires ParseInt(Lower(s)[1..]) == Some(row)
    ensures MoveToCoord(s, boardSize) == Some((row, col))
  {
  }

  /** `move_to_coord(format_point((row, col))) == (row, col)` for every real column. */
  lemma MoveToCoordFormat(row: int, col: int, boardSize: nat)
    requires 1 <= col <= 25
    ensures FormatPoint(row, col).Some?
    ensures MoveToCoord(FormatPoint(row, col).value, boardSize) == Some((row, col))
  {
    var letter := ColumnLetters[col - 1];
    var num := IntToString(row);
    FormatPointShape(row, col);
    IntToStringChars(row);
    LowerVertex(letter, num);
    LetterColumn(col);
    ParseIntToString(row);
    MoveToCoordOf([letter] + num, boardSize, row, col);
  }

  /** `color_to_int`: the four names its dictionary knows; any other key raises. */
  function ColorToInt(c: string): (r: Option<Stone>)
    ensures r.Some? <==> c in {"b", "w", "e", "BORDER"}
  {
    if c == "b" then Some(Black)
    else if c == "w" then Some(White)
    else if c == "e" then Some(Empty)
    else if c == "BORDER" then Some(Border)
    else None
  }

  /** `int_to_color`. */
  function IntToColor(s: Stone): (name: string)
    ensures |name| >= 1
  {
    match s
    case Black => "black"
    case White => "white"
    case Empty => "e"
    case Border => "BORDER"
  }

  /**
   * The two tables agree: a colour's name read back through its first letter, and the other two
   * values through their whole name, give the value back; and the letters "b" and "w" are the
   * first letters of the names of the colours they stand for.
   */
  lemma ColorNames(s: Stone, c: string)
    ensures ColorToInt(if s == Black || s == White then IntToColor(s)[..1] else IntToColor(s)) == Some(s)
    ensures c in {"b", "w"} ==> ColorToInt(c).Some? && IntToColor(ColorToInt(c).value)[..1] == c
  {
    assert "black"[..1] == "b" && "white"[..1] == "w";
  }
}
