/**
 * The solver: `get_outcome`, a depth-first search over the frontier of Empty points that
 * records every position it decides in the transposition table, and `solve_cmd`, which runs
 * it from the current position and reports the winner.
 *
 * The CPU-time deadline is a budget of call entries: a call with budget 0 has run out of time,
 * every other call spends one unit and hands the rest on.  The order in which Python walks a
 * `set` is unspecified, so each step takes any point of the points not yet tried.
 */
module Solver {
  import opened Stones
  import opened Geometry
  import opened GoBoard
  import opened Legality
  import opened TTable
  import opened Coords
  import opened SetLemmas
  import opened Counting
  import opened Symmetry

  /** The points the search may still play: interior and Empty. */
  predicate FrontierOk(b: Board, frontier: set<int>)
  {
    forall m :: m in frontier ==> IsInterior(b.size, m) && At(b, m) == Empty
  }

  /** Recording `c` for a position keeps every entry that already says `c`, and keeps every key. */
  lemma SetEntryKeeps(tt: Table, b: Board, x: Board, c: Color)
    requires Valid(b) && Valid(x)
    ensures tt.Keys <= SetEntry(tt, b, c).Keys
    ensures GetEntry(tt, x) == Some(c) ==> GetEntry(SetEntry(tt, b, c), x) == Some(c)
  {
    SetEntrySpec(tt, b, c);
  }

  /**
   * No position with at least `e` Empty points has had its entry changed between `tt` and
   * `tt'`.  Every position a search below `b` decides has fewer Empty points than `b`.
   */
  ghost predicate Untouched(tt: Table, tt': Table, n: nat, e: nat)
  {
    forall y :: Valid(y) && y.size == n && EmptyCount(y) >= e ==> GetEntry(tt', y) == GetEntry(tt, y)
  }

  lemma UntouchedTrans(t1: Table, t2: Table, t3: Table, n: nat, e: nat)
    requires Untouched(t1, t2, n, e) && Untouched(t2, t3, n, e)
    ensures Untouched(t1, t3, n, e)
  {
  }

  /** Recording a result for `b` changes no entry of a position with more Empty points. */
  lemma SetEntryUntouched(tt: Table, b: Board, c: Color)
    requires Valid(b)
    ensures Untouched(tt, SetEntry(tt, b, c), b.size, EmptyCount(b) + 1)
  {
    forall y | Valid(y) && y.size == b.size && EmptyCount(y) >= EmptyCount(b) + 1
      ensures GetEntry(SetEntry(tt, b, c), y) == GetEntry(tt, y)
    {
      SetEntryElsewhere(tt, b, c, y);
    }
  }

  /**
   * `set_tt_entry(c)` at the end of a decided call: `b` and all its images are recorded as won
   * by `c`, no key is lost, no position with more Empty points changes, an entry already saying
   * `c` stays, a closed table stays closed and nothing outside `b`'s images is overwritten.
   */
  lemma RecordVerdict(tt0: Table, tt: Table, b: Board, c: Color, x: Board)
    requires Valid(b) && Valid(x) && tt0.Keys <= tt.Keys && Untouched(tt0, tt, b.size, EmptyCount(b) + 1)
    ensures var tt' := SetEntry(tt, b, c);
      && tt0.Keys <= tt'.Keys
      && GetEntry(tt', b) == Some(c)
      && Untouched(tt0, tt', b.size, EmptyCount(b) + 1)
      && (GetEntry(tt, x) == Some(c) ==> GetEntry(tt', x) == Some(c))
      && (forall t :: GetEntry(tt', Transform(b, t)) == Some(c))
      && (Closed(tt) ==> Closed(tt'))
      && (Extends(tt0, tt) ==> Keeps(tt0, tt', b))
  {
    forall t ensures GetEntry(SetEntry(tt, b, c), Transform(b, t)) == Some(c) {
      GetSymmetricAfterSet(tt, b, c, t);
    }
    if Closed(tt) {
      ClosedAfterSet(tt, b, c);
    }
    SetEntrySpec(tt, b, c);
    SetEntryKeeps(tt, b, x, c);
    GetAfterSet(tt, b, c);
    SetEntryUntouched(tt, b, c);
    UntouchedTrans(tt0, tt, SetEntry(tt, b, c), b.size, EmptyCount(b) + 1);
  }

  /** A point of a non-empty part of the frontier, in no particular order. */
  method Pick(b: Board, frontier: set<int>, remaining: set<int>) returns (m: int)
    requires Valid(b) && FrontierOk(b, frontier) && remaining <= frontier && remaining != {}
    ensures m in remaining
  {
    forall y | y in remaining ensures 0 <= y < ArraySize(b.size) {
      InteriorBounds(b.size, y);
    }
    var some := Member(remaining, ArraySize(b.size));
    m :| m in remaining;
  }

  /** Playing a point of the frontier leaves the rest of the frontier playable. */
  lemma FrontierAfterPlay(b: Board, frontier: set<int>, m: int, c: Color)
    requires Valid(b) && FrontierOk(b, frontier) && m in frontier
    ensures FrontierOk(PlayMove(b, m, c), frontier - {m})
    ensures |frontier - {m}| < |frontier|
  {
  }

  /** What one move of the search loop leads to. */
  datatype Step =
    | NoWin   // illegal, or a win for the opponent: try the next move
    | Win     // a win for the player: `b` is recorded and the move is returned
    | Cut     // time ran out below: return at once

  /**
   * One turn of the loop of `get_outcome`: test `m`, play it, look the position up, search it
   * if it is not recorded yet, read its entry back, undo `m`.
   */
  method TryMove(b: Board, c: Color, frontier: set<int>, m: int, tt: Table, budget: nat)
    returns (step: Step, after: Board, tt': Table, left: nat)
    requires Valid(b) && FrontierOk(b, frontier) && m in frontier
    ensures after == b && left <= budget && tt.Keys <= tt'.Keys
    ensures step == Win ==>
      && IsLegalOriginal(b, m, c)
      && GetEntry(tt', PlayMove(b, m, c)) == Some(c)
      && GetEntry(tt', b) == Some(c)
    ensures Untouched(tt, tt', b.size, EmptyCount(b) + 1)
    ensures step != Win ==> Untouched(tt, tt', b.size, EmptyCount(b))
    ensures step == Cut ==> left == 0
    ensures step == Win ==> forall t :: GetEntry(tt', Transform(b, t)) == Some(c)
    ensures step == NoWin && IsLegalOriginal(b, m, c) ==> GetEntry(tt', PlayMove(b, m, c)) == Some(Opponent(c))
    ensures Closed(tt) ==> Closed(tt') && Keeps(tt, tt', b)
    ensures Closed(tt) && step != Win ==> Extends(tt, tt')
    decreases |frontier|, 0
  {
    step, after, tt', left := NoWin, b, tt, budget;
    var probe := IsLegal(b, m, c);
    after := probe.after;
    IsLegalMatchesOriginal(b, m, c);
    if !probe.legal {
      return;
    }
    var child := PlayMove(b, m, c);
    UndoPlay(b, m, c);
    var winning := GetEntry(tt', child);
    if winning.Some? {
      after := UndoMove(child, m);
      if winning.value == c {
        RecordVerdict(tt, tt', b, c, child);
        tt' := SetEntry(tt', b, c);
        step := Win;
      }
      return;
    }
    FrontierAfterPlay(b, frontier, m, c);
    PlayMoveCount(b, m, c);
    var childMove, childCut, childAfter;
    childMove, childCut, childAfter, tt', left := GetOutcome(child, Opponent(c), frontier - {m}, tt', budget);
    if Closed(tt) {
      KeepsFresh(tt, tt', child);
    }
    var winner := GetEntry(tt', childAfter);
    after := UndoMove(childAfter, m);
    if winner.None? {
      step := Cut;
      return;
    }
    if winner.value == c {
      RecordVerdict(tt, tt', b, c, child);
      tt' := SetEntry(tt', b, c);
      step := Win;
    }
  }

  /**
   * `get_outcome(color, empty_points, start_time)`.  `move` is the winning move it returns,
   * `cut` says the call returned because time ran out (here or in a call below it), `after` is
   * the board as the call leaves it and `left` the budget it did not use.
   *
   * A decided call records its verdict for `b` and all its images: `c` with a winning move,
   * whose position is recorded as won by `c`; the opponent when no move wins.  Entries are only
   * ever added or overwritten, never removed.  In a closed table (every table the program
   * builds) nothing but `b`'s own images is overwritten, and a call that finds no winning move
   * leaves every legal move's position recorded as won by the opponent.
   */
  method GetOutcome(b: Board, c: Color, frontier: set<int>, tt: Table, budget: nat)
    returns (move: Option<int>, cut: bool, after: Board, tt': Table, left: nat)
    requires Valid(b) && FrontierOk(b, frontier)
    ensures after == b && left <= budget && tt.Keys <= tt'.Keys
    ensures budget == 0 ==> cut && move == None && tt' == tt
    ensures cut ==> move == None && left == 0
    ensures move.Some? ==> GetEntry(tt', b) == Some(c)
    ensures !cut && move.None? ==> GetEntry(tt', b) == Some(Opponent(c))
    ensures move.Some? ==>
      && move.value in frontier
      && IsLegalOriginal(b, move.value, c)
      && GetEntry(tt', PlayMove(b, move.value, c)) == Some(c)
    ensures frontier == {} && budget > 0 ==> move == None && !cut
    ensures Untouched(tt, tt', b.size, EmptyCount(b) + 1)
    ensures cut ==> Untouched(tt, tt', b.size, EmptyCount(b)) && GetEntry(tt', b) == GetEntry(tt, b)
    ensures GetEntry(tt, b) == None ==> (cut <==> GetEntry(tt', b) == None)
    ensures !cut ==> forall t :: GetEntry(tt', Transform(b, t)) == GetEntry(tt', b)
    ensures Closed(tt) ==> Closed(tt') && Keeps(tt, tt', b)
    ensures Closed(tt) && cut ==> Extends(tt, tt')
    ensures Closed(tt) && !cut && move.None? ==>
      forall x :: x in frontier && IsLegalOriginal(b, x, c) ==> GetEntry(tt', PlayMove(b, x, c)) == Some(Opponent(c))
    decreases |frontier|, 1
  {
    move, cut, after, tt', left := None, false, b, tt, budget;
    if budget == 0 {
      cut := true;
      return;
    }
    left := budget - 1;
    var remaining := frontier;
    while remaining != {}
      invariant remaining <= frontier
      invariant after == b && left < budget && tt.Keys <= tt'.Keys
      invariant Untouched(tt, tt', b.size, EmptyCount(b))
      invariant Closed(tt) ==> Closed(tt') && Extends(tt, tt')
      invariant Closed(tt) ==> forall x :: x in frontier - remaining && IsLegalOriginal(b, x, c) ==>
        GetEntry(tt', PlayMove(b, x, c)) == Some(Opponent(c))
      decreases |remaining|
    {
      var m := Pick(b, frontier, remaining);
      ghost var tried := frontier - remaining;
      remaining := remaining - {m};
      var step, tt2;
      step, after, tt2, left := TryMove(after, c, frontier, m, tt', left);
      UntouchedTrans(tt, tt', tt2, b.size, EmptyCount(b) + 1);
      if step != Win {
        UntouchedTrans(tt, tt', tt2, b.size, EmptyCount(b));
        if Closed(tt) {
          ExtendsTrans(tt, tt', tt2);
          forall x | x in tried && IsLegalOriginal(b, x, c)
            ensures GetEntry(tt2, PlayMove(b, x, c)) == Some(Opponent(c))
          {
            ExtendsGet(tt', tt2, PlayMove(b, x, c));
          }
        }
      } else if Closed(tt) {
        ExtendsThenKeeps(tt, tt', tt2, b);
      }
      tt' := tt2;
      if step == Cut {
        cut := true;
        return;
      }
      if step == Win {
        move := Some(m);
        return;
      }
    }
    if Closed(tt) {
      forall x | x in frontier && IsLegalOriginal(b, x, c)
        ensures GetEntry(SetEntry(tt', b, Opponent(c)), PlayMove(b, x, c)) == Some(Opponent(c))
      {
        PlayMoveCount(b, x, c);
        SetEntryElsewhere(tt', b, Opponent(c), PlayMove(b, x, c));
      }
    }
    RecordVerdict(tt, tt', b, Opponent(c), b);
    tt' := SetEntry(tt', b, Opponent(c));
  }

  /** `set(get_empty_points())`: the frontier `solve_cmd` starts from. */
  function RootFrontier(b: Board): (s: set<int>)
    requires Valid(b)
    ensures FrontierOk(b, s)
  {
    set x | x in EmptyPoints(b)
  }

  /** The vertex `solve_cmd` names for a point: `format_point(point_to_coord(point))`. */
  function Vertex(b: Board, p: int): Option<string>
  {
    var rc := PointToCoord(p, b.size);
    FormatPoint(rc.0, rc.1)
  }

  /** Every interior point has a vertex, and the vertex reads back as its row and column. */
  lemma VertexOfInterior(b: Board, p: int)
    requires Valid(b) && IsInterior(b.size, p)
    ensures Vertex(b, p).Some?
    ensures MoveToCoord(Vertex(b, p).value, b.size) == Some((Row(b.size, p), Col(b.size, p)))
  {
    var n := b.size;
    RowColPt(n, p);
    PointToCoordPt(n, Row(n, p), Col(n, p));
    MoveToCoordFormat(Row(n, p), Col(n, p), n);
  }

  /**
   * The reply of `solve_cmd` as written, from the move `get_outcome` returned and the entry
   * of the position after the search; `None` is the exception `point_to_coord(None)` raises
   * when the entry names the player to move but no move came back.
   */
  function SolveReplyAsWritten(b: Board, move: Option<int>, winner: Option<Color>): (reply: Option<string>)
    ensures winner.None? ==> reply == Some("[unknown]")
    ensures winner.Some? && winner.value != b.toPlay ==> reply == Some("[" + IntToColor(winner.value)[..1] + "]")
    ensures winner == Some(b.toPlay) && move.None? ==> reply.None?
  {
    match winner
    case None => Some("[unknown]")
    case Some(w) =>
      if w == b.toPlay then
        match move
        case None => None
        case Some(m) =>
          match Vertex(b, m)
          case None => None
          case Some(v) => Some("[" + IntToColor(w)[..1] + " " + v + "]")
      else Some("[" + IntToColor(w)[..1] + "]")
  }

  /**
   * `solve_cmd` as written: the winner is read from the table after the search, whether or
   * not the search was cut off.  If the table already records the current position as a win
   * for the player to move (from an earlier `solve`) and time runs out at once, there is no
   * move to print and the command fails.
   */
  method SolveCmdAsWritten(b: Board, tt: Table, budget: nat)
    returns (reply: Option<string>, move: Option<int>, tt': Table, after: Board)
    requires Valid(b)
    ensures after == b
    ensures reply.None? <==> GetEntry(tt', b) == Some(b.toPlay) && move.None?
    ensures budget == 0 && GetEntry(tt, b) == Some(b.toPlay) ==> reply.None?
    ensures GetEntry(tt, b) == None ==> reply.Some?
  {
    var cut, left;
    move, cut, after, tt', left := GetOutcome(b, b.toPlay, RootFrontier(b), tt, budget);
    if move.Some? {
      VertexOfInterior(b, move.value);
    }
    reply := SolveReplyAsWritten(b, move, GetEntry(tt', after));
  }

  /**
   * A table that already records a position as a win for the player to move: the state an
   * earlier `solve` leaves behind, in which `SolveCmdAsWritten` with no time left fails.
   */
  lemma RecordedRootWin(b: Board)
    requires Valid(b)
    ensures var tt := SetEntry(map[], b, b.toPlay); GetEntry(tt, b) == Some(b.toPlay)
  {
    GetAfterSet(map[], b, b.toPlay);
  }

  /** A reply that names a colour by its letter is never "[unknown]". */
  lemma ReplyNotUnknown(x: string, v: string)
    requires |x| == 1
    ensures "[" + x + "]" != "[unknown]"
    ensures "[" + x + " " + v + "]" != "[unknown]"
  {
    assert |"[" + x + "]"| == 3;
    assert ("[" + x + " " + v + "]")[2] == ' ';
  }

  /**
   * `solve_cmd`, answering "unknown" whenever the search was cut off.  It always answers;
   * a reply that names the player to move carries a legal move whose position the table
   * records as won by that player; a reply naming the opponent is the table's verdict and, in a
   * closed table, every legal move leads to a position recorded as won by the opponent.
   */
  method SolveCmd(b: Board, tt: Table, budget: nat)
    returns (reply: string, move: Option<int>, tt': Table, after: Board, left: nat)
    requires Valid(b)
    ensures after == b && left <= budget
    ensures reply == "[unknown]" ==> left == 0
    ensures budget == 0 ==> reply == "[unknown]" && tt' == tt
    ensures reply == "[unknown]" || reply == "[" + IntToColor(Opponent(b.toPlay))[..1] + "]" || move.Some?
    ensures move.Some? ==>
      && IsInterior(b.size, move.value) && IsLegalOriginal(b, move.value, b.toPlay)
      && GetEntry(tt', PlayMove(b, move.value, b.toPlay)) == Some(b.toPlay)
      && GetEntry(tt', b) == Some(b.toPlay)
      && Vertex(b, move.value).Some?
      && reply == "[" + IntToColor(b.toPlay)[..1] + " " + Vertex(b, move.value).value + "]"
    ensures reply == "[" + IntToColor(Opponent(b.toPlay))[..1] + "]" ==> GetEntry(tt', b) == Some(Opponent(b.toPlay))
    ensures GetEntry(tt, b) == None ==> Some(reply) == SolveReplyAsWritten(b, move, GetEntry(tt', b))
    ensures reply != "[unknown]" ==> forall t :: GetEntry(tt', Transform(b, t)) == GetEntry(tt', b)
    ensures Closed(tt) ==> Closed(tt') && Keeps(tt, tt', b)
    ensures Closed(tt) && move.None? && reply != "[unknown]" ==>
      forall x :: x in EmptyPoints(b) && IsLegalOriginal(b, x, b.toPlay) ==>
        GetEntry(tt', PlayMove(b, x, b.toPlay)) == Some(Opponent(b.toPlay))
  {
    var cut;
    move, cut, after, tt', left := GetOutcome(b, b.toPlay, RootFrontier(b), tt, budget);
    if cut {
      reply := "[unknown]";
      return;
    }
    if move.Some? {
      VertexOfInterior(b, move.value);
      var v := Vertex(b, move.value).value;
      ReplyNotUnknown(IntToColor(b.toPlay)[..1], v);
      reply := "[" + IntToColor(b.toPlay)[..1] + " " + v + "]";
    } else {
      ReplyNotUnknown(IntToColor(Opponent(b.toPlay))[..1], "");
      reply := "[" + IntToColor(Opponent(b.toPlay))[..1] + "]";
    }
  }
}
