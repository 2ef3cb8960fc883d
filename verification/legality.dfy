/**
 * `is_legal`: the NoGo legality test.  A move is illegal when it leaves its own block without a
 * liberty (suicide) or takes the last liberty of an adjacent opponent block (capture).
 *
 * The source places the stone, classifies the neighbours from the neighbour table, runs the two
 * depth-first liberty searches and writes Empty back on the point before returning.  The board is
 * a value here, so the function returns the board as the source leaves it next to the verdict.
 */
module Legality {
  import opened Stones
  import opened Geometry
  import opened GoBoard
  import opened Blocks
  import opened Liberties

  /** The verdict of `is_legal` and the board it leaves behind. */
  datatype Probe = Probe(legal: bool, after: Board)

  /**
   * The loop over same-coloured neighbours: search from each one not yet visited, sharing one
   * visited set, and stop at the first search that finds a liberty.  The source's `is_liberty`
   * after the loop is the result of the last search run, which is true exactly when some search
   * found a liberty (a true result breaks out of the loop).
   */
  function OwnLoop(b: Board, c: Color, visited: set<int>, order: seq<int>): bool
    requires Valid(b) && visited <= InteriorSet(b.size)
    requires forall x :: x in order ==> IsInterior(b.size, x)
    decreases |order|
  {
    if order == [] then false
    else if order[0] in visited then OwnLoop(b, c, visited, order[1..])
    else
      var (found, v) := SimpleSearch(b, c, visited, order[0]);
      found || OwnLoop(b, c, v, order[1..])
  }

  /**
   * The loop over opponent neighbours: skip stones already known to have a liberty, otherwise
   * search from a fresh visited set; fail on the first block without a liberty, and on success
   * add everything visited to the liberty set.
   */
  function OppLoop(b: Board, opp: Color, libertySet: set<int>, order: seq<int>): bool
    requires Valid(b)
    requires forall x :: x in order ==> IsInterior(b.size, x)
    decreases |order|
  {
    if order == [] then true
    else if order[0] in libertySet then OppLoop(b, opp, libertySet, order[1..])
    else
      var (found, v) := LibertySearch(b, opp, {}, libertySet, order[0]);
      found && OppLoop(b, opp, libertySet + v, order[1..])
  }

  /**
   * `is_legal(point, color)`.  The neighbour sets are walked in neighbour-table order; the
   * lemmas below hold for every order.  The point is overwritten and then emptied, so the board
   * comes back unchanged exactly when the point was Empty.
   */
  function IsLegal(b: Board, p: int, c: Color): (r: Probe)
    requires Valid(b) && IsInterior(b.size, p)
    ensures Valid(r.after) && r.after.size == b.size && r.after.toPlay == b.toPlay
    ensures At(r.after, p) == Empty && forall q :: q != p ==> At(r.after, q) == At(b, q)
    ensures r.after == b <==> At(b, p) == Empty
  {
    var placed := PlayMove(b, p, c);
    var nbs := NonBorderNeighbors(b.size, p);
    var same := OfColor(placed, nbs, c);
    var opps := OfColor(placed, nbs, Opponent(c));
    var empties := OfColor(placed, nbs, Empty);
    var ownOk := empties != [] || (same != [] && OwnLoop(placed, c, {}, same));
    var legal := ownOk && OppLoop(placed, Opponent(c), {}, opps);
    var r := Probe(legal, UndoMove(placed, p));
    if At(b, p) == Empty then (UndoPlay(b, p, c); r) else r
  }

  /**
   * The rule the search-based test implements, stated with blocks: after placing `c` on `p`,
   * the block of `p` has a liberty and so does the block of every adjacent opponent stone.
   */
  predicate PlacementOk(b: Board, p: int, c: Color)
    requires Valid(b) && IsInterior(b.size, p)
  {
    && HasLiberty(b, Component(b, p))
    && forall d :: 0 <= d < 4 && IsInterior(b.size, Nbr(b.size, p, d)) && At(b, Nbr(b.size, p, d)) == Opponent(c) ==>
         HasLiberty(b, Component(b, Nbr(b.size, p, d)))
  }

  /**
   * `is_legal_original`, the block-based formulation the search version replaced: the point must
   * be Empty, no adjacent opponent block may be left without a liberty (`_detect_and_process_capture`),
   * and the block of the new stone must keep one (`_block_of` and `_has_liberty`).
   */
  predicate IsLegalOriginal(b: Board, p: int, c: Color)
    requires Valid(b) && IsInterior(b.size, p)
  {
    At(b, p) == Empty && PlacementOk(PlayMove(b, p, c), p, c)
  }

  /**
   * The own-neighbour loop decides whether the block of `a` has a liberty, provided every
   * stone it starts from lies in that block and the stones already visited are done.
   */
  lemma {:induction false} OwnLoopCorrect(b: Board, c: Color, visited: set<int>, order: seq<int>, a: int)
    requires Valid(b) && IsInterior(b.size, a) && At(b, a) == c
    requires visited <= InteriorSet(b.size) && AllOf(b, visited, c) && visited <= Component(b, a)
    requires forall q :: q in visited ==> Done(b, c, q, visited)
    requires forall x :: x in order ==> x in Component(b, a)
    requires visited != {} || order != []
    ensures forall x :: x in order ==> IsInterior(b.size, x)
    ensures OwnLoop(b, c, visited, order) <==> HasLiberty(b, Component(b, a))
    decreases |order|
  {
    ComponentSpec(b, a);
    if order == [] {
      var x :| x in visited;
      ClosedWhenDone(b, c, visited);
      ComponentSame(b, a, x);
      ComponentMinimal(b, x, visited);
      NoLibertyWhenDone(b, c, Component(b, a), visited);
    } else {
      var rest := order[1..];
      assert forall x :: x in rest ==> x in order;
      if order[0] in visited {
        OwnLoopCorrect(b, c, visited, rest, a);
      } else {
        SimpleSearchCorrect(b, c, visited, order[0], a);
        var (found, v) := SimpleSearch(b, c, visited, order[0]);
        if !found {
          forall q | q in v ensures Done(b, c, q, v) {
            if q in visited {
              DoneGrows(b, c, q, visited, v);
            }
          }
          OwnLoopCorrect(b, c, v, rest, a);
        }
      }
    }
  }

  /** The opponent loop succeeds iff the block of every stone it is given has a liberty. */
  lemma {:induction false} OppLoopCorrect(b: Board, opp: Color, libertySet: set<int>, order: seq<int>)
    requires Valid(b) && LibertySetOk(b, opp, libertySet)
    requires forall x :: x in order ==> IsInterior(b.size, x) && At(b, x) == opp
    ensures OppLoop(b, opp, libertySet, order) <==>
      forall x :: x in order ==> HasLiberty(b, Component(b, x))
    decreases |order|
  {
    if order != [] {
      var rest := order[1..];
      assert order == [order[0]] + rest;
      if order[0] in libertySet {
        OppLoopCorrect(b, opp, libertySet, rest);
      } else {
        LibertySearchDecides(b, opp, libertySet, order[0]);
        var (found, v) := LibertySearch(b, opp, {}, libertySet, order[0]);
        if found {
          OppLoopCorrect(b, opp, libertySet + v, rest);
        }
      }
    }
  }

  /** The own-block half of `is_legal` decides whether the new stone's block keeps a liberty. */
  lemma OwnPartCorrect(b: Board, p: int, c: Color)
    requires Valid(b) && IsInterior(b.size, p) && At(b, p) == c
    ensures var nbs := NonBorderNeighbors(b.size, p);
      var same := OfColor(b, nbs, c);
      (OfColor(b, nbs, Empty) != [] || (same != [] && OwnLoop(b, c, {}, same)))
        <==> HasLiberty(b, Component(b, p))
  {
    var nbs := NonBorderNeighbors(b.size, p);
    var same := OfColor(b, nbs, c);
    var empties := OfColor(b, nbs, Empty);
    ComponentSpec(b, p);
    if empties != [] {
      var x := empties[0];
      assert x in empties;
      TableStep(b, p, p, x);
    } else if same == [] {
      forall d | 0 <= d < 4
        ensures At(b, Nbr(b.size, p, d)) != Empty && At(b, Nbr(b.size, p, d)) != c
      {
        AtInterior(b, Nbr(b.size, p, d));
        if IsInterior(b.size, Nbr(b.size, p, d)) {
          NbrInTable(b.size, p, d);
        }
      }
      IsolatedNoLiberty(b, p, c);
    } else {
      forall x | x in same ensures x in Component(b, p) {
        TableStep(b, p, p, x);
      }
      OwnLoopCorrect(b, c, {}, same, p);
    }
  }

  /** The opponent half of `is_legal` decides whether every adjacent opponent block keeps a liberty. */
  lemma OppPartCorrect(b: Board, p: int, c: Color)
    requires Valid(b) && IsInterior(b.size, p)
    ensures OppLoop(b, Opponent(c), {}, OfColor(b, NonBorderNeighbors(b.size, p), Opponent(c))) <==>
      forall d :: 0 <= d < 4 && IsInterior(b.size, Nbr(b.size, p, d)) && At(b, Nbr(b.size, p, d)) == Opponent(c) ==>
        HasLiberty(b, Component(b, Nbr(b.size, p, d)))
  {
    var opps := OfColor(b, NonBorderNeighbors(b.size, p), Opponent(c));
    forall x | x in opps ensures IsInterior(b.size, x) {
      TableNbr(b.size, p, x);
    }
    OppLoopCorrect(b, Opponent(c), {}, opps);
    if forall x :: x in opps ==> HasLiberty(b, Component(b, x)) {
      forall d | 0 <= d < 4 && IsInterior(b.size, Nbr(b.size, p, d)) && At(b, Nbr(b.size, p, d)) == Opponent(c)
        ensures HasLiberty(b, Component(b, Nbr(b.size, p, d)))
      {
        NbrInTable(b.size, p, d);
        assert Nbr(b.size, p, d) in opps;
      }
    } else {
      var x :| x in opps && !HasLiberty(b, Component(b, x));
      TableNbr(b.size, p, x);
      var d :| 0 <= d < 4 && x == Nbr(b.size, p, d);
      assert !HasLiberty(b, Component(b, Nbr(b.size, p, d)));
    }
  }

  /** `is_legal` returns true exactly when neither the suicide rule nor the capture rule fires. */
  lemma IsLegalSpec(b: Board, p: int, c: Color)
    requires Valid(b) && IsInterior(b.size, p)
    ensures IsLegal(b, p, c).legal <==> PlacementOk(PlayMove(b, p, c), p, c)
  {
    var placed := PlayMove(b, p, c);
    OwnPartCorrect(placed, p, c);
    OppPartCorrect(placed, p, c);
  }

  /** On an Empty point the search-based test agrees with the block-based original. */
  lemma IsLegalMatchesOriginal(b: Board, p: int, c: Color)
    requires Valid(b) && IsInterior(b.size, p) && At(b, p) == Empty
    ensures IsLegal(b, p, c).legal <==> IsLegalOriginal(b, p, c)
    ensures IsLegal(b, p, c).after == b
  {
    IsLegalSpec(b, p, c);
  }

  /** A stone with neither an Empty nor a same-coloured neighbour is a block without a liberty. */
  lemma IsolatedNoLiberty(b: Board, p: int, c: Color)
    requires Valid(b) && IsInterior(b.size, p) && At(b, p) == c
    requires forall d :: 0 <= d < 4 ==> At(b, Nbr(b.size, p, d)) != Empty && At(b, Nbr(b.size, p, d)) != c
    ensures !HasLiberty(b, Component(b, p))
  {
    ComponentSpec(b, p);
    assert Closed(b, c, {p});
    ComponentMinimal(b, p, {p});
    assert !HasEmptyNeighbor(b, p);
  }

  /**
   * The early exit of `is_legal`: a stone whose four orthogonal neighbours are border or
   * opponent stones after placement is illegal, whatever the rest of the board.
   */
  lemma SurroundedByOpponentIllegal(b: Board, p: int, c: Color)
    requires Valid(b) && IsInterior(b.size, p)
    requires forall d :: 0 <= d < 4 ==> At(b, Nbr(b.size, p, d)) in {Border, Opponent(c)}
    ensures !IsLegal(b, p, c).legal
  {
    var placed := PlayMove(b, p, c);
    forall d | 0 <= d < 4
      ensures At(placed, Nbr(b.size, p, d)) != Empty && At(placed, Nbr(b.size, p, d)) != c
    {
      assert Nbr(b.size, p, d) != p;
    }
    IsolatedNoLiberty(placed, p, c);
    IsLegalSpec(b, p, c);
  }
}
