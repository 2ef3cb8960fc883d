/**
 * The move-list utilities: the legal moves of a colour, the eye-last ordering of a move list,
 * and the (despite its name, deterministic) filtered list of moves for the side to play.
 *
 * Each `is_legal` call is made on an Empty point, so the board it hands back is the board it
 * was given; the methods thread that board and return it.
 */
module Moves {
  import opened Stones
  import opened Geometry
  import opened GoBoard
  import opened Legality
  import opened Seqs

  /** Points that are playable, so that `is_legal` may be asked about them. */
  predicate AllInterior(n: nat, ps: seq<int>)
  {
    forall i :: 0 <= i < |ps| ==> IsInterior(n, ps[i])
  }

  /**
   * The test `generate_random_moves` applies to a point: not an eye of `c` when `eyeFilter` is
   * on, and legal for `c`.  With the filter off it is the test of `generate_legal_moves`.
   */
  predicate Passes(b: Board, x: int, c: Color, eyeFilter: bool)
    requires Valid(b) && IsInterior(b.size, x)
  {
    !(eyeFilter && IsEye(b, x, c)) && IsLegal(b, x, c).legal
  }

  /** The points of `ps` that pass the test, in their order. */
  function Keep(b: Board, ps: seq<int>, c: Color, eyeFilter: bool): (r: seq<int>)
    requires Valid(b) && AllInterior(b.size, ps)
    ensures |r| <= |ps|
  {
    if ps == [] then []
    else
      var last := ps[|ps| - 1];
      Keep(b, ps[..|ps| - 1], c, eyeFilter) + (if Passes(b, last, c, eyeFilter) then [last] else [])
  }

  /** Keeping from one more point of a list. */
  lemma KeepSnoc(b: Board, ps: seq<int>, i: nat, c: Color, eyeFilter: bool)
    requires Valid(b) && AllInterior(b.size, ps) && i < |ps|
    ensures AllInterior(b.size, ps[..i]) && AllInterior(b.size, ps[..i + 1]) && IsInterior(b.size, ps[i])
    ensures Keep(b, ps[..i + 1], c, eyeFilter) ==
      Keep(b, ps[..i], c, eyeFilter) + (if Passes(b, ps[i], c, eyeFilter) then [ps[i]] else [])
  {
    assert ps[..i + 1][..i] == ps[..i];
  }

  /** A point is kept exactly when it is in `ps` and passes the test. */
  lemma {:induction false} KeepMembers(b: Board, ps: seq<int>, c: Color, eyeFilter: bool, x: int)
    requires Valid(b) && AllInterior(b.size, ps)
    ensures x in Keep(b, ps, c, eyeFilter) <==> x in ps && IsInterior(b.size, x) && Passes(b, x, c, eyeFilter)
  {
    if ps != [] {
      var init := ps[..|ps| - 1];
      assert forall y :: y in ps <==> y in init || y == ps[|ps| - 1];
      KeepMembers(b, init, c, eyeFilter, x);
    }
  }

  predicate Increasing(s: seq<int>)
  {
    forall i, j :: 0 <= i < j < |s| ==> s[i] < s[j]
  }

  /** An increasing list followed by a larger element is increasing. */
  lemma IncreasingSnoc(k: seq<int>, tail: seq<int>, last: int)
    requires Increasing(k) && (forall i :: 0 <= i < |k| ==> k[i] < last)
    requires tail == [] || tail == [last]
    ensures Increasing(k + tail)
  {
  }

  /** Filtering keeps the order: what is kept from an increasing list is increasing. */
  lemma {:induction false} KeepIncreasing(b: Board, ps: seq<int>, c: Color, eyeFilter: bool)
    requires Valid(b) && AllInterior(b.size, ps) && Increasing(ps)
    ensures Increasing(Keep(b, ps, c, eyeFilter))
  {
    if ps != [] {
      var init := ps[..|ps| - 1];
      var last := ps[|ps| - 1];
      KeepIncreasing(b, init, c, eyeFilter);
      var k := Keep(b, init, c, eyeFilter);
      forall i | 0 <= i < |k| ensures k[i] < last {
        KeepMembers(b, init, c, eyeFilter, k[i]);
        var idx :| 0 <= idx < |init| && init[idx] == k[i];
      }
      IncreasingSnoc(k, if Passes(b, last, c, eyeFilter) then [last] else [], last);
    }
  }

  /**
   * The body of the loop shared by `generate_legal_moves` (filter off) and
   * `generate_random_moves`.  `is_legal` is skipped when the eye test already rejects the
   * point, as Python's `and` short-circuits.
   */
  method TestPoint(b: Board, move: int, c: Color, eyeFilter: bool) returns (legal: bool, after: Board)
    requires Valid(b) && IsInterior(b.size, move) && At(b, move) == Empty
    ensures after == b
    ensures legal == Passes(b, move, c, eyeFilter)
  {
    legal := false;
    after := b;
    if !(eyeFilter && IsEye(b, move, c)) {
      var probe := IsLegal(b, move, c);
      after := probe.after;
      legal := probe.legal;
    }
  }

  /** One turn of the shared loop: test the next Empty point and keep it if it passes. */
  method KeepNext(b: Board, empties: seq<int>, i: nat, moves: seq<int>, c: Color, eyeFilter: bool)
    returns (moves': seq<int>, after: Board)
    requires Valid(b) && empties == EmptyPoints(b) && i < |empties|
    requires AllInterior(b.size, empties[..i]) && moves == Keep(b, empties[..i], c, eyeFilter)
    ensures AllInterior(b.size, empties[..i + 1])
    ensures after == b && moves' == Keep(b, empties[..i + 1], c, eyeFilter)
  {
    var move := empties[i];
    KeepSnoc(b, empties, i, c, eyeFilter);
    assert empties[i] in empties;
    var legal;
    legal, after := TestPoint(b, move, c, eyeFilter);
    moves' := if legal then moves + [move] else moves;
  }

  /** The shared loop: walk the Empty points in order, keep those passing the test. */
  method FilterEmptyPoints(b: Board, c: Color, eyeFilter: bool) returns (moves: seq<int>, after: Board)
    requires Valid(b)
    ensures after == b
    ensures moves == Keep(b, EmptyPoints(b), c, eyeFilter)
  {
    var empties := EmptyPoints(b);
    moves := [];
    after := b;
    var i := 0;
    while i < |empties|
      invariant 0 <= i <= |empties|
      invariant after == b
      invariant AllInterior(b.size, empties[..i])
      invariant moves == Keep(b, empties[..i], c, eyeFilter)
    {
      moves, after := KeepNext(after, empties, i, moves, c, eyeFilter);
      i := i + 1;
    }
    assert empties[..i] == empties;
  }

  /**
   * `generate_legal_moves`: the Empty points where `c` may play, in increasing index order;
   * the board is left as it was.
   */
  method GenerateLegalMoves(b: Board, c: Color) returns (moves: seq<int>, after: Board)
    requires Valid(b)
    ensures after == b
    ensures moves == Keep(b, EmptyPoints(b), c, false)
    ensures forall x :: x in moves <==> IsInterior(b.size, x) && IsLegalOriginal(b, x, c)
    ensures Increasing(moves)
  {
    moves, after := FilterEmptyPoints(b, c, false);
    KeepIncreasing(b, EmptyPoints(b), c, false);
    forall x ensures x in moves <==> IsInterior(b.size, x) && IsLegalOriginal(b, x, c) {
      KeepMembers(b, EmptyPoints(b), c, false, x);
      if IsInterior(b.size, x) && At(b, x) == Empty {
        IsLegalMatchesOriginal(b, x, c);
      }
    }
  }

  /**
   * `generate_random_moves`: the Empty points legal for the side to play and, when
   * `eyeFilter` is set, not its eyes, in increasing index order.
   */
  method GenerateRandomMoves(b: Board, eyeFilter: bool) returns (moves: seq<int>, after: Board)
    requires Valid(b)
    ensures after == b
    ensures moves == Keep(b, EmptyPoints(b), b.toPlay, eyeFilter)
    ensures forall x :: x in moves <==>
      IsInterior(b.size, x) && IsLegalOriginal(b, x, b.toPlay) && !(eyeFilter && IsEye(b, x, b.toPlay))
  {
    moves, after := FilterEmptyPoints(b, b.toPlay, eyeFilter);
    forall x ensures x in moves <==>
      IsInterior(b.size, x) && IsLegalOriginal(b, x, b.toPlay) && !(eyeFilter && IsEye(b, x, b.toPlay))
    {
      KeepMembers(b, EmptyPoints(b), b.toPlay, eyeFilter, x);
      if IsInterior(b.size, x) && At(b, x) == Empty {
        IsLegalMatchesOriginal(b, x, b.toPlay);
      }
    }
  }

  /** The moves of `ps` that are eyes of `c` (`eye == true`) or are not, in their order. */
  function EyeSplit(b: Board, ps: seq<int>, c: Color, eye: bool): (r: seq<int>)
    ensures |r| <= |ps|
  {
    if ps == [] then []
    else
      var last := ps[|ps| - 1];
      EyeSplit(b, ps[..|ps| - 1], c, eye) + (if IsEye(b, last, c) == eye then [last] else [])
  }

  /** A move is in a half exactly when it is in `ps` and is (or is not) an eye. */
  lemma {:induction false} EyeSplitMembers(b: Board, ps: seq<int>, c: Color, eye: bool, x: int)
    ensures x in EyeSplit(b, ps, c, eye) <==> x in ps && IsEye(b, x, c) == eye
  {
    if ps != [] {
      var init := ps[..|ps| - 1];
      assert forall y :: y in ps <==> y in init || y == ps[|ps| - 1];
      EyeSplitMembers(b, init, c, eye, x);
    }
  }

  /** The two halves of the split hold the moves of `ps` between them, counted with multiplicity. */
  lemma {:induction false} EyeSplitMultiset(b: Board, ps: seq<int>, c: Color)
    ensures multiset(EyeSplit(b, ps, c, false)) + multiset(EyeSplit(b, ps, c, true)) == multiset(ps)
  {
    if ps != [] {
      var init := ps[..|ps| - 1];
      var last := ps[|ps| - 1];
      EyeSplitMultiset(b, init, c);
      assert ps == init + [last];
      if IsEye(b, last, c) {
        assert EyeSplit(b, ps, c, false) == EyeSplit(b, init, c, false);
        assert EyeSplit(b, ps, c, true) == EyeSplit(b, init, c, true) + [last];
      } else {
        assert EyeSplit(b, ps, c, false) == EyeSplit(b, init, c, false) + [last];
        assert EyeSplit(b, ps, c, true) == EyeSplit(b, init, c, true);
      }
    }
  }

  /** Splitting one more move of a list. */
  lemma EyeSplitSnoc(b: Board, ps: seq<int>, i: nat, c: Color, eye: bool)
    requires i < |ps|
    ensures EyeSplit(b, ps[..i + 1], c, eye) ==
      EyeSplit(b, ps[..i], c, eye) + (if IsEye(b, ps[i], c) == eye then [ps[i]] else [])
  {
    assert ps[..i + 1][..i] == ps[..i];
  }

  lemma {:induction false} RevMultiset<T>(s: seq<T>)
    ensures multiset(Rev(s)) == multiset(s)
  {
    if s != [] {
      RevMultiset(s[1..]);
      assert s == [s[0]] + s[1..];
      RevAppend([s[0]], s[1..]);
      assert Rev([s[0]]) == [s[0]];
    }
  }

  /** The reordering of a list, the non-eye moves reversed in front of the eyes. */
  function Prioritized(b: Board, ps: seq<int>, c: Color): seq<int>
  {
    Rev(EyeSplit(b, ps, c, false)) + EyeSplit(b, ps, c, true)
  }

  /** One more move goes to the front if it is not an eye, to the back if it is. */
  lemma PrioritizedSnoc(b: Board, ps: seq<int>, i: nat, c: Color)
    requires i < |ps|
    ensures Prioritized(b, ps[..i + 1], c) ==
      if IsEye(b, ps[i], c) then Prioritized(b, ps[..i], c) + [ps[i]] else [ps[i]] + Prioritized(b, ps[..i], c)
  {
    var m := ps[i];
    EyeSplitSnoc(b, ps, i, c, false);
    EyeSplitSnoc(b, ps, i, c, true);
    var ne := EyeSplit(b, ps[..i], c, false);
    if !IsEye(b, m, c) {
      RevAppend(ne, [m]);
      assert Rev([m]) == [m];
    }
  }

  /**
   * `prioritize_legal_moves`: a move that is not an eye of `c` goes to the front, an eye to the
   * back.  So the non-eye moves come first, in reverse order, then the eyes in their order.
   */
  method PrioritizeLegalMoves(b: Board, moves: seq<int>, c: Color) returns (r: seq<int>)
    ensures r == Prioritized(b, moves, c)
  {
    r := [];
    var i := 0;
    while i < |moves|
      invariant 0 <= i <= |moves|
      invariant r == Prioritized(b, moves[..i], c)
    {
      var move := moves[i];
      PrioritizedSnoc(b, moves, i, c);
      if !IsEye(b, move, c) {
        r := [move] + r;
      } else {
        r := r + [move];
      }
      i := i + 1;
    }
    assert moves[..i] == moves;
  }

  /**
   * The reordering is a permutation of its input that puts every non-eye move before every
   * eye; the eyes keep their input order and the non-eye moves are reversed.
   */
  lemma PrioritizeSpec(b: Board, moves: seq<int>, c: Color)
    ensures var r := Rev(EyeSplit(b, moves, c, false)) + EyeSplit(b, moves, c, true);
      && multiset(r) == multiset(moves)
      && forall i, j :: 0 <= i < j < |r| && IsEye(b, r[i], c) ==> IsEye(b, r[j], c)
  {
    var front := Rev(EyeSplit(b, moves, c, false));
    var back := EyeSplit(b, moves, c, true);
    var r := front + back;
    EyeSplitMultiset(b, moves, c);
    RevMultiset(EyeSplit(b, moves, c, false));
    forall i | 0 <= i < |front| ensures !IsEye(b, r[i], c) {
      assert r[i] == EyeSplit(b, moves, c, false)[|front| - 1 - i];
      assert r[i] in EyeSplit(b, moves, c, false);
      EyeSplitMembers(b, moves, c, false, r[i]);
    }
    forall j | |front| <= j < |r| ensures IsEye(b, r[j], c) {
      assert r[j] == back[j - |front|] && r[j] in back;
      EyeSplitMembers(b, moves, c, true, r[j]);
    }
  }
}
