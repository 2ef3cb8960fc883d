/**
 * Blocks and liberties as the reference formulation states them: `connected_component` is a
 * marker-and-stack flood fill over same-coloured orthogonal neighbours, and `_has_liberty` asks
 * whether some stone of a block has an Empty neighbour.
 */
module Blocks {
  import opened Stones
  import opened Geometry
  import opened GoBoard
  import opened SetLemmas

  /** Every member of `s` holds `c`. */
  predicate AllOf(b: Board, s: set<int>, c: Stone)
  {
    forall q :: q in s ==> At(b, q) == c
  }

  /** `s` contains every `c`-coloured orthogonal neighbour of its members. */
  predicate Closed(b: Board, c: Stone, s: set<int>)
  {
    forall q, d :: q in s && 0 <= d < 4 && At(b, Nbr(b.size, q, d)) == c ==> Nbr(b.size, q, d) in s
  }

  /** Some orthogonal neighbour of `q` is Empty. */
  predicate HasEmptyNeighbor(b: Board, q: int)
  {
    exists d :: 0 <= d < 4 && At(b, Nbr(b.size, q, d)) == Empty
  }

  /** `_has_liberty`: some stone of the block has an Empty neighbour. */
  predicate HasLiberty(b: Board, block: set<int>)
  {
    exists q :: q in block && HasEmptyNeighbor(b, q)
  }

  /** Every stone marked and off the stack already has its `c`-neighbours marked. */
  predicate Settled(b: Board, c: Stone, marked: set<int>, stack: seq<int>)
  {
    forall q, d :: q in marked && q !in stack && 0 <= d < 4 && At(b, Nbr(b.size, q, d)) == c ==>
      Nbr(b.size, q, d) in marked
  }

  /** The inner loop of `connected_component`: mark and push each unmarked `c`-neighbour. */
  function PushNeighbors(b: Board, c: Stone, marked: set<int>, stack: seq<int>, nbs: seq<int>)
    : (r: (set<int>, seq<int>))
    requires Valid(b) && c != Border && marked <= InteriorSet(b.size)
    ensures marked <= r.0 <= InteriorSet(b.size)
    ensures r.0 == marked ==> r.1 == stack
    ensures r.0 == marked || InteriorSet(b.size) - r.0 < InteriorSet(b.size) - marked
    ensures forall x :: x in stack ==> x in r.1
    ensures forall x :: x in r.1 ==> x in stack || x in r.0
    ensures forall x :: x in nbs && At(b, x) == c ==> x in r.0
    ensures forall x :: x in r.0 && x !in marked ==> x in nbs && At(b, x) == c && x in r.1
    decreases |nbs|
  {
    if nbs == [] then (marked, stack)
    else
      var nb := nbs[0];
      if At(b, nb) == c && nb !in marked then
        AtInterior(b, nb);
        AddShrinks(InteriorSet(b.size), marked, nb);
        PushNeighbors(b, c, marked + {nb}, stack + [nb], nbs[1..])
      else
        PushNeighbors(b, c, marked, stack, nbs[1..])
  }

  /** The outer loop of `connected_component`: pop a stone and push its unmarked neighbours. */
  function Explore(b: Board, c: Stone, marked: set<int>, stack: seq<int>): (r: set<int>)
    requires Valid(b) && c != Border && marked <= InteriorSet(b.size)
    requires forall x :: x in stack ==> x in marked
    ensures marked <= r <= InteriorSet(b.size)
    decreases InteriorSet(b.size) - marked, |stack|
  {
    if stack == [] then marked
    else
      var p := stack[|stack| - 1];
      var next := PushNeighbors(b, c, marked, stack[..|stack| - 1], Neighbors(b.size, p));
      assert forall x :: x in stack[..|stack| - 1] ==> x in stack;
      Explore(b, c, next.0, next.1)
  }

  /** `connected_component`: the block of `s` (its colour may also be Empty). */
  function Component(b: Board, s: int): set<int>
    requires Valid(b) && IsInterior(b.size, s)
  {
    AtInterior(b, s);
    Explore(b, At(b, s), {s}, [s])
  }

  lemma NeighborsDirections(n: nat, p: int, x: int)
    requires x in Neighbors(n, p)
    ensures exists d :: 0 <= d < 4 && x == Nbr(n, p, d)
  {
    if x == Nbr(n, p, 0) {
    } else if x == Nbr(n, p, 1) {
    } else if x == Nbr(n, p, 2) {
    } else {
      assert x == Nbr(n, p, 3);
    }
  }

  /** The flood fill keeps its colour invariant and settles every stone it pops. */
  lemma {:induction false} ExploreInvariant(b: Board, c: Stone, marked: set<int>, stack: seq<int>)
    requires Valid(b) && c != Border && marked <= InteriorSet(b.size)
    requires forall x :: x in stack ==> x in marked
    requires AllOf(b, marked, c) && Settled(b, c, marked, stack)
    ensures AllOf(b, Explore(b, c, marked, stack), c)
    ensures Closed(b, c, Explore(b, c, marked, stack))
    decreases InteriorSet(b.size) - marked, |stack|
  {
    if stack != [] {
      var p := stack[|stack| - 1];
      var rest := stack[..|stack| - 1];
      var next := PushNeighbors(b, c, marked, rest, Neighbors(b.size, p));
      assert forall x :: x in rest ==> x in stack;
      forall q, d | q in next.0 && q !in next.1 && 0 <= d < 4 && At(b, Nbr(b.size, q, d)) == c
        ensures Nbr(b.size, q, d) in next.0
      {
        if q == p {
          assert Nbr(b.size, p, d) in Neighbors(b.size, p);
        } else {
          assert q in marked && q !in stack;
        }
      }
      ExploreInvariant(b, c, next.0, next.1);
    }
  }

  /** The flood fill never leaves a `c`-closed set that contains everything marked so far. */
  lemma {:induction false} ExploreMinimal(b: Board, c: Stone, marked: set<int>, stack: seq<int>, t: set<int>)
    requires Valid(b) && c != Border && marked <= InteriorSet(b.size)
    requires forall x :: x in stack ==> x in marked
    requires Closed(b, c, t) && marked <= t
    ensures Explore(b, c, marked, stack) <= t
    decreases InteriorSet(b.size) - marked, |stack|
  {
    if stack != [] {
      var p := stack[|stack| - 1];
      var rest := stack[..|stack| - 1];
      var next := PushNeighbors(b, c, marked, rest, Neighbors(b.size, p));
      assert forall x :: x in rest ==> x in stack;
      forall x | x in next.0
        ensures x in t
      {
        if x !in marked {
          NeighborsDirections(b.size, p, x);
        }
      }
      ExploreMinimal(b, c, next.0, next.1, t);
    }
  }

  /**
   * The block of `s` contains `s`, holds only `s`'s colour, is closed under same-coloured
   * adjacency, and lies in the playing area.
   */
  lemma ComponentSpec(b: Board, s: int)
    requires Valid(b) && IsInterior(b.size, s)
    ensures s in Component(b, s) && Component(b, s) <= InteriorSet(b.size)
    ensures AllOf(b, Component(b, s), At(b, s))
    ensures Closed(b, At(b, s), Component(b, s))
  {
    AtInterior(b, s);
    ExploreInvariant(b, At(b, s), {s}, [s]);
  }

  /** The block of `s` is the least same-coloured-closed set containing `s`. */
  lemma ComponentMinimal(b: Board, s: int, t: set<int>)
    requires Valid(b) && IsInterior(b.size, s)
    requires s in t && Closed(b, At(b, s), t)
    ensures Component(b, s) <= t
  {
    AtInterior(b, s);
    ExploreMinimal(b, At(b, s), {s}, [s], t);
  }

  /** Orthogonal adjacency is symmetric: the opposite direction leads back. */
  function Back(d: nat): nat
    requires d < 4
  {
    if d == 0 then 1 else if d == 1 then 0 else if d == 2 then 3 else 2
  }

  lemma BackNbr(n: nat, q: int, d: nat)
    requires d < 4
    ensures Back(d) < 4 && Nbr(n, Nbr(n, q, d), Back(d)) == q
  {
  }

  /** A `c`-neighbour of a member is a member, for a block of colour `c`. */
  lemma ComponentStep(b: Board, s: int, q: int, d: nat)
    requires Valid(b) && IsInterior(b.size, s) && q in Component(b, s) && d < 4
    requires At(b, Nbr(b.size, q, d)) == At(b, s)
    ensures Nbr(b.size, q, d) in Component(b, s)
  {
    ComponentSpec(b, s);
  }

  /** Reachability steps back: if `x` reaches `s`, so does each same-coloured neighbour of `x`. */
  lemma ReachBack(b: Board, s: int, x: int, d: nat)
    requires Valid(b) && IsInterior(b.size, x) && s in Component(b, x) && d < 4
    requires At(b, Nbr(b.size, x, d)) == At(b, x)
    ensures IsInterior(b.size, Nbr(b.size, x, d)) && s in Component(b, Nbr(b.size, x, d))
  {
    var y := Nbr(b.size, x, d);
    AtInterior(b, x);
    AtInterior(b, y);
    BackNbr(b.size, x, d);
    ComponentSpec(b, y);
    assert x in Component(b, y);
    ComponentSpec(b, x);
    ComponentMinimal(b, x, Component(b, y));
  }

  /** The members of the block of `s` from which `s` is reachable. */
  function Reaching(b: Board, s: int): set<int>
    requires Valid(b) && IsInterior(b.size, s)
  {
    set x | x in Component(b, s) && IsInterior(b.size, x) && s in Component(b, x)
  }

  /** `Reaching(b, s)` contains `s` and is closed under same-coloured adjacency. */
  lemma ReachingClosed(b: Board, s: int)
    requires Valid(b) && IsInterior(b.size, s)
    ensures s in Reaching(b, s) && Closed(b, At(b, s), Reaching(b, s))
  {
    ComponentSpec(b, s);
    var t := Reaching(b, s);
    forall x, d | x in t && 0 <= d < 4 && At(b, Nbr(b.size, x, d)) == At(b, s)
      ensures Nbr(b.size, x, d) in t
    {
      ComponentStep(b, s, x, d);
      ReachBack(b, s, x, d);
    }
  }

  /** Blocks partition the stones: every member of a block has that same block. */
  lemma ComponentSame(b: Board, s: int, q: int)
    requires Valid(b) && IsInterior(b.size, s) && q in Component(b, s)
    ensures IsInterior(b.size, q) && At(b, q) == At(b, s)
    ensures Component(b, q) == Component(b, s)
  {
    ComponentSpec(b, s);
    ComponentSpec(b, q);
    ComponentMinimal(b, q, Component(b, s));
    ReachingClosed(b, s);
    ComponentMinimal(b, s, Reaching(b, s));
    assert q in Reaching(b, s);
    ComponentMinimal(b, s, Component(b, q));
  }
}
