/**
 * The two depth-first liberty searches that `is_legal` runs, and their contracts against the
 * reference notions of block and liberty.
 *
 * Both searches walk same-coloured stones through the neighbour table, threading a `visited` set,
 * and stop at the first Empty neighbour.  The second one also stops at a stone already known to
 * belong to a block with a liberty (`libertySet`).
 */
module Liberties {
  import opened Stones
  import opened Geometry
  import opened GoBoard
  import opened Blocks
  import opened SetLemmas

  /** `depth_first_liberty_search_simple`: mark `stone`, then scan its neighbours. */
  function SimpleSearch(b: Board, c: Color, visited: set<int>, stone: int): (r: (bool, set<int>))
    requires Valid(b) && IsInterior(b.size, stone) && stone !in visited
    requires visited <= InteriorSet(b.size)
    ensures visited + {stone} <= r.1 <= InteriorSet(b.size)
    decreases InteriorSet(b.size) - visited, 0
  {
    AddShrinks(InteriorSet(b.size), visited, stone);
    SimpleScan(b, c, visited + {stone}, NonBorderNeighbors(b.size, stone))
  }

  /** The neighbour loop of the simple search: skip visited points, succeed on Empty, recurse on `c`. */
  function SimpleScan(b: Board, c: Color, visited: set<int>, nbs: seq<int>): (r: (bool, set<int>))
    requires Valid(b) && visited <= InteriorSet(b.size)
    requires forall x :: x in nbs ==> IsInterior(b.size, x)
    ensures visited <= r.1 <= InteriorSet(b.size)
    decreases InteriorSet(b.size) - visited, 1, |nbs|
  {
    if nbs == [] then (false, visited)
    else
      var nb := nbs[0];
      if nb in visited then SimpleScan(b, c, visited, nbs[1..])
      else if At(b, nb) == Empty then (true, visited)
      else if At(b, nb) == c then
        var (found, v) := SimpleSearch(b, c, visited, nb);
        if found then (true, v) else SimpleScan(b, c, v, nbs[1..])
      else SimpleScan(b, c, visited, nbs[1..])
  }

  /** `depth_first_liberty_search`: a visited stone yields false; otherwise mark it and scan. */
  function LibertySearch(b: Board, c: Color, visited: set<int>, libertySet: set<int>, stone: int)
    : (r: (bool, set<int>))
    requires Valid(b) && IsInterior(b.size, stone) && visited <= InteriorSet(b.size)
    ensures visited + {stone} <= r.1 <= InteriorSet(b.size)
    decreases InteriorSet(b.size) - visited, 0
  {
    if stone in visited then (false, visited)
    else
      AddShrinks(InteriorSet(b.size), visited, stone);
      LibertyScan(b, c, visited + {stone}, libertySet, NonBorderNeighbors(b.size, stone))
  }

  /** The neighbour loop: succeed on Empty or on a stone of `libertySet`, recurse on other `c` stones. */
  function LibertyScan(b: Board, c: Color, visited: set<int>, libertySet: set<int>, nbs: seq<int>)
    : (r: (bool, set<int>))
    requires Valid(b) && visited <= InteriorSet(b.size)
    requires forall x :: x in nbs ==> IsInterior(b.size, x)
    ensures visited <= r.1 <= InteriorSet(b.size)
    decreases InteriorSet(b.size) - visited, 1, |nbs|
  {
    if nbs == [] then (false, visited)
    else
      var nb := nbs[0];
      if At(b, nb) == Empty then (true, visited)
      else if At(b, nb) == c then
        if nb in libertySet then (true, visited)
        else
          var (found, v) := LibertySearch(b, c, visited, libertySet, nb);
          if found then (true, v) else LibertyScan(b, c, v, libertySet, nbs[1..])
      else LibertyScan(b, c, visited, libertySet, nbs[1..])
  }

  /** `q` has no Empty neighbour and all its `c`-neighbours are in `v`. */
  predicate Done(b: Board, c: Stone, q: int, v: set<int>)
  {
    forall d :: 0 <= d < 4 ==>
      At(b, Nbr(b.size, q, d)) != Empty && (At(b, Nbr(b.size, q, d)) == c ==> Nbr(b.size, q, d) in v)
  }

  /** Every stone of `libertySet` is a `c` stone whose block has a liberty. */
  predicate LibertySetOk(b: Board, c: Stone, libertySet: set<int>)
  {
    forall x :: x in libertySet ==>
      Valid(b) && IsInterior(b.size, x) && At(b, x) == c && HasLiberty(b, Component(b, x))
  }

  lemma NbrInTable(n: nat, p: int, d: nat)
    requires d < 4 && IsInterior(n, Nbr(n, p, d))
    ensures Nbr(n, p, d) in NonBorderNeighbors(n, p)
  {
    assert Neighbors(n, p)[d] == Nbr(n, p, d);
  }

  lemma TableNbr(n: nat, p: int, x: int)
    requires x in NonBorderNeighbors(n, p)
    ensures IsInterior(n, x) && exists d :: 0 <= d < 4 && x == Nbr(n, p, d)
  {
    NeighborsDirections(n, p, x);
  }

  /** Having scanned every table neighbour of `q`, `q` is done. */
  lemma DoneFromTable(b: Board, c: Color, q: int, v: set<int>)
    requires Valid(b)
    requires forall x :: x in NonBorderNeighbors(b.size, q) ==>
      At(b, x) != Empty && (At(b, x) == c ==> x in v)
    ensures Done(b, c, q, v)
  {
    forall d | 0 <= d < 4
      ensures At(b, Nbr(b.size, q, d)) != Empty && (At(b, Nbr(b.size, q, d)) == c ==> Nbr(b.size, q, d) in v)
    {
      AtInterior(b, Nbr(b.size, q, d));
      if IsInterior(b.size, Nbr(b.size, q, d)) {
        NbrInTable(b.size, q, d);
      }
    }
  }

  /** A table neighbour of a block member that holds the block's colour is in the block. */
  lemma TableStep(b: Board, a: int, owner: int, x: int)
    requires Valid(b) && IsInterior(b.size, a) && owner in Component(b, a)
    requires x in NonBorderNeighbors(b.size, owner)
    ensures At(b, x) == At(b, a) ==> x in Component(b, a)
    ensures At(b, x) == Empty ==> HasLiberty(b, Component(b, a))
  {
    TableNbr(b.size, owner, x);
    var d :| 0 <= d < 4 && x == Nbr(b.size, owner, d);
    if At(b, x) == At(b, a) {
      ComponentStep(b, a, owner, d);
    }
    if At(b, x) == Empty {
      assert HasEmptyNeighbor(b, owner);
    }
  }

  /**
   * What a search from a stone of the block of `a` guarantees: it visits only stones of that
   * block, it reports a liberty only when the block has one, and when it reports none every
   * stone it newly visited is done.
   */
  predicate SearchOk(b: Board, c: Color, a: int, visited: set<int>, r: (bool, set<int>))
    requires Valid(b) && IsInterior(b.size, a)
  {
    && AllOf(b, r.1, c)
    && (forall q :: q in r.1 && q !in visited ==> q in Component(b, a))
    && (r.0 ==> HasLiberty(b, Component(b, a)))
    && (!r.0 ==> forall q :: q in r.1 && q !in visited ==> Done(b, c, q, r.1))
  }

  /** A neighbour scan additionally leaves every scanned neighbour non-Empty and, if `c`, visited. */
  predicate ScanOk(b: Board, c: Color, a: int, visited: set<int>, nbs: seq<int>, r: (bool, set<int>))
    requires Valid(b) && IsInterior(b.size, a)
  {
    && SearchOk(b, c, a, visited, r)
    && (!r.0 ==> forall x :: x in nbs ==> At(b, x) != Empty && (At(b, x) == c ==> x in r.1))
  }

  /**
   * A failed search from the first neighbour followed by a scan of the rest makes a scan of all
   * the neighbours: what either part visited is in the block, and what either left done stays done.
   */
  lemma ScanAfterSearch(b: Board, c: Color, a: int, visited: set<int>, nbs: seq<int>, r: (bool, set<int>), r2: (bool, set<int>))
    requires Valid(b) && IsInterior(b.size, a)
    requires nbs != [] && At(b, nbs[0]) == c && nbs[0] in r.1
    requires !r.0 && visited <= r.1 <= r2.1
    requires SearchOk(b, c, a, visited, r) && ScanOk(b, c, a, r.1, nbs[1..], r2)
    ensures ScanOk(b, c, a, visited, nbs, r2)
  {
    if !r2.0 {
      forall q | q in r2.1 && q !in visited ensures Done(b, c, q, r2.1) {
        if q in r.1 {
          DoneGrows(b, c, q, r.1, r2.1);
        }
      }
      assert forall x :: x in nbs ==> x == nbs[0] || x in nbs[1..];
    }
  }

  lemma DoneGrows(b: Board, c: Stone, q: int, v: set<int>, w: set<int>)
    requires Done(b, c, q, v) && v <= w
    ensures Done(b, c, q, w)
  {
  }

  /**
   * The simple search from `stone` (a member of the block of `a`) only visits the block, finds
   * a liberty of the block when it says so, and otherwise leaves every newly visited stone done.
   */
  lemma {:induction false} SimpleSearchCorrect(b: Board, c: Color, visited: set<int>, stone: int, a: int)
    requires Valid(b) && IsInterior(b.size, a) && At(b, a) == c
    requires visited <= InteriorSet(b.size) && AllOf(b, visited, c)
    requires stone in Component(b, a) && stone !in visited
    ensures IsInterior(b.size, stone)
    ensures SearchOk(b, c, a, visited, SimpleSearch(b, c, visited, stone))
    decreases InteriorSet(b.size) - visited, 0, 0
  {
    ComponentSpec(b, a);
    AddShrinks(InteriorSet(b.size), visited, stone);
    var nbs := NonBorderNeighbors(b.size, stone);
    SimpleScanCorrect(b, c, visited + {stone}, nbs, stone, a);
    var r := SimpleSearch(b, c, visited, stone);
    if !r.0 {
      DoneFromTable(b, c, stone, r.1);
    }
  }

  lemma {:induction false} SimpleScanCorrect(b: Board, c: Color, visited: set<int>, nbs: seq<int>, owner: int, a: int)
    requires Valid(b) && IsInterior(b.size, a) && At(b, a) == c
    requires visited <= InteriorSet(b.size) && AllOf(b, visited, c)
    requires owner in Component(b, a)
    requires forall x :: x in nbs ==> x in NonBorderNeighbors(b.size, owner)
    ensures forall x :: x in nbs ==> IsInterior(b.size, x)
    ensures ScanOk(b, c, a, visited, nbs, SimpleScan(b, c, visited, nbs))
    decreases InteriorSet(b.size) - visited, 1, |nbs|, 1
  {
    forall x | x in nbs ensures IsInterior(b.size, x) {
      TableNbr(b.size, owner, x);
    }
    if nbs != [] {
      var nb := nbs[0];
      var rest := nbs[1..];
      assert forall x :: x in rest ==> x in nbs;
      TableStep(b, a, owner, nb);
      if nb in visited {
        SimpleScanCorrect(b, c, visited, rest, owner, a);
      } else if At(b, nb) == Empty {
      } else if At(b, nb) == c {
        SimpleScanDescend(b, c, visited, nbs, owner, a);
      } else {
        SimpleScanCorrect(b, c, visited, rest, owner, a);
      }
    }
  }

  /** The scan step that descends into an unvisited `c` neighbour. */
  lemma {:induction false} SimpleScanDescend(b: Board, c: Color, visited: set<int>, nbs: seq<int>, owner: int, a: int)
    requires Valid(b) && IsInterior(b.size, a) && At(b, a) == c
    requires visited <= InteriorSet(b.size) && AllOf(b, visited, c)
    requires owner in Component(b, a)
    requires forall x :: x in nbs ==> x in NonBorderNeighbors(b.size, owner) && IsInterior(b.size, x)
    requires nbs != [] && nbs[0] !in visited && At(b, nbs[0]) == c && nbs[0] in Component(b, a)
    ensures ScanOk(b, c, a, visited, nbs, SimpleScan(b, c, visited, nbs))
    decreases InteriorSet(b.size) - visited, 1, |nbs|, 0
  {
    var nb, rest := nbs[0], nbs[1..];
    assert forall x :: x in rest ==> x in nbs;
    SimpleSearchCorrect(b, c, visited, nb, a);
    var r := SimpleSearch(b, c, visited, nb);
    if !r.0 {
      SimpleScanCorrect(b, c, r.1, rest, owner, a);
      ScanAfterSearch(b, c, a, visited, nbs, r, SimpleScan(b, c, r.1, rest));
    }
  }

  /** Top-level use in `is_legal`: from an empty visited set the simple search decides the block's liberty. */
  lemma SimpleSearchDecides(b: Board, c: Color, stone: int)
    requires Valid(b) && IsInterior(b.size, stone) && At(b, stone) == c
    ensures SimpleSearch(b, c, {}, stone).0 <==> HasLiberty(b, Component(b, stone))
    ensures !SimpleSearch(b, c, {}, stone).0 ==> Component(b, stone) <= SimpleSearch(b, c, {}, stone).1
  {
    ComponentSpec(b, stone);
    SimpleSearchCorrect(b, c, {}, stone, stone);
    var r := SimpleSearch(b, c, {}, stone);
    if !r.0 {
      ClosedWhenDone(b, c, r.1);
      ComponentMinimal(b, stone, r.1);
      NoLibertyWhenDone(b, c, Component(b, stone), r.1);
    }
  }

  /** A set all of whose members are done is closed under `c`-adjacency. */
  lemma ClosedWhenDone(b: Board, c: Stone, v: set<int>)
    requires forall q :: q in v ==> Done(b, c, q, v)
    ensures Closed(b, c, v)
  {
  }

  /** No stone of a done set has a liberty, so neither does any part of it. */
  lemma NoLibertyWhenDone(b: Board, c: Stone, block: set<int>, v: set<int>)
    requires block <= v && forall q :: q in v ==> Done(b, c, q, v)
    ensures !HasLiberty(b, block)
  {
    forall q | q in block ensures !HasEmptyNeighbor(b, q) {
      assert Done(b, c, q, v);
    }
  }

  /** The liberty-set search, under the invariant on `libertySet`; same shape as the simple one. */
  lemma {:induction false} LibertySearchCorrect(b: Board, c: Color, visited: set<int>, libertySet: set<int>, stone: int, a: int)
    requires Valid(b) && IsInterior(b.size, a) && At(b, a) == c
    requires visited <= InteriorSet(b.size) && AllOf(b, visited, c)
    requires LibertySetOk(b, c, libertySet)
    requires stone in Component(b, a)
    ensures IsInterior(b.size, stone)
    ensures SearchOk(b, c, a, visited, LibertySearch(b, c, visited, libertySet, stone))
    decreases InteriorSet(b.size) - visited, 0, 0, 1
  {
    ComponentSpec(b, a);
    if stone !in visited {
      LibertySearchFresh(b, c, visited, libertySet, stone, a);
    }
  }

  /** The liberty-set search from a stone not yet visited: mark it and scan its neighbours. */
  lemma {:induction false} LibertySearchFresh(b: Board, c: Color, visited: set<int>, libertySet: set<int>, stone: int, a: int)
    requires Valid(b) && IsInterior(b.size, a) && At(b, a) == c
    requires visited <= InteriorSet(b.size) && AllOf(b, visited, c)
    requires LibertySetOk(b, c, libertySet)
    requires stone in Component(b, a) && IsInterior(b.size, stone) && stone !in visited
    ensures SearchOk(b, c, a, visited, LibertySearch(b, c, visited, libertySet, stone))
    decreases InteriorSet(b.size) - visited, 0, 0, 0
  {
    ComponentSpec(b, a);
    AddShrinks(InteriorSet(b.size), visited, stone);
    var nbs := NonBorderNeighbors(b.size, stone);
    LibertyScanCorrect(b, c, visited + {stone}, libertySet, nbs, stone, a);
    var r := LibertySearch(b, c, visited, libertySet, stone);
    if !r.0 {
      DoneFromTable(b, c, stone, r.1);
    }
  }

  lemma {:induction false} LibertyScanCorrect(b: Board, c: Color, visited: set<int>, libertySet: set<int>, nbs: seq<int>, owner: int, a: int)
    requires Valid(b) && IsInterior(b.size, a) && At(b, a) == c
    requires visited <= InteriorSet(b.size) && AllOf(b, visited, c)
    requires LibertySetOk(b, c, libertySet)
    requires owner in Component(b, a)
    requires forall x :: x in nbs ==> x in NonBorderNeighbors(b.size, owner)
    ensures forall x :: x in nbs ==> IsInterior(b.size, x)
    ensures ScanOk(b, c, a, visited, nbs, LibertyScan(b, c, visited, libertySet, nbs))
    decreases InteriorSet(b.size) - visited, 1, |nbs|, 1
  {
    forall x | x in nbs ensures IsInterior(b.size, x) {
      TableNbr(b.size, owner, x);
    }
    if nbs != [] {
      var nb := nbs[0];
      var rest := nbs[1..];
      assert forall x :: x in rest ==> x in nbs;
      TableStep(b, a, owner, nb);
      if At(b, nb) == Empty {
      } else if At(b, nb) == c {
        if nb in libertySet {
          ComponentSame(b, a, nb);
        } else {
          LibertyScanDescend(b, c, visited, libertySet, nbs, owner, a);
        }
      } else {
        LibertyScanCorrect(b, c, visited, libertySet, rest, owner, a);
      }
    }
  }

  /** The scan step that descends into a `c` neighbour not known to have a liberty. */
  lemma {:induction false} LibertyScanDescend(b: Board, c: Color, visited: set<int>, libertySet: set<int>, nbs: seq<int>, owner: int, a: int)
    requires Valid(b) && IsInterior(b.size, a) && At(b, a) == c
    requires visited <= InteriorSet(b.size) && AllOf(b, visited, c)
    requires LibertySetOk(b, c, libertySet)
    requires owner in Component(b, a)
    requires forall x :: x in nbs ==> x in NonBorderNeighbors(b.size, owner) && IsInterior(b.size, x)
    requires nbs != [] && nbs[0] !in libertySet && At(b, nbs[0]) == c && nbs[0] in Component(b, a)
    ensures ScanOk(b, c, a, visited, nbs, LibertyScan(b, c, visited, libertySet, nbs))
    decreases InteriorSet(b.size) - visited, 1, |nbs|, 0
  {
    var nb, rest := nbs[0], nbs[1..];
    assert forall x :: x in rest ==> x in nbs;
    LibertySearchCorrect(b, c, visited, libertySet, nb, a);
    var r := LibertySearch(b, c, visited, libertySet, nb);
    if !r.0 {
      LibertyScanCorrect(b, c, r.1, libertySet, rest, owner, a);
      ScanAfterSearch(b, c, a, visited, nbs, r, LibertyScan(b, c, r.1, libertySet, rest));
    }
  }

  /**
   * Top-level use in `is_legal`: from an empty visited set the liberty-set search decides the
   * block's liberty; on success everything it visited may join `libertySet`, and on failure
   * it has visited the whole block.
   */
  lemma LibertySearchDecides(b: Board, c: Color, libertySet: set<int>, stone: int)
    requires Valid(b) && IsInterior(b.size, stone) && At(b, stone) == c
    requires LibertySetOk(b, c, libertySet)
    ensures LibertySearch(b, c, {}, libertySet, stone).0 <==> HasLiberty(b, Component(b, stone))
    ensures LibertySearch(b, c, {}, libertySet, stone).0 ==>
      LibertySetOk(b, c, libertySet + LibertySearch(b, c, {}, libertySet, stone).1)
    ensures !LibertySearch(b, c, {}, libertySet, stone).0 ==>
      Component(b, stone) <= LibertySearch(b, c, {}, libertySet, stone).1
  {
    ComponentSpec(b, stone);
    LibertySearchCorrect(b, c, {}, libertySet, stone, stone);
    var r := LibertySearch(b, c, {}, libertySet, stone);
    if r.0 {
      forall q | q in r.1
        ensures IsInterior(b.size, q) && At(b, q) == c && HasLiberty(b, Component(b, q))
      {
        ComponentSame(b, stone, q);
      }
    } else {
      ClosedWhenDone(b, c, r.1);
      ComponentMinimal(b, stone, r.1);
      NoLibertyWhenDone(b, c, Component(b, stone), r.1);
    }
  }
}
