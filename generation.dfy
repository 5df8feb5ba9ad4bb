/**
 * One generation of the grid.  `Grid::next_state` in src/lib.rs clones the
 * grid into a working copy, then visits the original cells in HashMap order;
 * for each it reads the live-neighbour count from the working copy, which
 * already holds the cells visited before, and writes the new cell into that
 * copy.  `Sweep` is that computation for a given visiting order.  `Step` is
 * the synchronous rule the game is meant to follow, in which every cell
 * sees the previous generation.
 */
module Generations {
  import opened Cells
  import opened Grids

  /** The next state of the cell at `k`, its neighbours counted in `cells`. */
  function Successor(cells: CellMap, k: Coord): (r: Cell)
    requires k in cells
  {
    NextState(cells[k], LiveNeighboursCount(cells[k], cells))
  }

  /** The synchronous generation: every cell's count is read from `cells` itself. */
  function Step(cells: CellMap): (r: CellMap)
    ensures r.Keys == cells.Keys
    ensures forall k :: k in cells ==> r[k].x == cells[k].x && r[k].y == cells[k].y
  {
    map k | k in cells :: Successor(cells, k)
  }

  /**
   * The state of the double-buffered generation part way: `next` holds the
   * successor of every key that is no longer `pending`, and nothing else.
   */
  ghost predicate Collecting(cells: CellMap, next: CellMap, pending: set<Coord>)
  {
    && pending <= cells.Keys
    && next.Keys == cells.Keys - pending
    && forall k :: k in next ==> next[k] == Successor(cells, k)
  }

  /** Collecting one more successor moves its key out of `pending`. */
  lemma CollectStep(cells: CellMap, next: CellMap, pending: set<Coord>, key: Coord)
    requires Collecting(cells, next, pending)
    requires key in pending
    ensures Collecting(cells, next[key := NextState(cells[key], LiveNeighboursCount(cells[key], cells))], pending - {key})
  {
  }

  /** Once nothing is pending, the collected map is the synchronous generation. */
  lemma CollectDone(cells: CellMap, next: CellMap)
    requires Collecting(cells, next, {})
    ensures next == Step(cells)
  {
  }

  /** The synchronous generation keeps the grid's shape. */
  lemma StepWellFormed(width: int, height: int, cells: CellMap)
    requires WellFormed(width, height, cells)
    ensures WellFormed(width, height, Step(cells))
  {
  }

  /** A visiting order lists every key exactly once. */
  ghost predicate IsVisitOrder(order: seq<Coord>, keys: set<Coord>)
  {
    Distinct(order) && forall k :: k in order <==> k in keys
  }

  /**
   * The as-written generation: the keys of `order` are visited one after
   * the other; each visited cell `orig[key]` gets its new state from the
   * count read in the working copy `work`, which holds the cells already
   * visited in their new state.
   */
  function Sweep(orig: CellMap, order: seq<Coord>): (r: CellMap)
    requires forall i :: 0 <= i < |order| ==> order[i] in orig
    ensures r.Keys == orig.Keys
    ensures forall k :: k in orig ==> r[k].x == orig[k].x && r[k].y == orig[k].y
    ensures forall k :: k in orig && k !in order ==> r[k] == orig[k]
    decreases |order|
  {
    if order == [] then orig
    else
      var work := Sweep(orig, order[..|order| - 1]);
      var key := order[|order| - 1];
      assert forall k :: k in order[..|order| - 1] ==> k in order;
      work[key := NextState(orig[key], LiveNeighboursCount(orig[key], work))]
  }

  /** Visiting one more key updates that cell, counted in the working copy so far. */
  lemma SweepSnoc(orig: CellMap, order: seq<Coord>, key: Coord)
    requires forall i :: 0 <= i < |order| ==> order[i] in orig
    requires key in orig
    ensures Sweep(orig, order + [key])
      == Sweep(orig, order)[key := NextState(orig[key], LiveNeighboursCount(orig[key], Sweep(orig, order)))]
  {
    assert (order + [key])[..|order|] == order;
  }

  /**
   * The state of `Grid::next_state` part way: `order` lists the keys visited
   * so far, `pending` the ones left, and `work` is the working copy.
   */
  ghost predicate Visiting(orig: CellMap, work: CellMap, pending: set<Coord>, order: seq<Coord>)
  {
    && pending <= orig.Keys
    && (forall i :: 0 <= i < |order| ==> order[i] in orig)
    && (forall k :: k in order <==> k in orig && k !in pending)
    && Distinct(order)
    && work == Sweep(orig, order)
  }

  /** Before the first visit, every key is pending and the working copy is the grid. */
  lemma VisitStart(orig: CellMap)
    ensures Visiting(orig, orig, orig.Keys, [])
  {
  }

  /** Visiting one pending key moves it from `pending` to the end of `order`. */
  lemma VisitStep(orig: CellMap, work: CellMap, pending: set<Coord>, order: seq<Coord>, key: Coord)
    requires Visiting(orig, work, pending, order)
    requires key in pending
    ensures Visiting(orig, work[key := NextState(orig[key], LiveNeighboursCount(orig[key], work))], pending - {key}, order + [key])
  {
    SweepSnoc(orig, order, key);
    DistinctSnoc(order, key);
  }

  /** Once nothing is pending, every key has been visited once and `work` is the sweep. */
  lemma VisitDone(orig: CellMap, work: CellMap, order: seq<Coord>)
    requires Visiting(orig, work, {}, order)
    ensures IsVisitOrder(order, orig.Keys)
    ensures work == Sweep(orig, order)
  {
  }

  /** Visiting a single key updates that cell alone, counted in the unchanged grid. */
  lemma SweepOne(orig: CellMap, key: Coord)
    requires key in orig
    ensures Sweep(orig, [key]) == orig[key := Successor(orig, key)]
  {
    assert [key][..0] == [];
  }

  /**
   * The second visited cell counts its neighbours in the grid where only
   * the first visited cell has been updated.
   */
  lemma SweepSecond(orig: CellMap, order: seq<Coord>)
    requires forall j :: 0 <= j < |order| ==> order[j] in orig
    requires Distinct(order)
    requires |order| >= 2
    ensures Sweep(orig, order)[order[1]]
      == NextState(orig[order[1]], LiveNeighboursCount(orig[order[1]], orig[order[0] := Successor(orig, order[0])]))
  {
    assert order[..1] == [order[0]];
    SweepOne(orig, order[0]);
    SweepVisited(orig, order, 1);
  }

  /** The as-written generation keeps the grid's shape, whatever the order. */
  lemma SweepWellFormed(width: int, height: int, orig: CellMap, order: seq<Coord>)
    requires WellFormed(width, height, orig)
    requires forall i :: 0 <= i < |order| ==> order[i] in orig
    ensures WellFormed(width, height, Sweep(orig, order))
  {
  }

  /**
   * The `i`-th visited cell ends up as `Cell::next_state` of its old state,
   * with the count read from the working copy as it stood when the cell was
   * visited, that is, after the first `i` keys of the order were updated.
   */
  lemma {:induction false} SweepVisited(orig: CellMap, order: seq<Coord>, i: nat)
    requires forall j :: 0 <= j < |order| ==> order[j] in orig
    requires Distinct(order)
    requires i < |order|
    ensures Sweep(orig, order)[order[i]]
      == NextState(orig[order[i]], LiveNeighboursCount(orig[order[i]], Sweep(orig, order[..i])))
    decreases |order|
  {
    var prefix := order[..|order| - 1];
    if i < |order| - 1 {
      assert Distinct(prefix);
      assert order[i] != order[|order| - 1];
      assert prefix[..i] == order[..i];
      SweepVisited(orig, prefix, i);
    } else {
      assert order[..i] == prefix;
    }
  }

  /** For every order, a grid without live cells stays without live cells. */
  lemma {:induction false} SweepAllDead(orig: CellMap, order: seq<Coord>)
    requires forall j :: 0 <= j < |order| ==> order[j] in orig
    requires AllDead(orig)
    ensures AllDead(Sweep(orig, order))
    decreases |order|
  {
    if order != [] {
      var prefix := order[..|order| - 1];
      SweepAllDead(orig, prefix);
      var key := order[|order| - 1];
      AllDeadCountsZero(Sweep(orig, prefix), orig[key]);
    }
  }

  /** Every cell of `cells` is its own successor under the rule, counted in `cells`. */
  ghost predicate StillLife(cells: CellMap)
  {
    forall k {:trigger Successor(cells, k)} :: k in cells ==> Successor(cells, k) == cells[k]
  }

  /** Being a still life is being a fixed point of the synchronous generation. */
  lemma StillLifeIsFixedPoint(cells: CellMap)
    ensures StillLife(cells) <==> Step(cells) == cells
  {
    if Step(cells) == cells {
      forall k | k in cells
        ensures Successor(cells, k) == cells[k]
      {
        assert Step(cells)[k] == cells[k];
      }
    }
  }

  lemma {:induction false} SweepStillLife(orig: CellMap, order: seq<Coord>)
    requires forall j :: 0 <= j < |order| ==> order[j] in orig
    requires StillLife(orig)
    ensures Sweep(orig, order) == orig
    decreases |order|
  {
    if order != [] {
      var prefix := order[..|order| - 1];
      SweepStillLife(orig, prefix);
      var work := Sweep(orig, prefix);
      var key := order[|order| - 1];
      assert Successor(orig, key) == orig[key];
      assert Sweep(orig, order) == work[key := Successor(orig, key)];
    }
  }

  /**
   * For every order, a grid that the synchronous rule leaves unchanged is
   * left unchanged by the as-written generation too.
   */
  lemma SweepFixedPoint(orig: CellMap, order: seq<Coord>)
    requires forall j :: 0 <= j < |order| ==> order[j] in orig
    requires Step(orig) == orig
    ensures Sweep(orig, order) == orig
  {
    StillLifeIsFixedPoint(orig);
    SweepStillLife(orig, order);
  }

  /** The synchronous rule leaves a grid without live cells without live cells. */
  lemma StepAllDead(cells: CellMap)
    requires AllDead(cells)
    ensures Step(cells) == cells
  {
    forall k | k in cells ensures Step(cells)[k] == cells[k] {
      AllDeadCountsZero(cells, cells[k]);
    }
  }
}
