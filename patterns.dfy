/**
 * Concrete boards: the 2 x 2 block (a still life) and the three-cell
 * blinker (a period-2 oscillator), under the synchronous generation and
 * under the as-written one.
 */
module Patterns {
  import opened Cells
  import opened Grids
  import opened Generations

  /** `cells` is the `width` x `height` grid whose live cells are exactly those listed in `live`. */
  ghost predicate IsBoard(width: int, height: int, live: seq<Coord>, cells: CellMap)
  {
    WellFormed(width, height, cells) && forall k :: k in cells ==> (cells[k].isAlive <==> k in live)
  }

  /** How many of the listed coordinates are adjacent to `p`. */
  function CountAdjacent(p: Coord, live: seq<Coord>): (r: nat)
    ensures r <= |live|
    decreases |live|
  {
    if live == [] then 0
    else (if Adjacent(p, live[0]) then 1 else 0) + CountAdjacent(p, live[1..])
  }

  lemma {:induction false} CountAdjacentIsSize(p: Coord, live: seq<Coord>)
    requires Distinct(live)
    ensures CountAdjacent(p, live) == |set k | k in live && Adjacent(p, k)|
    decreases |live|
  {
    var s := set k | k in live && Adjacent(p, k);
    if live == [] {
      assert s == {};
    } else {
      var tail := live[1..];
      var rest := set k | k in tail && Adjacent(p, k);
      DistinctTail(live);
      CountAdjacentIsSize(p, tail);
      assert live == [live[0]] + tail;
      if Adjacent(p, live[0]) {
        assert s == {live[0]} + rest;
      } else {
        assert s == rest;
      }
    }
  }

  /**
   * On a board, the live-neighbour count of an in-grid cell is the number
   * of listed live coordinates adjacent to it.
   */
  lemma BoardCount(width: int, height: int, live: seq<Coord>, cells: CellMap, p: Coord)
    requires IsBoard(width, height, live, cells)
    requires Distinct(live)
    requires forall i :: 0 <= i < |live| ==> InBounds(width, height, live[i])
    requires InBounds(width, height, p)
    ensures LiveNeighboursCount(cells[p], cells) == CountAdjacent(p, live)
  {
    LiveCountIsAliveAround(cells[p], cells);
    CountAdjacentIsSize(p, live);
    assert AliveAround(cells, p) == set k | k in live && Adjacent(p, k);
  }

  lemma CountAdjacent3(p: Coord, a: Coord, b: Coord, c: Coord)
    ensures CountAdjacent(p, [a, b, c])
      == (if Adjacent(p, a) then 1 else 0) + (if Adjacent(p, b) then 1 else 0) + (if Adjacent(p, c) then 1 else 0)
  {
    assert [a, b, c][1..] == [b, c];
    assert [b, c][1..] == [c];
    assert [c][1..] == [];
    assert CountAdjacent(p, [c]) == if Adjacent(p, c) then 1 else 0;
    assert CountAdjacent(p, [b, c]) == (if Adjacent(p, b) then 1 else 0) + CountAdjacent(p, [c]);
  }

  lemma CountAdjacent4(p: Coord, a: Coord, b: Coord, c: Coord, d: Coord)
    ensures CountAdjacent(p, [a, b, c, d])
      == (if Adjacent(p, a) then 1 else 0) + CountAdjacent(p, [b, c, d])
  {
    assert [a, b, c, d][1..] == [b, c, d];
  }

  /** The 2 x 2 block in the middle of a 4 x 4 grid. */
  function Block(): seq<Coord>
  {
    [(1, 1), (2, 1), (1, 2), (2, 2)]
  }

  /**
   * On a board the rule reads: a cell is alive next iff three listed live
   * coordinates are adjacent to it, or it is listed and two are.
   */
  lemma BoardSuccessor(width: int, height: int, live: seq<Coord>, cells: CellMap, p: Coord)
    requires IsBoard(width, height, live, cells)
    requires Distinct(live)
    requires forall i :: 0 <= i < |live| ==> InBounds(width, height, live[i])
    requires p in cells
    ensures Successor(cells, p).x == p.0 && Successor(cells, p).y == p.1
    ensures Successor(cells, p).isAlive
      <==> CountAdjacent(p, live) == 3 || (p in live && CountAdjacent(p, live) == 2)
  {
    BoardCount(width, height, live, cells, p);
    NextStateIff(cells[p], CountAdjacent(p, live));
  }

  /** Each cell of the block's grid is its own successor. */
  lemma BlockStillAt(cells: CellMap, p: Coord)
    requires IsBoard(4, 4, Block(), cells)
    requires p in cells
    ensures Successor(cells, p) == cells[p]
  {
    BoardSuccessor(4, 4, Block(), cells, p);
    BlockArithmetic(p);
  }

  /** In the 4 x 4 grid, the block's cells see three of its cells and the others at most two. */
  lemma BlockArithmetic(p: Coord)
    requires InBounds(4, 4, p)
    ensures p in Block() ==> CountAdjacent(p, Block()) == 3
    ensures p !in Block() ==> CountAdjacent(p, Block()) <= 2
  {
    CountAdjacent4(p, (1, 1), (2, 1), (1, 2), (2, 2));
    CountAdjacent3(p, (2, 1), (1, 2), (2, 2));
  }

  /** The block is a still life: the synchronous generation leaves it unchanged. */
  lemma BlockIsStill(cells: CellMap)
    requires IsBoard(4, 4, Block(), cells)
    ensures Step(cells) == cells
  {
    forall p | p in cells ensures Successor(cells, p) == cells[p] {
      BlockStillAt(cells, p);
    }
    StillLifeIsFixedPoint(cells);
  }

  /**
   * Whatever order the cells are visited in, the as-written generation
   * leaves the block unchanged, so it stays unchanged for any number of
   * generations.
   */
  lemma BlockSurvivesSweep(cells: CellMap, order: seq<Coord>)
    requires IsBoard(4, 4, Block(), cells)
    requires IsVisitOrder(order, cells.Keys)
    ensures Sweep(cells, order) == cells
  {
    BlockIsStill(cells);
    SweepFixedPoint(cells, order);
  }

  /** The horizontal blinker on a 5 x 5 grid. */
  function Horizontal(): seq<Coord>
  {
    [(1, 2), (2, 2), (3, 2)]
  }

  /** The vertical blinker on a 5 x 5 grid. */
  function Vertical(): seq<Coord>
  {
    [(2, 1), (2, 2), (2, 3)]
  }

  /** In the 5 x 5 grid the rule turns the horizontal blinker's cells into the vertical one's. */
  lemma HorizontalArithmetic(p: Coord)
    requires InBounds(5, 5, p)
    ensures CountAdjacent(p, Horizontal()) == 3 || (p in Horizontal() && CountAdjacent(p, Horizontal()) == 2)
      <==> p in Vertical()
  {
    CountAdjacent3(p, (1, 2), (2, 2), (3, 2));
  }

  /** In the 5 x 5 grid the rule turns the vertical blinker's cells into the horizontal one's. */
  lemma VerticalArithmetic(p: Coord)
    requires InBounds(5, 5, p)
    ensures CountAdjacent(p, Vertical()) == 3 || (p in Vertical() && CountAdjacent(p, Vertical()) == 2)
      <==> p in Horizontal()
  {
    CountAdjacent3(p, (2, 1), (2, 2), (2, 3));
  }

  /** After one synchronous generation a cell of the horizontal blinker's grid is alive iff it is on the vertical one. */
  lemma HorizontalAt(cells: CellMap, p: Coord)
    requires IsBoard(5, 5, Horizontal(), cells)
    requires p in cells
    ensures Successor(cells, p).isAlive <==> p in Vertical()
  {
    BoardSuccessor(5, 5, Horizontal(), cells, p);
    HorizontalArithmetic(p);
  }

  /** After one synchronous generation a cell of the vertical blinker's grid is alive iff it is on the horizontal one. */
  lemma VerticalAt(cells: CellMap, p: Coord)
    requires IsBoard(5, 5, Vertical(), cells)
    requires p in cells
    ensures Successor(cells, p).isAlive <==> p in Horizontal()
  {
    BoardSuccessor(5, 5, Vertical(), cells, p);
    VerticalArithmetic(p);
  }

  /** Under the synchronous generation the horizontal blinker turns vertical. */
  lemma BlinkerTurns(cells: CellMap)
    requires IsBoard(5, 5, Horizontal(), cells)
    ensures IsBoard(5, 5, Vertical(), Step(cells))
  {
    var next := Step(cells);
    forall p | p in next ensures next[p].isAlive <==> p in Vertical() {
      HorizontalAt(cells, p);
    }
    StepWellFormed(5, 5, cells);
  }

  /** Under the synchronous generation the vertical blinker turns horizontal. */
  lemma BlinkerTurnsBack(cells: CellMap)
    requires IsBoard(5, 5, Vertical(), cells)
    ensures IsBoard(5, 5, Horizontal(), Step(cells))
  {
    var next := Step(cells);
    forall p | p in next ensures next[p].isAlive <==> p in Horizontal() {
      VerticalAt(cells, p);
    }
    StepWellFormed(5, 5, cells);
  }

  /** The blinker has period two under the synchronous generation. */
  lemma BlinkerOscillates(cells: CellMap)
    requires IsBoard(5, 5, Horizontal(), cells)
    ensures Step(Step(cells)) == cells
  {
    BlinkerTurns(cells);
    BlinkerTurnsBack(Step(cells));
    BoardsAgree(5, 5, Horizontal(), Step(Step(cells)), cells);
  }

  /** Two boards of the same size and live cells are the same map. */
  lemma BoardsAgree(width: int, height: int, live: seq<Coord>, a: CellMap, b: CellMap)
    requires IsBoard(width, height, live, a) && IsBoard(width, height, live, b)
    ensures a == b
  {
    forall k | k in a ensures a[k] == b[k] {
      assert a[k].x == b[k].x && a[k].y == b[k].y && a[k].isAlive == b[k].isAlive;
    }
  }

  /** Killing a live cell of a board gives the board of the other live cells. */
  lemma BoardKill(width: int, height: int, live: seq<Coord>, rest: seq<Coord>, cells: CellMap, p: Coord)
    requires IsBoard(width, height, live, cells)
    requires p in cells
    requires forall k :: k in rest <==> k in live && k != p
    ensures IsBoard(width, height, rest, cells[p := cells[p].(isAlive := false)])
  {
  }

  /** Visiting (1, 2) first kills it: the working copy is then the board of the two other cells. */
  lemma FirstVisitKills(cells: CellMap)
    requires IsBoard(5, 5, Horizontal(), cells)
    ensures IsBoard(5, 5, [(2, 2), (3, 2)], cells[(1, 2) := Successor(cells, (1, 2))])
  {
    assert InBounds(5, 5, (1, 2));
    HorizontalAt(cells, (1, 2));
    assert Successor(cells, (1, 2)) == cells[(1, 2)].(isAlive := false);
    var rest: seq<Coord> := [(2, 2), (3, 2)];
    assert forall k :: k in rest <==> k in Horizontal() && k != (1, 2);
    BoardKill(5, 5, Horizontal(), rest, cells, (1, 2));
  }

  /** In that working copy, (2, 1) sees two live neighbours and stays dead. */
  lemma SecondVisitStaysDead(first: CellMap)
    requires IsBoard(5, 5, [(2, 2), (3, 2)], first)
    ensures (2, 1) in first
    ensures !NextState(first[(2, 1)], LiveNeighboursCount(first[(2, 1)], first)).isAlive
  {
    var rest: seq<Coord> := [(2, 2), (3, 2)];
    assert InBounds(5, 5, (2, 1));
    BoardSuccessor(5, 5, rest, first, (2, 1));
    assert rest[1..] == [(3, 2)] && |rest[1..][1..]| == 0;
  }

  /**
   * Once (1, 2) has been updated, (2, 1) counts two live neighbours and
   * stays dead.
   */
  lemma BlinkerSecondVisit(cells: CellMap)
    requires IsBoard(5, 5, Horizontal(), cells)
    ensures (1, 2) in cells && (2, 1) in cells
    ensures !NextState(cells[(2, 1)], LiveNeighboursCount(cells[(2, 1)], cells[(1, 2) := Successor(cells, (1, 2))])).isAlive
  {
    assert InBounds(5, 5, (1, 2)) && InBounds(5, 5, (2, 1));
    var first := cells[(1, 2) := Successor(cells, (1, 2))];
    FirstVisitKills(cells);
    SecondVisitStaysDead(first);
  }

  /**
   * When the HashMap visits (1, 2) and then (2, 1), the second cell counts
   * its neighbours after (1, 2) has died and is not born.
   */
  lemma SweepKillsSecond(cells: CellMap, order: seq<Coord>)
    requires IsBoard(5, 5, Horizontal(), cells)
    requires forall j :: 0 <= j < |order| ==> order[j] in cells
    requires Distinct(order)
    requires |order| >= 2 && order[0] == (1, 2) && order[1] == (2, 1)
    ensures (2, 1) in Sweep(cells, order) && !Sweep(cells, order)[(2, 1)].isAlive
  {
    BlinkerSecondVisit(cells);
    SweepSecond(cells, order);
  }

  /**
   * Under the as-written generation the blinker does not oscillate: for
   * such an order (2, 1) sees two live neighbours instead of three and
   * stays dead, whereas the synchronous generation makes it alive.
   */
  lemma SweepBreaksBlinker(cells: CellMap, order: seq<Coord>)
    requires IsBoard(5, 5, Horizontal(), cells)
    requires IsVisitOrder(order, cells.Keys)
    requires |order| >= 2 && order[0] == (1, 2) && order[1] == (2, 1)
    ensures !Sweep(cells, order)[(2, 1)].isAlive
    ensures Sweep(cells, order) != Step(cells)
  {
    assert forall j :: 0 <= j < |order| ==> order[j] in order;
    SweepKillsSecond(cells, order);
    HorizontalAt(cells, (2, 1));
  }
}
