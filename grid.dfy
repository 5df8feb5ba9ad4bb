/**
 * The read-only part of the grid of src/lib.rs: its shape invariant, cell
 * lookup, the Moore neighbourhood and the live-neighbour count.  A grid's
 * cells are a map from `(x, y)` to `Cell`; the functions here that take
 * `&Grid` in the source take that map, since lookup reads nothing else.
 */
module Grids {
  import opened Wrappers
  import opened Cells

  type Coord = (int, int)
  type CellMap = map<Coord, Cell>

  /** `(x, y)` lies in `[0, width) x [0, height)`. */
  predicate InBounds(width: int, height: int, k: Coord)
  {
    0 <= k.0 < width && 0 <= k.1 < height
  }

  /**
   * The shape invariant of a grid: the keys are exactly the rectangle, and
   * every cell stores its own key as its coordinate.
   */
  ghost predicate WellFormed(width: int, height: int, cells: CellMap)
  {
    && (forall k :: k in cells <==> InBounds(width, height, k))
    && (forall k :: k in cells ==> cells[k].x == k.0 && cells[k].y == k.1)
  }

  ghost predicate AllDead(cells: CellMap)
  {
    forall k :: k in cells ==> !cells[k].isAlive
  }

  /** The set of coordinates of the rectangle, row by row. */
  ghost function Rectangle(width: nat, height: nat): set<Coord>
  {
    set x, y | 0 <= x < width && 0 <= y < height :: (x, y)
  }

  ghost function RowKeys(width: nat, y: int): set<Coord>
  {
    set x | 0 <= x < width :: (x, y)
  }

  lemma {:induction false} RowKeysSize(width: nat, y: int)
    ensures |RowKeys(width, y)| == width
  {
    if width > 0 {
      RowKeysSize(width - 1, y);
      assert RowKeys(width, y) == RowKeys(width - 1, y) + {(width - 1, y)};
    } else {
      assert RowKeys(width, y) == {};
    }
  }

  lemma {:induction false} RectangleSize(width: nat, height: nat)
    ensures |Rectangle(width, height)| == width * height
  {
    if height > 0 {
      var prev, row := Rectangle(width, height - 1), RowKeys(width, height - 1);
      RectangleSize(width, height - 1);
      RowKeysSize(width, height - 1);
      assert Rectangle(width, height) == prev + row by {
        forall k | k in Rectangle(width, height) ensures k in prev + row {
          var (x, y) := k;
          if y < height - 1 { assert (x, y) in prev; } else { assert (x, y) in row; }
        }
        forall k | k in prev + row ensures k in Rectangle(width, height) {
          var (x, y) := k;
          assert 0 <= x < width && 0 <= y < height;
        }
      }
      assert prev !! row;
      assert width * height == width * (height - 1) + width;
    } else {
      assert Rectangle(width, height) == {};
    }
  }

  /**
   * A well-formed grid has exactly `width * height` entries, and none at
   * all when either side is not positive.
   */
  lemma GridSize(width: int, height: int, cells: CellMap)
    requires WellFormed(width, height, cells)
    ensures |cells| == if width > 0 && height > 0 then width * height else 0
  {
    if width > 0 && height > 0 {
      assert cells.Keys == Rectangle(width, height) by {
        forall k | k in cells ensures k in Rectangle(width, height) {
          var (x, y) := k;
          assert InBounds(width, height, (x, y));
        }
      }
      RectangleSize(width, height);
    } else {
      assert cells.Keys == {};
    }
  }

  /** A 10 x 10 grid has exactly 100 cells. */
  lemma TenByTenHasHundredCells(cells: CellMap)
    requires WellFormed(10, 10, cells)
    ensures |cells| == 100
  {
    GridSize(10, 10, cells);
  }

  /** `Grid::cell`: the cell stored at `(x, y)`, if there is one. */
  function Lookup(cells: CellMap, x: int, y: int): (r: Option<Cell>)
    ensures r.Some? <==> (x, y) in cells
    ensures r.Some? ==> r.value == cells[(x, y)]
  {
    if (x, y) in cells then Some(cells[(x, y)]) else None
  }

  /** On a well-formed grid, lookup succeeds exactly inside the rectangle and returns the cell at that coordinate. */
  lemma LookupInGrid(width: int, height: int, cells: CellMap, x: int, y: int)
    requires WellFormed(width, height, cells)
    ensures Lookup(cells, x, y).Some? <==> InBounds(width, height, (x, y))
    ensures Lookup(cells, x, y).Some? ==> Lookup(cells, x, y).value.x == x && Lookup(cells, x, y).value.y == y
  {
  }

  /** `q` is one of the eight cells around `p`. */
  predicate Adjacent(p: Coord, q: Coord)
  {
    p != q && -1 <= q.0 - p.0 <= 1 && -1 <= q.1 - p.1 <= 1
  }

  /** The eight Moore offsets around `(x, y)`, in the order the source lists them. */
  function Offsets(x: int, y: int): seq<Coord>
  {
    [ (x - 1, y - 1), (x, y - 1), (x + 1, y - 1),
      (x - 1, y), (x + 1, y),
      (x - 1, y + 1), (x, y + 1), (x + 1, y + 1) ]
  }

  ghost predicate Distinct(ks: seq<Coord>)
  {
    forall i, j :: 0 <= i < j < |ks| ==> ks[i] != ks[j]
  }

  /** The offsets are eight distinct coordinates, and they are exactly the adjacent ones. */
  lemma OffsetsAreMoore(x: int, y: int)
    ensures |Offsets(x, y)| == 8
    ensures Distinct(Offsets(x, y))
    ensures forall k :: k in Offsets(x, y) <==> Adjacent((x, y), k)
  {
    var os := Offsets(x, y);
    forall k | Adjacent((x, y), k) ensures k in os {
      var (a, b) := k;
      if a == x - 1 {
        if b == y - 1 { assert k == os[0]; } else if b == y { assert k == os[3]; } else { assert k == os[5]; }
      } else if a == x {
        if b == y - 1 { assert k == os[1]; } else { assert k == os[6]; }
      } else {
        if b == y - 1 { assert k == os[2]; } else if b == y { assert k == os[4]; } else { assert k == os[7]; }
      }
    }
  }

  /**
   * The `filter_map` of `Cell::neighbours`: the cells stored at the given
   * coordinates, skipping the ones that are not in the map, in order.
   */
  function Present(ks: seq<Coord>, cells: CellMap): (r: seq<Cell>)
    ensures |r| <= |ks|
    decreases |ks|
  {
    if ks == [] then []
    else (if ks[0] in cells then [cells[ks[0]]] else []) + Present(ks[1..], cells)
  }

  /** Every cell kept comes from a listed key, and every listed key in the map is kept. */
  lemma {:induction false} PresentSpec(ks: seq<Coord>, cells: CellMap)
    ensures forall c :: c in Present(ks, cells) ==> exists j :: 0 <= j < |ks| && ks[j] in cells && cells[ks[j]] == c
    ensures forall j :: 0 <= j < |ks| && ks[j] in cells ==> cells[ks[j]] in Present(ks, cells)
    decreases |ks|
  {
    if ks != [] {
      PresentSpec(ks[1..], cells);
      assert forall j :: 1 <= j < |ks| ==> ks[j] == ks[1..][j - 1];
    }
  }

  /** `Cell::neighbours`: the stored cells around the coordinate `c` records, at most eight. */
  function Neighbours(c: Cell, cells: CellMap): (r: seq<Cell>)
    ensures |r| <= 8
  {
    Present(Offsets(c.x, c.y), cells)
  }

  /**
   * Each neighbour of `c` is stored at a key adjacent to the coordinate `c`
   * records, and every stored cell at such a key is a neighbour.
   */
  lemma NeighboursAreAdjacent(c: Cell, cells: CellMap)
    ensures forall n :: n in Neighbours(c, cells) ==> exists k :: k in cells && Adjacent((c.x, c.y), k) && cells[k] == n
    ensures forall k :: k in cells && Adjacent((c.x, c.y), k) ==> cells[k] in Neighbours(c, cells)
  {
    OffsetsAreMoore(c.x, c.y);
    PresentSpec(Offsets(c.x, c.y), cells);
  }

  /** The number of alive cells in a sequence (`filter(is_alive).len()`). */
  function CountAlive(s: seq<Cell>): (r: nat)
    ensures r <= |s|
    ensures r == 0 <==> forall i :: 0 <= i < |s| ==> !s[i].isAlive
    decreases |s|
  {
    if s == [] then 0
    else
      assert forall i :: 1 <= i < |s| ==> s[i] == s[1..][i - 1];
      (if s[0].isAlive then 1 else 0) + CountAlive(s[1..])
  }

  lemma {:induction false} CountAliveAppend(a: seq<Cell>, b: seq<Cell>)
    ensures CountAlive(a + b) == CountAlive(a) + CountAlive(b)
    decreases |a|
  {
    if a != [] {
      assert (a + b)[1..] == a[1..] + b;
      CountAliveAppend(a[1..], b);
    } else {
      assert a + b == b;
    }
  }

  /**
   * `Cell::live_neighbours_count`: how many of the neighbours are alive,
   * at most as many as there are neighbours, so at most 8.
   */
  function LiveNeighboursCount(c: Cell, cells: CellMap): (r: nat)
    ensures r <= |Neighbours(c, cells)| <= 8
  {
    CountAlive(Neighbours(c, cells))
  }

  /** The live-neighbour count is 0 exactly when no stored adjacent cell is alive. */
  lemma LiveCountZero(c: Cell, cells: CellMap)
    ensures LiveNeighboursCount(c, cells) == 0
      <==> forall k :: k in cells && Adjacent((c.x, c.y), k) ==> !cells[k].isAlive
  {
    NoneAliveAround(c, cells);
  }

  /** No neighbour in the sequence is alive iff no stored adjacent cell is alive. */
  lemma NoneAliveAround(c: Cell, cells: CellMap)
    ensures (forall i :: 0 <= i < |Neighbours(c, cells)| ==> !Neighbours(c, cells)[i].isAlive)
        <==> (forall k :: k in cells && Adjacent((c.x, c.y), k) ==> !cells[k].isAlive)
  {
    var ns := Neighbours(c, cells);
    NeighboursAreAdjacent(c, cells);
    if forall i :: 0 <= i < |ns| ==> !ns[i].isAlive {
      forall k | k in cells && Adjacent((c.x, c.y), k) ensures !cells[k].isAlive {
        var i :| 0 <= i < |ns| && ns[i] == cells[k];
      }
    }
    if forall k :: k in cells && Adjacent((c.x, c.y), k) ==> !cells[k].isAlive {
      forall i | 0 <= i < |ns| ensures !ns[i].isAlive {
        assert ns[i] in ns;
      }
    }
  }

  /** The alive cells stored at keys adjacent to `p`. */
  ghost function AliveAround(cells: CellMap, p: Coord): set<Coord>
  {
    set k | k in cells && Adjacent(p, k) && cells[k].isAlive
  }

  /** The tail of a list of distinct keys is distinct and does not hold the head. */
  lemma DistinctTail(ks: seq<Coord>)
    requires Distinct(ks) && |ks| > 0
    ensures Distinct(ks[1..]) && ks[0] !in ks[1..]
  {
    var tail := ks[1..];
    forall i, j | 0 <= i < j < |tail| ensures tail[i] != tail[j] {
      assert tail[i] == ks[i + 1] && tail[j] == ks[j + 1];
    }
    forall j | 0 <= j < |tail| ensures tail[j] != ks[0] {
      assert tail[j] == ks[j + 1];
    }
  }

  /** Appending a key that is not yet listed keeps the list distinct. */
  lemma DistinctSnoc(ks: seq<Coord>, k: Coord)
    requires Distinct(ks) && k !in ks
    ensures Distinct(ks + [k])
  {
  }

  /** The live keys of a list, among those stored in `cells`. */
  ghost function LiveKeys(ks: seq<Coord>, cells: CellMap): set<Coord>
  {
    set k | k in ks && k in cells && cells[k].isAlive
  }

  /** Peeling off the first key peels off at most that key from the live keys. */
  lemma LiveKeysCons(ks: seq<Coord>, cells: CellMap)
    requires |ks| > 0
    ensures ks[0] in cells && cells[ks[0]].isAlive ==> LiveKeys(ks, cells) == {ks[0]} + LiveKeys(ks[1..], cells)
    ensures !(ks[0] in cells && cells[ks[0]].isAlive) ==> LiveKeys(ks, cells) == LiveKeys(ks[1..], cells)
  {
    assert ks == [ks[0]] + ks[1..];
  }

  lemma {:induction false} CountPresent(ks: seq<Coord>, cells: CellMap)
    requires Distinct(ks)
    ensures CountAlive(Present(ks, cells)) == |LiveKeys(ks, cells)|
    decreases |ks|
  {
    if ks == [] {
      assert LiveKeys(ks, cells) == {};
    } else {
      DistinctTail(ks);
      CountPresent(ks[1..], cells);
      var head := if ks[0] in cells then [cells[ks[0]]] else [];
      CountAliveAppend(head, Present(ks[1..], cells));
      LiveKeysCons(ks, cells);
    }
  }

  /**
   * The live-neighbour count is the number of alive cells stored at the keys
   * adjacent to the cell's coordinate: every neighbour is counted once.
   */
  lemma LiveCountIsAliveAround(c: Cell, cells: CellMap)
    ensures LiveNeighboursCount(c, cells) == |AliveAround(cells, (c.x, c.y))|
  {
    OffsetsAreMoore(c.x, c.y);
    CountPresent(Offsets(c.x, c.y), cells);
    assert LiveKeys(Offsets(c.x, c.y), cells) == AliveAround(cells, (c.x, c.y));
  }

  /** `Grid::cell_neighbors`: absent exactly when there is no cell at `(x, y)`. */
  function CellNeighbors(cells: CellMap, x: int, y: int): (r: Option<seq<Cell>>)
    ensures r.None? <==> (x, y) !in cells
    ensures r.Some? ==> |r.value| <= 8
  {
    match Lookup(cells, x, y)
    case None => None
    case Some(c) => Some(Neighbours(c, cells))
  }

  /**
   * On a well-formed grid, the neighbours of an in-grid coordinate are the
   * stored cells at the adjacent in-grid coordinates: each carries the key
   * it is stored at, none of them is the cell itself, and none is missing.
   */
  lemma NeighborsInGrid(width: int, height: int, cells: CellMap, x: int, y: int)
    requires WellFormed(width, height, cells)
    requires InBounds(width, height, (x, y))
    ensures CellNeighbors(cells, x, y).Some?
    ensures forall n :: n in CellNeighbors(cells, x, y).value ==>
      && InBounds(width, height, (n.x, n.y))
      && cells[(n.x, n.y)] == n
      && Adjacent((x, y), (n.x, n.y))
      && (n.x, n.y) != (x, y)
    ensures forall k :: InBounds(width, height, k) && Adjacent((x, y), k) ==> cells[k] in CellNeighbors(cells, x, y).value
  {
    var ns := CellNeighbors(cells, x, y).value;
    assert ns == Neighbours(cells[(x, y)], cells);
    NeighboursAreAdjacent(cells[(x, y)], cells);
    forall n | n in ns
      ensures InBounds(width, height, (n.x, n.y)) && cells[(n.x, n.y)] == n && Adjacent((x, y), (n.x, n.y))
    {
      var k :| k in cells && Adjacent((x, y), k) && cells[k] == n;
      assert k == (n.x, n.y);
    }
  }

  /** A corner cell has at most three neighbours. */
  lemma CornerNeighbors(width: int, height: int, cells: CellMap)
    requires WellFormed(width, height, cells)
    requires InBounds(width, height, (0, 0))
    ensures |CellNeighbors(cells, 0, 0).value| <= 3
  {
    var os := Offsets(0, 0);
    assert os[0] !in cells && os[1] !in cells && os[2] !in cells && os[3] !in cells && os[5] !in cells;
    assert os[1..][1..][1..][1..] == os[4..];
    assert os[4..][1..][1..] == os[6..];
    assert |Present(os[6..], cells)| <= 2;
    assert |Present(os[5..], cells)| <= 2;
    assert |Present(os[4..], cells)| <= 3;
  }

  /** On a grid with no live cell, every live-neighbour count is 0. */
  lemma AllDeadCountsZero(cells: CellMap, c: Cell)
    requires AllDead(cells)
    ensures LiveNeighboursCount(c, cells) == 0
  {
    LiveCountZero(c, cells);
  }

  /** Where (1, 1) is the only live cell, a cell adjacent to it sees exactly one live neighbour. */
  lemma OneLiveNeighbour(cells: CellMap, p: Coord)
    requires p in cells && (1, 1) in cells && Adjacent(p, (1, 1))
    requires forall k :: k in cells ==> (cells[k].isAlive <==> k == (1, 1))
    requires cells[p].x == p.0 && cells[p].y == p.1
    ensures LiveNeighboursCount(cells[p], cells) == 1
  {
    LiveCountIsAliveAround(cells[p], cells);
    assert AliveAround(cells, p) == {(1, 1)};
  }

  /**
   * A 5 x 5 grid whose only live cell is (1, 1): (0, 0), (2, 2) and (1, 0)
   * each see one live neighbour, and (1, 1) itself sees none.
   */
  lemma SingleLiveCellCounts(cells: CellMap)
    requires WellFormed(5, 5, cells)
    requires forall k :: k in cells ==> (cells[k].isAlive <==> k == (1, 1))
    ensures LiveNeighboursCount(cells[(0, 0)], cells) == 1
    ensures LiveNeighboursCount(cells[(2, 2)], cells) == 1
    ensures LiveNeighboursCount(cells[(1, 0)], cells) == 1
    ensures LiveNeighboursCount(cells[(1, 1)], cells) == 0
  {
    assert InBounds(5, 5, (0, 0)) && InBounds(5, 5, (2, 2)) && InBounds(5, 5, (1, 0)) && InBounds(5, 5, (1, 1));
    OneLiveNeighbour(cells, (0, 0));
    OneLiveNeighbour(cells, (2, 2));
    OneLiveNeighbour(cells, (1, 0));
    LiveCountZero(cells[(1, 1)], cells);
  }

  /** `Grid::toggle_cell` on the map: only the cell at `k` changes, and only its liveness. */
  function ToggledAt(cells: CellMap, k: Coord): (r: CellMap)
    requires k in cells
    ensures r.Keys == cells.Keys
    ensures r[k].x == cells[k].x && r[k].y == cells[k].y
    ensures r[k].isAlive == !cells[k].isAlive
    ensures forall j :: j in cells && j != k ==> r[j] == cells[j]
  {
    cells[k := Toggle(cells[k])]
  }

  /** Toggling keeps the grid's shape. */
  lemma ToggledWellFormed(width: int, height: int, cells: CellMap, k: Coord)
    requires WellFormed(width, height, cells)
    requires k in cells
    ensures WellFormed(width, height, ToggledAt(cells, k))
  {
  }

  /** Toggling the same cell twice restores the grid. */
  lemma ToggleTwice(cells: CellMap, k: Coord)
    requires k in cells
    ensures ToggledAt(ToggledAt(cells, k), k) == cells
  {
    ToggleInvolutive(cells[k]);
  }
}
