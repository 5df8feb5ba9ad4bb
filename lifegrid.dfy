/**
 * The `Grid` of src/lib.rs as an object: its width and height, and the cell
 * map that `from_seed`, `toggle_cell` and `next_state` update in place.
 * `render` is modelled by the frame string it builds.
 */
module LifeGrid {
  import opened Cells
  import opened Grids
  import opened Generations

  /** The glyphs of `render`: a white square for a live cell, a black one for a dead cell. */
  const LiveCell: char := '\U{2B1C}'
  const DeadCell: char := '\U{2B1B}'

  function Glyph(c: Cell): (r: char)
    ensures r == LiveCell <==> c.isAlive
    ensures r == DeadCell <==> !c.isAlive
  {
    if c.isAlive then LiveCell else DeadCell
  }

  /**
   * The nested loops of `Grid::new` and `Grid::random`: row by row, a cell
   * at every coordinate of the rectangle, alive as `draw` says.
   */
  method FillRectangle(width: int, height: int, draw: Coord -> bool) returns (cells: CellMap)
    ensures WellFormed(width, height, cells)
    ensures forall k :: k in cells ==> cells[k].isAlive == draw(k)
  {
    cells := map[];
    var y := 0;
    while y < height
      invariant 0 <= y && (y <= height || y == 0)
      invariant forall k :: k in cells <==> InBounds(width, y, k)
      invariant forall k :: k in cells ==> cells[k] == Cell(k.0, k.1, draw(k))
    {
      var x := 0;
      while x < width
        invariant 0 <= x && (x <= width || x == 0)
        invariant forall k :: k in cells <==> InBounds(width, y, k) || (k.1 == y && 0 <= k.0 < x)
        invariant forall k :: k in cells ==> cells[k] == Cell(k.0, k.1, draw(k))
      {
        cells := cells[(x, y) := Cell(x, y, draw((x, y)))];
        x := x + 1;
      }
      y := y + 1;
    }
  }

  /** The glyphs of row `y`, left to right, for the first `width` columns. */
  function RowGlyphs(cells: CellMap, y: int, width: nat): (r: string)
    requires forall x :: 0 <= x < width ==> (x, y) in cells
    ensures |r| == width
    ensures forall x :: 0 <= x < width ==> r[x] == Glyph(cells[(x, y)])
  {
    if width == 0 then []
    else RowGlyphs(cells, y, width - 1) + [Glyph(cells[(width - 1, y)])]
  }

  /** The frame of the first `height` rows, each row followed by a line break. */
  function Frame(cells: CellMap, width: nat, height: nat): (r: string)
    requires forall k :: InBounds(width, height, k) ==> k in cells
  {
    if height == 0 then []
    else
      assert forall k :: InBounds(width, height - 1, k) ==> InBounds(width, height, k);
      var y := height - 1;
      assert forall x :: 0 <= x < width ==> InBounds(width, height, (x, y));
      Frame(cells, width, y) + RowGlyphs(cells, y, width) + ['\n']
  }

  /** A frame holds `height` rows of `width + 1` characters each. */
  lemma {:induction false} FrameLength(cells: CellMap, width: nat, height: nat)
    requires forall k :: InBounds(width, height, k) ==> k in cells
    ensures |Frame(cells, width, height)| == height * (width + 1)
    decreases height
  {
    if height > 0 {
      assert forall k :: InBounds(width, height - 1, k) ==> InBounds(width, height, k);
      FrameLength(cells, width, height - 1);
      assert (height - 1) * (width + 1) + width + 1 == height * (width + 1);
    }
  }

  /** A row grows by the glyph of its next column. */
  lemma RowGlyphsSnoc(cells: CellMap, y: int, x: nat)
    requires forall c :: 0 <= c <= x ==> (c, y) in cells
    ensures RowGlyphs(cells, y, x + 1) == RowGlyphs(cells, y, x) + [Glyph(cells[(x, y)])]
  {
  }

  /** A frame grows by its next row and a line break. */
  lemma FrameSnoc(cells: CellMap, width: nat, height: nat)
    requires forall k :: InBounds(width, height + 1, k) ==> k in cells
    ensures forall k :: InBounds(width, height, k) ==> k in cells
    ensures forall c :: 0 <= c < width ==> (c, height) in cells
    ensures Frame(cells, width, height + 1) == Frame(cells, width, height) + RowGlyphs(cells, height, width) + ['\n']
  {
    assert forall c :: 0 <= c < width ==> InBounds(width, height + 1, (c, height));
  }

  /** Column `x` of row `y` lies inside row `y` of a frame whose rows are `width + 1` long. */
  lemma RowOffset(width: nat, height: nat, x: int, y: int)
    requires 0 <= y < height && 0 <= x <= width
    ensures y * (width + 1) + x < height * (width + 1)
  {
    assert (y + 1) * (width + 1) == y * (width + 1) + width + 1;
    assert (y + 1) * (width + 1) <= height * (width + 1) by {
      var d := height - (y + 1);
      assert height * (width + 1) == (y + 1) * (width + 1) + d * (width + 1);
    }
  }

  /**
   * The frame is row-major: the character of column `x` in row `y` is the
   * glyph of the cell at `(x, y)`, and every row ends with a line break.
   */
  lemma {:induction false} FrameAt(cells: CellMap, width: nat, height: nat, x: int, y: int)
    requires forall k :: InBounds(width, height, k) ==> k in cells
    requires 0 <= y < height && 0 <= x <= width
    ensures y * (width + 1) + x < |Frame(cells, width, height)|
    ensures Frame(cells, width, height)[y * (width + 1) + x]
      == if x == width then '\n' else Glyph(cells[(x, y)])
    decreases height
  {
    var last := height - 1;
    assert forall k :: InBounds(width, last, k) ==> InBounds(width, height, k);
    assert forall c :: 0 <= c < width ==> InBounds(width, height, (c, last));
    var prev := Frame(cells, width, last);
    var row := RowGlyphs(cells, last, width);
    assert Frame(cells, width, height) == prev + row + ['\n'];
    FrameLength(cells, width, last);
    RowOffset(width, height, x, y);
    if y < last {
      FrameAt(cells, width, last, x, y);
      RowOffset(width, last, x, y);
    } else {
      assert y * (width + 1) == |prev|;
    }
  }

  /** Every cell is alive iff its coordinate occurs an odd number of times in `seeds`. */
  ghost predicate OddlySeeded(cells: CellMap, seeds: seq<Coord>)
  {
    forall k :: k in cells ==> (cells[k].isAlive <==> multiset(seeds)[k] % 2 == 1)
  }

  /** Toggling one more seed keeps a grid oddly seeded by the longer list. */
  lemma ToggleSeed(cells: CellMap, seeds: seq<Coord>, seed: Coord)
    requires seed in cells
    requires OddlySeeded(cells, seeds)
    ensures OddlySeeded(ToggledAt(cells, seed), seeds + [seed])
  {
    var next := ToggledAt(cells, seed);
    var counts := multiset(seeds + [seed]);
    assert counts == multiset(seeds) + multiset{seed};
    forall k | k in next
      ensures next[k].isAlive <==> counts[k] % 2 == 1
    {
      if k == seed {
        assert counts[k] == multiset(seeds)[k] + 1;
      } else {
        assert next[k] == cells[k] && counts[k] == multiset(seeds)[k];
      }
    }
  }

  /** The prefix one longer is the prefix followed by the next element. */
  lemma PrefixSnoc(s: seq<Coord>, i: nat)
    requires i < |s|
    ensures s[..i + 1] == s[..i] + [s[i]]
  {
  }

  class Grid {
    const width: int
    const height: int
    var cells: CellMap

    /** The keys are exactly the rectangle and every cell stores its own key. */
    ghost predicate Valid()
      reads this
    {
      WellFormed(width, height, cells)
    }

    /** `Grid::new`: every cell of the rectangle, dead. */
    constructor (width: int, height: int)
      ensures Valid()
      ensures this.width == width && this.height == height
      ensures AllDead(cells)
    {
      var filled := FillRectangle(width, height, k => false);
      this.width := width;
      this.height := height;
      cells := filled;
    }

    /** `Grid::random`: every cell of the rectangle, alive as the random draw says. */
    constructor Random(width: int, height: int, draw: Coord -> bool)
      ensures Valid()
      ensures this.width == width && this.height == height
      ensures forall k :: k in cells ==> cells[k].isAlive == draw(k)
    {
      var filled := FillRectangle(width, height, draw);
      this.width := width;
      this.height := height;
      cells := filled;
    }

    /**
     * `Grid::from_seed`: a dead grid in which every listed coordinate is
     * toggled, so a cell ends up alive iff it is listed an odd number of times.
     */
    constructor FromSeed(width: int, height: int, liveCells: seq<Coord>)
      requires forall i :: 0 <= i < |liveCells| ==> InBounds(width, height, liveCells[i])
      ensures Valid()
      ensures this.width == width && this.height == height
      ensures forall k :: k in cells ==> (cells[k].isAlive <==> multiset(liveCells)[k] % 2 == 1)
    {
      var filled := FillRectangle(width, height, k => false);
      this.width := width;
      this.height := height;
      cells := filled;
      new;
      var i := 0;
      while i < |liveCells|
        invariant 0 <= i <= |liveCells|
        invariant Valid()
        invariant OddlySeeded(cells, liveCells[..i])
      {
        var seed := liveCells[i];
        assert InBounds(width, height, seed);
        ToggledWellFormed(width, height, cells, seed);
        ToggleSeed(cells, liveCells[..i], seed);
        PrefixSnoc(liveCells, i);
        cells := ToggledAt(cells, seed);
        i := i + 1;
      }
      assert liveCells[..i] == liveCells;
    }

    /** `Grid::toggle_cell`: the cell at `(x, y)` flips, nothing else changes. */
    method ToggleCell(x: int, y: int)
      requires Valid()
      requires (x, y) in cells
      modifies this
      ensures Valid()
      ensures cells == ToggledAt(old(cells), (x, y))
    {
      ToggledWellFormed(width, height, cells, (x, y));
      var newCell := Toggle(cells[(x, y)]);
      cells := cells[(x, y) := newCell];
    }

    /**
     * `Grid::next_state` as written: the cells are visited in an order the
     * HashMap chooses, returned as `order`, and each visited cell's count is
     * read from the working copy, which already holds the cells visited
     * before it.
     */
    method NextState() returns (ghost order: seq<Coord>)
      requires Valid()
      modifies this
      ensures Valid()
      ensures IsVisitOrder(order, old(cells).Keys)
      ensures cells == Sweep(old(cells), order)
    {
      var orig := cells;
      var work := orig;
      var pending := orig.Keys;
      order := [];
      VisitStart(orig);
      while pending != {}
        invariant Visiting(orig, work, pending, order)
        decreases pending
      {
        var key :| key in pending;
        var cell := orig[key];
        var liveNeighbours := LiveNeighboursCount(cell, work);
        VisitStep(orig, work, pending, order, key);
        work := work[key := Cells.NextState(cell, liveNeighbours)];
        order := order + [key];
        pending := pending - {key};
      }
      VisitDone(orig, work, order);
      SweepWellFormed(width, height, orig, order);
      cells := work;
    }

    /**
     * One synchronous generation, double-buffered: every count is read from
     * the grid as it was before the generation.
     */
    method Advance()
      requires Valid()
      modifies this
      ensures Valid()
      ensures cells == Step(old(cells))
    {
      var orig := cells;
      var next: CellMap := map[];
      var pending := orig.Keys;
      while pending != {}
        invariant Collecting(orig, next, pending)
        decreases pending
      {
        var key :| key in pending;
        var cell := orig[key];
        CollectStep(orig, next, pending, key);
        next := next[key := Cells.NextState(cell, LiveNeighboursCount(cell, orig))];
        pending := pending - {key};
      }
      CollectDone(orig, next);
      StepWellFormed(width, height, orig);
      cells := next;
    }

    /** The frame string of `render`: `height` rows of `width` glyphs, each row ended by a line break. */
    method Render() returns (output: string)
      requires Valid()
      ensures output == Frame(cells, if width > 0 then width else 0, if height > 0 then height else 0)
    {
      var grid := cells;
      var cols: nat := if width > 0 then width else 0;
      var rows: nat := if height > 0 then height else 0;
      assert forall k :: InBounds(cols, rows, k) ==> k in grid;
      output := [];
      var y := 0;
      while y < height
        invariant 0 <= y <= rows
        invariant forall k :: InBounds(cols, y, k) ==> k in grid
        invariant output == Frame(grid, cols, y)
      {
        assert forall k :: InBounds(cols, y + 1, k) ==> InBounds(cols, rows, k);
        FrameSnoc(grid, cols, y);
        var x := 0;
        while x < width
          invariant 0 <= x <= cols
          invariant output == Frame(grid, cols, y) + RowGlyphs(grid, y, x)
        {
          RowGlyphsSnoc(grid, y, x);
          var cell := grid[(x, y)];
          output := output + [Glyph(cell)];
          x := x + 1;
        }
        output := output + ['\n'];
        y := y + 1;
      }
    }
  }
}
