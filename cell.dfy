/**
 * A single cell of the Game of Life board and the classic survival and
 * birth rule (the `Cell` type of src/lib.rs).
 */
module Cells {

  /** A cell knows its own coordinate and whether it is alive. */
  datatype Cell = Cell(x: int, y: int, isAlive: bool)

  /** `Cell::toggle`: the same cell with its liveness flipped. */
  function Toggle(c: Cell): (r: Cell)
    ensures r.x == c.x && r.y == c.y
    ensures r.isAlive != c.isAlive
  {
    c.(isAlive := !c.isAlive)
  }

  /** Toggling twice gives back the original cell. */
  lemma ToggleInvolutive(c: Cell)
    ensures Toggle(Toggle(c)) == c
  {
  }

  /**
   * `Cell::next_state`: the state of the cell in the next generation, given
   * the number of its live neighbours.  The postconditions are the four
   * rules of the game, plus "every other case is dead".
   */
  function NextState(c: Cell, liveNeighbourCount: nat): (r: Cell)
    ensures r.x == c.x && r.y == c.y
    // 1. underpopulation
    ensures c.isAlive && liveNeighbourCount < 2 ==> !r.isAlive
    // 2. survival
    ensures c.isAlive && (liveNeighbourCount == 2 || liveNeighbourCount == 3) ==> r.isAlive
    // 3. overpopulation
    ensures c.isAlive && liveNeighbourCount > 3 ==> !r.isAlive
    // 4. reproduction, and a dead cell stays dead otherwise
    ensures !c.isAlive ==> (r.isAlive <==> liveNeighbourCount == 3)
  {
    match (c.isAlive, liveNeighbourCount)
    case (true, 0) => c.(isAlive := false)
    case (true, 1) => c.(isAlive := false)
    case (true, 2) => c.(isAlive := true)
    case (true, 3) => c.(isAlive := true)
    case (true, _) => c.(isAlive := false)
    case (false, 3) => c.(isAlive := true)
    case (false, _) => c.(isAlive := false)
  }

  /** The rule as a single equation: alive next iff 3 neighbours, or alive now with 2. */
  lemma NextStateIff(c: Cell, n: nat)
    ensures NextState(c, n).isAlive <==> n == 3 || (c.isAlive && n == 2)
  {
  }

  /**
   * The rule of the superseded variant in src/grid.rs, which is not compiled
   * into the program: a count of 2 keeps the cell as it is, 3 makes it
   * alive, anything else kills it.
   */
  function LegacyNextState(c: Cell, liveNeighbourCount: nat): Cell
  {
    match liveNeighbourCount
    case 2 => c
    case 3 => c.(isAlive := true)
    case _ => c.(isAlive := false)
  }

  /** The superseded rule agrees with the current one for every state and count. */
  lemma LegacyRuleAgrees(c: Cell, n: nat)
    ensures LegacyNextState(c, n) == NextState(c, n)
  {
  }
}
