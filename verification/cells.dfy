/** The six mutually exclusive states of one cell of the minesweeper board. */
module Cells {

  datatype CellState =
    | SecretSafe    // concealed, no mine
    | SecretBomb    // concealed, holds a mine
    | Flagged       // a mine the player has flagged
    | Opened        // revealed, no mine
    | ExplodedSafe  // the player flagged a cell without a mine
    | ExplodedBomb  // the player opened a cell with a mine

  /** The cells the neighbour count treats as mines: a flagged mine is no longer counted. */
  predicate IsCountedMine(c: CellState) {
    c == SecretBomb || c == ExplodedBomb
  }

  /** The cells that record a losing move. */
  predicate IsExploded(c: CellState) {
    c == ExplodedSafe || c == ExplodedBomb
  }

  /** The cells a won board consists of. */
  predicate IsResolved(c: CellState) {
    c == Opened || c == Flagged
  }

  /** True when the cell holds a mine, whatever the player has done to it. */
  predicate HoldsMine(c: CellState) {
    c == SecretBomb || c == Flagged || c == ExplodedBomb
  }
}
