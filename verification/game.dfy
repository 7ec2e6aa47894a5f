/**
 * The application state: the grid and the game status. A click on the board
 * flags (left button) or opens (right button) the cell under the pointer while
 * the game is ongoing, and the status follows the board; the Restart button
 * starts a new board and resets the status.
 */
module Game {
  import opened Cells
  import opened Topology
  import opened Board
  import opened Moves
  import opened Sweeper

  /** Whether the game is over, and how. */
  datatype GameOver = Loss | Win | Ongoing

  /** The mouse button of a click; every button other than left and right is ignored. */
  datatype MouseButton = LeftButton | RightButton | OtherButton

  /**
   * The status agrees with the board: an ongoing game has no exploded cell, a
   * lost game has one, a won game is a board of opened and flagged cells; and in
   * every case each opened cell with no neighbouring mine has no concealed safe
   * neighbour.
   */
  ghost predicate Consistent(status: GameOver, cells: seq<CellState>, height: nat, width: nat)
    requires WellFormed(cells, height, width)
  {
    ZerosClosed(cells, height, width) &&
    match status
    case Ongoing => !HasExploded(cells)
    case Loss => HasExploded(cells)
    case Win => IsWin(cells, height, width)
  }

  /**
   * What one click on an ongoing game does to the board: a left click on a cell
   * flags it, a right click opens it, and any other click changes nothing.
   * `exploded` is what the move reported.
   */
  ghost predicate MoveOutcome(before: seq<CellState>, after: seq<CellState>, height: nat, width: nat,
                              button: MouseButton, target: Option<GridPos>, exploded: bool)
    requires WellFormed(before, height, width)
    requires target.Some? ==> InBounds(height, width, target.value)
  {
    match target
    case None => after == before && !exploded
    case Some(pos) =>
      match button
      case LeftButton => FlagOutcome(before, after, height, width, pos, exploded)
      case RightButton => OpenOutcome(before, after, height, width, pos, exploded)
      case OtherButton => after == before && !exploded
  }

  /**
   * The status after a click on an ongoing game, in the order the handler
   * assigns it: an explosion sets Loss, then a won board sets Win.
   */
  function StatusAfterMove(exploded: bool, won: bool): (status: GameOver)
    ensures status == Win <==> won
    ensures status == Loss <==> exploded && !won
    ensures status == Ongoing <==> !exploded && !won
  {
    if won then Win else if exploded then Loss else Ongoing
  }

  /**
   * On an ongoing game, a click reports an explosion exactly when it leaves an
   * exploded cell, and the game is then lost: a loss is never turned into a win.
   * A click that does not explode wins exactly when the board is won.
   */
  lemma MoveDecidesStatus(before: seq<CellState>, after: seq<CellState>, height: nat, width: nat,
                          button: MouseButton, target: Option<GridPos>, exploded: bool)
    requires WellFormed(before, height, width)
    requires target.Some? ==> InBounds(height, width, target.value)
    requires Consistent(Ongoing, before, height, width)
    requires MoveOutcome(before, after, height, width, button, target, exploded)
    ensures WellFormed(after, height, width)
    ensures exploded <==> HasExploded(after)
    ensures StatusAfterMove(exploded, IsWin(after, height, width)) == Loss <==> exploded
    ensures StatusAfterMove(exploded, IsWin(after, height, width)) == Win <==> !exploded && IsWin(after, height, width)
  {
    match target {
      case None =>
      case Some(pos) =>
        match button {
          case LeftButton =>
            FlagReportsExplosion(before, after, height, width, pos, exploded);
          case RightButton =>
            OpenReportsExplosion(before, after, height, width, pos, exploded);
          case OtherButton =>
        }
    }
    if exploded {
      ExplodedIsNotWin(after, height, width);
    }
  }

  /** A click determines the board it leaves and whether it exploded. */
  lemma MoveDeterministic(before: seq<CellState>, a: seq<CellState>, b: seq<CellState>, height: nat, width: nat,
                          button: MouseButton, target: Option<GridPos>, explodedA: bool, explodedB: bool)
    requires WellFormed(before, height, width)
    requires target.Some? ==> InBounds(height, width, target.value)
    requires MoveOutcome(before, a, height, width, button, target, explodedA)
    requires MoveOutcome(before, b, height, width, button, target, explodedB)
    ensures a == b && explodedA == explodedB
  {
    match target {
      case None =>
      case Some(pos) =>
        match button {
          case LeftButton =>
            FlagDeterministic(before, a, b, height, width, pos, explodedA, explodedB);
          case RightButton =>
            OpenDeterministic(before, a, b, height, width, pos, explodedA, explodedB);
          case OtherButton =>
        }
    }
  }

  /** A click on an ongoing game leaves the status consistent with the board. */
  lemma MoveKeepsConsistent(before: seq<CellState>, after: seq<CellState>, height: nat, width: nat,
                            button: MouseButton, target: Option<GridPos>, exploded: bool)
    requires WellFormed(before, height, width)
    requires target.Some? ==> InBounds(height, width, target.value)
    requires Consistent(Ongoing, before, height, width)
    requires MoveOutcome(before, after, height, width, button, target, exploded)
    ensures WellFormed(after, height, width)
    ensures Consistent(StatusAfterMove(exploded, IsWin(after, height, width)), after, height, width)
  {
    MoveDecidesStatus(before, after, height, width, button, target, exploded);
    match target {
      case None =>
      case Some(pos) =>
        match button {
          case LeftButton =>
            FlagKeepsZerosClosed(before, after, height, width, pos, exploded);
          case RightButton =>
            OpenKeepsZerosClosed(before, after, height, width, pos, exploded);
          case OtherButton =>
        }
    }
  }

  /** A freshly started board is an ongoing game consistent with its status. */
  lemma StartIsOngoing(mines: seq<bool>, choice: nat, after: seq<CellState>, height: nat, width: nat)
    requires WellFormed(Layout(mines), height, width)
    requires choice < |ZeroPositions(Layout(mines), height, width)|
    requires StartOutcome(mines, choice, after, height, width)
    ensures WellFormed(after, height, width) && Consistent(Ongoing, after, height, width)
  {
    StartIsFair(mines, choice, after, height, width);
  }

  /** `AppData`: the grid and the game status. */
  class App {
    const grid: Grid
    var gameOver: GameOver

    ghost predicate Valid()
      reads this, grid.storage
    {
      grid.Valid() && Consistent(gameOver, grid.storage[..], grid.height, grid.width)
    }

    /**
     * The application as `main` launches it: a grid made by `Grid::new` (which
     * starts it once), started a second time, and an ongoing game.
     */
    constructor (height: nat, width: nat, firstMines: seq<bool>, firstChoice: nat, mines: seq<bool>, choice: nat)
      requires height >= 1 && width >= 1
      requires |firstMines| == height * width && firstChoice < |ZeroPositions(Layout(firstMines), height, width)|
      requires |mines| == height * width && choice < |ZeroPositions(Layout(mines), height, width)|
      ensures Valid() && fresh(grid) && fresh(grid.storage)
      ensures gameOver == Ongoing && grid.height == height && grid.width == width
      ensures StartOutcome(mines, choice, grid.storage[..], height, width)
    {
      var g := new Grid(height, width, firstMines, firstChoice);
      g.Start(mines, choice);
      StartIsOngoing(mines, choice, g.storage[..], height, width);
      grid := g;
      gameOver := Ongoing;
    }

    /**
     * The mouse-down branch of the event handler. `target` is the cell under the
     * pointer, None when the click is off the board. While the game is ongoing,
     * a left click flags and a right click opens that cell, an explosion makes
     * the game a loss, and a won board makes it a win; once the game is over a
     * click changes nothing.
     */
    method MouseDown(button: MouseButton, target: Option<GridPos>)
      requires Valid()
      requires target.Some? ==> InBounds(grid.height, grid.width, target.value)
      modifies this, grid.storage
      ensures Valid()
      ensures old(gameOver) != Ongoing ==>
                gameOver == old(gameOver) && grid.storage[..] == old(grid.storage[..])
      ensures old(gameOver) == Ongoing ==>
                MoveOutcome(old(grid.storage[..]), grid.storage[..], grid.height, grid.width,
                            button, target, gameOver == Loss) &&
                gameOver == StatusAfterMove(HasExploded(grid.storage[..]), IsWin(grid.storage[..], grid.height, grid.width))
    {
      if gameOver == Ongoing {
        ghost var before := grid.storage[..];
        var exploded := false;
        match button {
          case LeftButton =>
            if target.Some? {
              exploded := grid.Flag(target.value);
            }
          case RightButton =>
            if target.Some? {
              exploded := grid.Open(target.value);
            }
          case OtherButton =>
        }
        if exploded {
          gameOver := Loss;
        }
        if IsWin(grid.storage[..], grid.height, grid.width) {
          gameOver := Win;
        }
        MoveDecidesStatus(before, grid.storage[..], grid.height, grid.width, button, target, exploded);
        MoveKeepsConsistent(before, grid.storage[..], grid.height, grid.width, button, target, exploded);
      }
    }

    /** The Restart button: the game is ongoing again on a newly started board. */
    method Restart(mines: seq<bool>, choice: nat)
      requires grid.Valid()
      requires |mines| == grid.height * grid.width
      requires choice < |ZeroPositions(Layout(mines), grid.height, grid.width)|
      modifies this, grid.storage
      ensures Valid() && gameOver == Ongoing
      ensures StartOutcome(mines, choice, grid.storage[..], grid.height, grid.width)
    {
      gameOver := Ongoing;
      grid.Start(mines, choice);
      StartIsOngoing(mines, choice, grid.storage[..], grid.height, grid.width);
    }
  }
}
