/**
 * The player's moves on the grid contents as relations between the board before
 * and after: the per-cell transition tables of `open` and `flag`, the outcome of
 * `start`, and what every move keeps (the mines, the closure of zero cells) and
 * reports (whether it exploded).
 */
module Moves {
  import opened Cells
  import opened Topology
  import opened Board

  /**
   * `open`: a concealed mine explodes; a concealed safe cell is opened and the
   * flood runs from it; any other cell is left alone. `exploded` is the result.
   */
  ghost predicate OpenOutcome(before: seq<CellState>, after: seq<CellState>, height: nat, width: nat,
                              pos: GridPos, exploded: bool): (r: bool)
    requires WellFormed(before, height, width) && InBounds(height, width, pos)
    ensures r ==> |after| == |before| && (exploded <==> Cell(before, height, width, pos) == SecretBomb)
  {
    var i := Idx(height, width, pos);
    match before[i]
    case SecretBomb => exploded && after == before[i := ExplodedBomb]
    case SecretSafe => !exploded && FloodSpec(before[i := Opened], after, height, width, [pos])
    case _ => !exploded && after == before
  }

  /**
   * `flag`: a concealed mine is flagged and the flood runs from its opened
   * neighbours; flagging a concealed safe cell explodes; any other cell is left alone.
   */
  ghost predicate FlagOutcome(before: seq<CellState>, after: seq<CellState>, height: nat, width: nat,
                              pos: GridPos, exploded: bool): (r: bool)
    requires WellFormed(before, height, width) && InBounds(height, width, pos)
    ensures r ==> |after| == |before| && (exploded <==> Cell(before, height, width, pos) == SecretSafe)
  {
    var i := Idx(height, width, pos);
    match before[i]
    case SecretBomb =>
      !exploded && FloodSpec(before[i := Flagged], after, height, width, Seeds(before[i := Flagged], height, width, pos))
    case SecretSafe => exploded && after == before[i := ExplodedSafe]
    case _ => !exploded && after == before
  }

  /** The start cell `start` picks: entry `choice` of the zero cells of the laid board. */
  function StartCell(mines: seq<bool>, height: nat, width: nat, choice: nat): (z: GridPos)
    requires WellFormed(Layout(mines), height, width)
    requires choice < |ZeroPositions(Layout(mines), height, width)|
    ensures InBounds(height, width, z) && IsZeroCell(Layout(mines), height, width, z)
  {
    var zs := ZeroPositions(Layout(mines), height, width);
    ZeroPositionsIff(Layout(mines), height, width, zs[choice]);
    zs[choice]
  }

  /** `start`: lay the mines, then open the chosen zero cell; that opening does not explode. */
  ghost predicate StartOutcome(mines: seq<bool>, choice: nat, after: seq<CellState>, height: nat, width: nat)
    requires WellFormed(Layout(mines), height, width)
    requires choice < |ZeroPositions(Layout(mines), height, width)|
  {
    OpenOutcome(Layout(mines), after, height, width, StartCell(mines, height, width, choice), false)
  }

  /** No cell is ExplodedSafe: the condition under which the flood never meets an impossible cell. */
  predicate NoExplodedSafe(cells: seq<CellState>) {
    forall i :: 0 <= i < |cells| ==> cells[i] != ExplodedSafe
  }

  // ---------------------------------------------------------------------------
  // What a move keeps

  /** Every opened cell of `after` was already opened in `before`. */
  predicate NoNewOpened(before: seq<CellState>, after: seq<CellState>) {
    |before| == |after| &&
    forall i :: 0 <= i < |after| && after[i] == Opened ==> before[i] == Opened
  }

  /** A change that moves no counted mine, reveals nothing and conceals nothing keeps zero cells closed. */
  lemma ZerosClosedPreserved(before: seq<CellState>, after: seq<CellState>, height: nat, width: nat)
    requires WellFormed(before, height, width) && ZerosClosed(before, height, width)
    requires |after| == |before|
    requires forall i :: 0 <= i < |before| ==> IsCountedMine(after[i]) == IsCountedMine(before[i])
    requires NoNewSecretSafe(before, after) && NoNewOpened(before, after)
    ensures WellFormed(after, height, width) && ZerosClosed(after, height, width)
  {
    forall p | InBounds(height, width, p) && Cell(after, height, width, p) == Opened
      ensures Closed(after, height, width, p)
    {
      SameCountedMines(before, after, height, width, p);
      ClosedPreserved(before, after, height, width, p);
    }
  }

  /** `open` keeps every opened zero cell closed. */
  lemma OpenKeepsZerosClosed(before: seq<CellState>, after: seq<CellState>, height: nat, width: nat,
                             pos: GridPos, exploded: bool)
    requires WellFormed(before, height, width) && InBounds(height, width, pos)
    requires OpenOutcome(before, after, height, width, pos, exploded)
    requires ZerosClosed(before, height, width)
    ensures WellFormed(after, height, width) && ZerosClosed(after, height, width)
  {
    var i := Idx(height, width, pos);
    if before[i] == SecretSafe {
      var mid := before[i := Opened];
      CellUpdate(before, height, width, pos, Opened);
      forall p | InBounds(height, width, p) && Cell(mid, height, width, p) == Opened
        ensures p in [pos] || Closed(mid, height, width, p)
      {
        if p != pos {
          ClosedStaysClosed(before, mid, height, width, p);
        }
      }
      FloodClosesZeros(mid, after, height, width, [pos]);
    } else {
      ZerosClosedPreserved(before, after, height, width);
    }
  }

  /** `flag` keeps every opened zero cell closed, although flagging lowers its neighbours' counts. */
  lemma FlagKeepsZerosClosed(before: seq<CellState>, after: seq<CellState>, height: nat, width: nat,
                             pos: GridPos, exploded: bool)
    requires WellFormed(before, height, width) && InBounds(height, width, pos)
    requires FlagOutcome(before, after, height, width, pos, exploded)
    requires ZerosClosed(before, height, width)
    ensures WellFormed(after, height, width) && ZerosClosed(after, height, width)
  {
    var i := Idx(height, width, pos);
    if before[i] == SecretBomb {
      var mid := before[i := Flagged];
      CellUpdate(before, height, width, pos, Flagged);
      var seeds := Seeds(mid, height, width, pos);
      forall p | InBounds(height, width, p) && Cell(mid, height, width, p) == Opened
        ensures p in seeds || Closed(mid, height, width, p)
      {
        if Some(p) !in Neighbors(height, width, pos) {
          if Some(pos) in Neighbors(height, width, p) {
            NeighborsSymmetric(height, width, p, pos);
          }
          NBombsAwayFromUpdate(before, height, width, pos, Flagged, p);
          ClosedPreserved(before, mid, height, width, p);
        }
      }
      FloodClosesZeros(mid, after, height, width, seeds);
    } else {
      ZerosClosedPreserved(before, after, height, width);
    }
  }

  /** `open` never moves a mine: the mine layout after is the layout before. */
  lemma OpenKeepsMines(before: seq<CellState>, after: seq<CellState>, height: nat, width: nat,
                       pos: GridPos, exploded: bool)
    requires WellFormed(before, height, width) && InBounds(height, width, pos)
    requires OpenOutcome(before, after, height, width, pos, exploded)
    ensures MineLayout(after) == MineLayout(before)
  {
  }

  /** `flag` never moves a mine: the mine layout after is the layout before. */
  lemma FlagKeepsMines(before: seq<CellState>, after: seq<CellState>, height: nat, width: nat,
                       pos: GridPos, exploded: bool)
    requires WellFormed(before, height, width) && InBounds(height, width, pos)
    requires FlagOutcome(before, after, height, width, pos, exploded)
    ensures MineLayout(after) == MineLayout(before)
  {
  }

  /** On a board with no explosion, `open` reports true exactly when it leaves an exploded cell. */
  lemma OpenReportsExplosion(before: seq<CellState>, after: seq<CellState>, height: nat, width: nat,
                             pos: GridPos, exploded: bool)
    requires WellFormed(before, height, width) && InBounds(height, width, pos)
    requires OpenOutcome(before, after, height, width, pos, exploded)
    requires !HasExploded(before)
    ensures exploded <==> HasExploded(after)
  {
    var i := Idx(height, width, pos);
    if before[i] == SecretBomb {
      assert IsExploded(after[i]);
    } else if before[i] == SecretSafe {
      var mid := before[i := Opened];
      assert forall j :: 0 <= j < |mid| ==> !IsExploded(mid[j]);
    }
  }

  /** On a board with no explosion, `flag` reports true exactly when it leaves an exploded cell. */
  lemma FlagReportsExplosion(before: seq<CellState>, after: seq<CellState>, height: nat, width: nat,
                             pos: GridPos, exploded: bool)
    requires WellFormed(before, height, width) && InBounds(height, width, pos)
    requires FlagOutcome(before, after, height, width, pos, exploded)
    requires !HasExploded(before)
    ensures exploded <==> HasExploded(after)
  {
    var i := Idx(height, width, pos);
    if before[i] == SecretSafe {
      assert IsExploded(after[i]);
    } else if before[i] == SecretBomb {
      var mid := before[i := Flagged];
      assert forall j :: 0 <= j < |mid| ==> !IsExploded(mid[j]);
    }
  }

  /** `open` and `flag` on an Opened, Flagged or exploded cell change nothing and report no explosion. */
  lemma ResolvedCellIgnoresMoves(before: seq<CellState>, after: seq<CellState>, height: nat, width: nat,
                                 pos: GridPos, exploded: bool)
    requires WellFormed(before, height, width) && InBounds(height, width, pos)
    requires Cell(before, height, width, pos) != SecretSafe && Cell(before, height, width, pos) != SecretBomb
    requires OpenOutcome(before, after, height, width, pos, exploded) || FlagOutcome(before, after, height, width, pos, exploded)
    ensures after == before && !exploded
  {
  }

  /**
   * After `start` the chosen cell, a concealed safe cell with no neighbouring
   * mine, is opened; no cell is exploded, the mines are where the layout put them,
   * and every opened zero cell is closed.
   */
  lemma StartIsFair(mines: seq<bool>, choice: nat, after: seq<CellState>, height: nat, width: nat)
    requires WellFormed(Layout(mines), height, width)
    requires choice < |ZeroPositions(Layout(mines), height, width)|
    requires StartOutcome(mines, choice, after, height, width)
    ensures WellFormed(after, height, width)
    ensures Cell(after, height, width, StartCell(mines, height, width, choice)) == Opened
    ensures !HasExploded(after)
    ensures MineLayout(after) == mines
    ensures ZerosClosed(after, height, width)
  {
    var laid := Layout(mines);
    var z := StartCell(mines, height, width, choice);
    LayoutRoundTrip(mines);
    OpenKeepsMines(laid, after, height, width, z, false);
    OpenReportsExplosion(laid, after, height, width, z, false);
    assert ZerosClosed(laid, height, width);
    OpenKeepsZerosClosed(laid, after, height, width, z, false);
  }

  // ---------------------------------------------------------------------------
  // Each move has exactly one outcome

  /** `open` determines the board it leaves and whether it exploded. */
  lemma OpenDeterministic(before: seq<CellState>, a: seq<CellState>, b: seq<CellState>, height: nat, width: nat,
                          pos: GridPos, explodedA: bool, explodedB: bool)
    requires WellFormed(before, height, width) && InBounds(height, width, pos)
    requires OpenOutcome(before, a, height, width, pos, explodedA)
    requires OpenOutcome(before, b, height, width, pos, explodedB)
    ensures a == b && explodedA == explodedB
  {
    var i := Idx(height, width, pos);
    if before[i] == SecretSafe {
      FloodUnique(before[i := Opened], a, b, height, width, [pos]);
    }
  }

  /** `flag` determines the board it leaves and whether it exploded. */
  lemma FlagDeterministic(before: seq<CellState>, a: seq<CellState>, b: seq<CellState>, height: nat, width: nat,
                          pos: GridPos, explodedA: bool, explodedB: bool)
    requires WellFormed(before, height, width) && InBounds(height, width, pos)
    requires FlagOutcome(before, a, height, width, pos, explodedA)
    requires FlagOutcome(before, b, height, width, pos, explodedB)
    ensures a == b && explodedA == explodedB
  {
    var i := Idx(height, width, pos);
    if before[i] == SecretBomb {
      var mid := before[i := Flagged];
      FloodUnique(mid, a, b, height, width, Seeds(mid, height, width, pos));
    }
  }

  /** Given the mine layout and the choice of start cell, `start` determines the board. */
  lemma StartDeterministic(mines: seq<bool>, choice: nat, a: seq<CellState>, b: seq<CellState>, height: nat, width: nat)
    requires WellFormed(Layout(mines), height, width)
    requires choice < |ZeroPositions(Layout(mines), height, width)|
    requires StartOutcome(mines, choice, a, height, width) && StartOutcome(mines, choice, b, height, width)
    ensures a == b
  {
    OpenDeterministic(Layout(mines), a, b, height, width, StartCell(mines, height, width, choice), false, false);
  }

  /**
   * On the one-row board safe, safe, mine, safe, safe, opening the left end
   * opens the cell next to it and stops at that cell, which counts the mine:
   * the cells beyond the mine stay concealed.
   */
  lemma OpenStopsAtCountedCell()
    ensures OpenOutcome([SecretSafe, SecretSafe, SecretBomb, SecretSafe, SecretSafe],
                        [Opened, Opened, SecretBomb, SecretSafe, SecretSafe], 1, 5, GridPos(0, 0), false)
    ensures !OpenOutcome([SecretSafe, SecretSafe, SecretBomb, SecretSafe, SecretSafe],
                         [Opened, Opened, SecretBomb, Opened, Opened], 1, 5, GridPos(0, 0), false)
  {
    var before := [SecretSafe, SecretSafe, SecretBomb, SecretSafe, SecretSafe];
    var good := [Opened, Opened, SecretBomb, SecretSafe, SecretSafe];
    var bad := [Opened, Opened, SecretBomb, Opened, Opened];
    FloodStopsAtCountedCell();
    assert before[0 := Opened] == [Opened, SecretSafe, SecretBomb, SecretSafe, SecretSafe];
    if OpenOutcome(before, bad, 1, 5, GridPos(0, 0), false) {
      OpenDeterministic(before, good, bad, 1, 5, GridPos(0, 0), false, false);
    }
  }

  /** The flood of that example opens exactly the neighbour of the left end. */
  lemma FloodStopsAtCountedCell()
    ensures FloodSpec([Opened, SecretSafe, SecretBomb, SecretSafe, SecretSafe],
                      [Opened, Opened, SecretBomb, SecretSafe, SecretSafe], 1, 5, [GridPos(0, 0)])
  {
    ExampleFloodCloses();
    ExampleOpensAlong();
  }

  /** That flood opens exactly the one cell its trail reaches. */
  lemma ExampleOpensAlong()
    ensures OpensAlong([Opened, SecretSafe, SecretBomb, SecretSafe, SecretSafe],
                       [Opened, Opened, SecretBomb, SecretSafe, SecretSafe], 1, 5,
                       [GridPos(0, 0)], [GridPos(0, 1)], [GridPos(0, 0)])
  {
    var good := [Opened, Opened, SecretBomb, SecretSafe, SecretSafe];
    ExampleFloodTrail();
    ExampleChangesOneCell();
    assert Cell(good, 1, 5, GridPos(0, 1)) == Opened;
  }

  /** That flood only opens a safe cell, and leaves both opened cells closed. */
  lemma ExampleFloodCloses()
    ensures FloodCloses([Opened, SecretSafe, SecretBomb, SecretSafe, SecretSafe],
                        [Opened, Opened, SecretBomb, SecretSafe, SecretSafe], 1, 5, [GridPos(0, 0)])
  {
    var mid := [Opened, SecretSafe, SecretBomb, SecretSafe, SecretSafe];
    var good := [Opened, Opened, SecretBomb, SecretSafe, SecretSafe];
    ExampleLeftEndClosed();
    ExampleNextClosed();
    ExampleChangesOneCell();
  }

  /** That flood changes the cell next to the left end and no other. */
  lemma ExampleChangesOneCell()
    ensures forall p :: InBounds(1, 5, p) &&
              Cell([Opened, Opened, SecretBomb, SecretSafe, SecretSafe], 1, 5, p) !=
              Cell([Opened, SecretSafe, SecretBomb, SecretSafe, SecretSafe], 1, 5, p)
              ==> p == GridPos(0, 1)
  {
    var mid := [Opened, SecretSafe, SecretBomb, SecretSafe, SecretSafe];
    var good := [Opened, Opened, SecretBomb, SecretSafe, SecretSafe];
    forall p | InBounds(1, 5, p) && Cell(good, 1, 5, p) != Cell(mid, 1, 5, p)
      ensures p == GridPos(0, 1)
    {
      assert p.row == 0 && Idx(1, 5, p) == p.col;
      assert good[p.col] != mid[p.col];
    }
  }

  /** In that flood's result the left end has no concealed safe neighbour. */
  lemma ExampleLeftEndClosed()
    ensures NoSecretSafeNeighbor([Opened, Opened, SecretBomb, SecretSafe, SecretSafe], 1, 5, GridPos(0, 0))
  {
    var none: Option<GridPos> := None;
    assert Neighbors(1, 5, GridPos(0, 0)) == [none, none, none, Some(GridPos(0, 1)), none, none, none, none];
  }

  /** In that flood's result the cell next to the left end has no concealed safe neighbour. */
  lemma ExampleNextClosed()
    ensures NoSecretSafeNeighbor([Opened, Opened, SecretBomb, SecretSafe, SecretSafe], 1, 5, GridPos(0, 1))
  {
    var none: Option<GridPos> := None;
    assert Neighbors(1, 5, GridPos(0, 1)) == [none, none, Some(GridPos(0, 0)), Some(GridPos(0, 2)), none, none, none, none];
  }

  /** That flood reaches its one opened cell from the left end, which has no neighbouring mine. */
  lemma ExampleFloodTrail()
    ensures Trail([Opened, SecretSafe, SecretBomb, SecretSafe, SecretSafe], 1, 5,
                  [GridPos(0, 0)], [GridPos(0, 1)], [GridPos(0, 0)])
  {
    var none: Option<GridPos> := None;
    LeftEndHasNoMine();
    assert Neighbors(1, 5, GridPos(0, 0)) == [none, none, none, Some(GridPos(0, 1)), none, none, none, none];
  }

  /** In that example the left end, once opened, has no neighbouring mine. */
  lemma LeftEndHasNoMine()
    ensures NBombs([Opened, SecretSafe, SecretBomb, SecretSafe, SecretSafe], 1, 5, GridPos(0, 0)) == 0
  {
    var mid := [Opened, SecretSafe, SecretBomb, SecretSafe, SecretSafe];
    var next := GridPos(0, 1);
    var none: Option<GridPos> := None;
    var slots := [none, none, none, Some(next), none, none, none, none];
    assert Neighbors(1, 5, GridPos(0, 0)) == slots;
    assert CountMines(mid, 1, 5, slots[4..]) == 0 by {
      assert slots[4..] == [none, none, none, none];
      assert CountMines(mid, 1, 5, [none]) == 0 by { assert [none][1..] == []; }
      assert CountMines(mid, 1, 5, [none, none]) == 0 by { assert [none, none][1..] == [none]; }
      assert CountMines(mid, 1, 5, [none, none, none]) == 0 by { assert [none, none, none][1..] == [none, none]; }
      assert [none, none, none, none][1..] == [none, none, none];
    }
    assert Cell(mid, 1, 5, next) == SecretSafe;
    assert CountMines(mid, 1, 5, slots[3..]) == 0 by { assert slots[3..][1..] == slots[4..]; }
    assert CountMines(mid, 1, 5, slots[2..]) == 0 by { assert slots[2..][1..] == slots[3..]; }
    assert CountMines(mid, 1, 5, slots[1..]) == 0 by { assert slots[1..][1..] == slots[2..]; }
  }
}
