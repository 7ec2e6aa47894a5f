/**
 * The contents of the grid as a value: a row-major vector of cell states of a
 * height-by-width board, with the read-only operations of the grid (indexing,
 * the mine count, the win test, the list of zero cells, the initial flood stack)
 * and the predicates that specify the flood fill.
 */
module Board {
  import opened Cells
  import opened Topology

  /** A row-major cell vector of a board whose sides are at least one. */
  predicate WellFormed(cells: seq<CellState>, height: nat, width: nat) {
    height >= 1 && width >= 1 && |cells| == height * width
  }

  lemma MulMono(a: nat, b: nat, c: nat)
    requires a <= b
    ensures a * c <= b * c
  {
  }

  /** Row `a` of the vector ends where row `b` starts, or before. */
  lemma RowEndsBefore(a: nat, b: nat, width: nat)
    requires a < b
    ensures a * width + width <= b * width
  {
    MulMono(a + 1, b, width);
    assert (a + 1) * width == a * width + width;
  }

  /** The flat address `row * width + col` of a cell; it lies inside the vector. */
  function Idx(height: nat, width: nat, pos: GridPos): (i: nat)
    requires InBounds(height, width, pos)
    ensures i < height * width
  {
    MulMono(pos.row + 1, height, width);
    pos.row * width + pos.col
  }

  /** Distinct cells of the board have distinct addresses. */
  lemma IdxInjective(height: nat, width: nat, p: GridPos, q: GridPos)
    requires InBounds(height, width, p) && InBounds(height, width, q)
    requires Idx(height, width, p) == Idx(height, width, q)
    ensures p == q
  {
    if p.row < q.row {
      RowEndsBefore(p.row, q.row, width);
    } else if q.row < p.row {
      RowEndsBefore(q.row, p.row, width);
    }
  }

  /** `grid[pos]` */
  function Cell(cells: seq<CellState>, height: nat, width: nat, pos: GridPos): CellState
    requires WellFormed(cells, height, width) && InBounds(height, width, pos)
  {
    cells[Idx(height, width, pos)]
  }

  /** Writing the cell at `q` changes the cell at `q` and no other. */
  lemma CellUpdate(cells: seq<CellState>, height: nat, width: nat, q: GridPos, v: CellState)
    requires WellFormed(cells, height, width) && InBounds(height, width, q)
    ensures WellFormed(cells[Idx(height, width, q) := v], height, width)
    ensures forall p :: InBounds(height, width, p) ==>
              Cell(cells[Idx(height, width, q) := v], height, width, p)
                == if p == q then v else Cell(cells, height, width, p)
  {
    forall p | InBounds(height, width, p) && p != q
      ensures Idx(height, width, p) != Idx(height, width, q)
    {
      if Idx(height, width, p) == Idx(height, width, q) {
        IdxInjective(height, width, p, q);
      }
    }
  }

  // ---------------------------------------------------------------------------
  // Mine counting

  /** Number of present slots in `nbrs` whose cell is a counted mine. */
  function CountMines(cells: seq<CellState>, height: nat, width: nat, nbrs: seq<Option<GridPos>>): (n: nat)
    requires WellFormed(cells, height, width) && AllOnBoard(height, width, nbrs)
    ensures n <= CountSome(nbrs)
  {
    if nbrs == [] then 0
    else
      (if nbrs[0].Some? && IsCountedMine(Cell(cells, height, width, nbrs[0].value)) then 1 else 0)
      + CountMines(cells, height, width, nbrs[1..])
  }

  /** `n_bombs`: how many neighbours are SecretBomb or ExplodedBomb; never more than eight. */
  function NBombs(cells: seq<CellState>, height: nat, width: nat, pos: GridPos): (n: nat)
    requires WellFormed(cells, height, width) && InBounds(height, width, pos)
    ensures n <= 8
  {
    CountMines(cells, height, width, Neighbors(height, width, pos))
  }

  /** The cells in the present slots of `nbrs` that are counted mines. */
  function MinesIn(cells: seq<CellState>, height: nat, width: nat, nbrs: seq<Option<GridPos>>): set<GridPos>
    requires WellFormed(cells, height, width) && AllOnBoard(height, width, nbrs)
  {
    set k | 0 <= k < |nbrs| && nbrs[k].Some? && IsCountedMine(Cell(cells, height, width, nbrs[k].value))
      :: nbrs[k].value
  }

  /** With no cell in two slots, CountMines is the size of the set of mined cells. */
  lemma {:induction false} CountMinesIsCardinality(cells: seq<CellState>, height: nat, width: nat, nbrs: seq<Option<GridPos>>)
    requires WellFormed(cells, height, width) && AllOnBoard(height, width, nbrs)
    requires forall j, k :: 0 <= j < k < |nbrs| && nbrs[j].Some? && nbrs[k].Some? ==> nbrs[j].value != nbrs[k].value
    ensures CountMines(cells, height, width, nbrs) == |MinesIn(cells, height, width, nbrs)|
  {
    if nbrs != [] {
      var tail := nbrs[1..];
      assert forall k :: 0 <= k < |tail| ==> tail[k] == nbrs[k + 1];
      CountMinesIsCardinality(cells, height, width, tail);
      var all := MinesIn(cells, height, width, nbrs);
      var rest := MinesIn(cells, height, width, tail);
      var head: set<GridPos> :=
        if nbrs[0].Some? && IsCountedMine(Cell(cells, height, width, nbrs[0].value)) then {nbrs[0].value} else {};
      forall q | q in rest ensures q in all && q !in head {
        var k :| 0 <= k < |tail| && tail[k].Some? && tail[k].value == q
                 && IsCountedMine(Cell(cells, height, width, tail[k].value));
        assert nbrs[k + 1] == tail[k];
      }
      forall q | q in all ensures q in head || q in rest {
        var k :| 0 <= k < |nbrs| && nbrs[k].Some? && nbrs[k].value == q
                 && IsCountedMine(Cell(cells, height, width, nbrs[k].value));
        if k > 0 {
          assert tail[k - 1] == nbrs[k];
        }
      }
      assert all == head + rest;
      assert head * rest == {};
    }
  }

  /**
   * `n_bombs` counts exactly the neighbours that are SecretBomb or ExplodedBomb;
   * a Flagged neighbour is not counted.
   */
  lemma NBombsCountsMineNeighbors(cells: seq<CellState>, height: nat, width: nat, pos: GridPos)
    requires WellFormed(cells, height, width) && InBounds(height, width, pos)
    ensures NBombs(cells, height, width, pos)
            == |set q | q in NeighborSet(height, width, pos) && InBounds(height, width, q)
                        && IsCountedMine(Cell(cells, height, width, q))|
  {
    var r := Neighbors(height, width, pos);
    NeighborsDistinct(height, width, pos);
    CountMinesIsCardinality(cells, height, width, r);
    assert MinesIn(cells, height, width, r)
           == set q | q in NeighborSet(height, width, pos) && InBounds(height, width, q)
                      && IsCountedMine(Cell(cells, height, width, q));
  }

  /** Two boards that agree on which slot cells are counted mines give the same count. */
  lemma {:induction false} CountMinesAgree(a: seq<CellState>, b: seq<CellState>, height: nat, width: nat, nbrs: seq<Option<GridPos>>)
    requires WellFormed(a, height, width) && WellFormed(b, height, width) && AllOnBoard(height, width, nbrs)
    requires forall k :: 0 <= k < |nbrs| && nbrs[k].Some? ==>
               IsCountedMine(Cell(a, height, width, nbrs[k].value)) == IsCountedMine(Cell(b, height, width, nbrs[k].value))
    ensures CountMines(a, height, width, nbrs) == CountMines(b, height, width, nbrs)
  {
    if nbrs != [] {
      assert forall k :: 0 <= k < |nbrs| - 1 ==> nbrs[1..][k] == nbrs[k + 1];
      CountMinesAgree(a, b, height, width, nbrs[1..]);
    }
  }

  /** A zero count means that no present slot holds a counted mine. */
  lemma {:induction false} ZeroCountNoMine(cells: seq<CellState>, height: nat, width: nat, nbrs: seq<Option<GridPos>>)
    requires WellFormed(cells, height, width) && AllOnBoard(height, width, nbrs)
    requires CountMines(cells, height, width, nbrs) == 0
    ensures forall k :: 0 <= k < |nbrs| && nbrs[k].Some? ==> !IsCountedMine(Cell(cells, height, width, nbrs[k].value))
  {
    if nbrs != [] {
      ZeroCountNoMine(cells, height, width, nbrs[1..]);
      assert forall k :: 1 <= k < |nbrs| ==> nbrs[k] == nbrs[1..][k - 1];
    }
  }

  /** A cell with a zero count has no neighbour that is SecretBomb or ExplodedBomb. */
  lemma NoMineNextToZero(cells: seq<CellState>, height: nat, width: nat, pos: GridPos)
    requires WellFormed(cells, height, width) && InBounds(height, width, pos)
    requires NBombs(cells, height, width, pos) == 0
    ensures var r := Neighbors(height, width, pos);
            forall k :: 0 <= k < |r| && r[k].Some? ==> !IsCountedMine(Cell(cells, height, width, r[k].value))
  {
    ZeroCountNoMine(cells, height, width, Neighbors(height, width, pos));
  }

  /** Writing a cell that is not a neighbour of `pos` leaves the count of `pos` unchanged. */
  lemma NBombsAwayFromUpdate(cells: seq<CellState>, height: nat, width: nat, q: GridPos, v: CellState, pos: GridPos)
    requires WellFormed(cells, height, width) && InBounds(height, width, q) && InBounds(height, width, pos)
    requires Some(q) !in Neighbors(height, width, pos)
    ensures WellFormed(cells[Idx(height, width, q) := v], height, width)
    ensures NBombs(cells[Idx(height, width, q) := v], height, width, pos) == NBombs(cells, height, width, pos)
  {
    CellUpdate(cells, height, width, q, v);
    var r := Neighbors(height, width, pos);
    forall k | 0 <= k < |r| && r[k].Some? ensures r[k].value != q {
      assert r[k] in r;
    }
    CountMinesAgree(cells[Idx(height, width, q) := v], cells, height, width, r);
  }

  // ---------------------------------------------------------------------------
  // Changes that keep the mines where they are

  /** The only change from `before` to `after` is SecretSafe becoming Opened. */
  predicate OnlyOpensSafe(before: seq<CellState>, after: seq<CellState>) {
    |before| == |after| &&
    forall i :: 0 <= i < |before| ==>
      after[i] == before[i] || (before[i] == SecretSafe && after[i] == Opened)
  }

  /** Under a change that only opens safe cells, each cell is unchanged or went from SecretSafe to Opened. */
  lemma OpensSafeAt(before: seq<CellState>, after: seq<CellState>, height: nat, width: nat, p: GridPos)
    requires WellFormed(before, height, width) && InBounds(height, width, p)
    requires OnlyOpensSafe(before, after)
    ensures WellFormed(after, height, width)
    ensures Cell(after, height, width, p) == Cell(before, height, width, p) ||
            (Cell(before, height, width, p) == SecretSafe && Cell(after, height, width, p) == Opened)
  {
  }

  /** Boards that agree on where the counted mines are give every cell the same count. */
  lemma SameCountedMines(a: seq<CellState>, b: seq<CellState>, height: nat, width: nat, pos: GridPos)
    requires WellFormed(a, height, width) && InBounds(height, width, pos) && |b| == |a|
    requires forall i :: 0 <= i < |a| ==> IsCountedMine(a[i]) == IsCountedMine(b[i])
    ensures WellFormed(b, height, width)
    ensures NBombs(b, height, width, pos) == NBombs(a, height, width, pos)
  {
    CountMinesAgree(b, a, height, width, Neighbors(height, width, pos));
  }

  /** Opening safe cells changes no mine count. */
  lemma OpeningKeepsCounts(before: seq<CellState>, after: seq<CellState>, height: nat, width: nat, pos: GridPos)
    requires WellFormed(before, height, width) && InBounds(height, width, pos)
    requires OnlyOpensSafe(before, after)
    ensures WellFormed(after, height, width)
    ensures NBombs(after, height, width, pos) == NBombs(before, height, width, pos)
  {
    SameCountedMines(before, after, height, width, pos);
  }

  /** The number of concealed safe cells. */
  function CountSafe(cells: seq<CellState>): (n: nat)
    ensures n <= |cells|
  {
    if cells == [] then 0
    else (if cells[0] == SecretSafe then 1 else 0) + CountSafe(cells[1..])
  }

  /** Opening one concealed safe cell lowers the number of concealed safe cells by one. */
  lemma {:induction false} OpenOneSafe(cells: seq<CellState>, i: nat)
    requires i < |cells| && cells[i] == SecretSafe
    ensures CountSafe(cells[i := Opened]) + 1 == CountSafe(cells)
  {
    if i > 0 {
      assert cells[i := Opened][1..] == cells[1..][i - 1 := Opened];
      OpenOneSafe(cells[1..], i - 1);
    } else {
      assert cells[i := Opened][1..] == cells[1..];
    }
  }

  /**
   * `now` is `start` with the cells listed in `done` opened: only concealed safe
   * cells changed, each listed cell went from concealed safe to opened, every
   * changed cell is listed, and there is one listed cell per cell opened.
   */
  ghost predicate OpenedFrom(start: seq<CellState>, now: seq<CellState>, height: nat, width: nat, done: seq<GridPos>)
    requires WellFormed(start, height, width)
  {
    OnlyOpensSafe(start, now) &&
    CountSafe(now) + |done| == CountSafe(start) &&
    (forall j :: 0 <= j < |done| ==>
       InBounds(height, width, done[j]) && Cell(start, height, width, done[j]) == SecretSafe &&
       Cell(now, height, width, done[j]) == Opened) &&
    (forall p :: InBounds(height, width, p) && Cell(now, height, width, p) != Cell(start, height, width, p) ==>
       p in done)
  }

  /**
   * One step of the flood's inner loop: opening `q`, concealed and safe, and
   * listing it keeps the record exact and lowers the number of concealed safe cells.
   */
  lemma OpenOneStep(start: seq<CellState>, prev: seq<CellState>, height: nat, width: nat,
                    q: GridPos, done: seq<GridPos>)
    requires WellFormed(start, height, width) && InBounds(height, width, q)
    requires OpenedFrom(start, prev, height, width, done)
    requires Cell(prev, height, width, q) == SecretSafe
    ensures OnlyOpensSafe(prev, prev[Idx(height, width, q) := Opened])
    ensures OpenedFrom(start, prev[Idx(height, width, q) := Opened], height, width, done + [q])
  {
    var next := prev[Idx(height, width, q) := Opened];
    CellUpdate(prev, height, width, q, Opened);
    OpenOneSafe(prev, Idx(height, width, q));
    forall p | InBounds(height, width, p) && Cell(next, height, width, p) != Cell(start, height, width, p)
      ensures p in done + [q]
    {
      if p != q {
        assert Cell(prev, height, width, p) != Cell(start, height, width, p);
      }
    }
  }

  // ---------------------------------------------------------------------------
  // The flood fill, specified

  /** No neighbour of `pos` is a concealed safe cell. */
  predicate NoSecretSafeNeighbor(cells: seq<CellState>, height: nat, width: nat, pos: GridPos)
    requires WellFormed(cells, height, width) && InBounds(height, width, pos)
  {
    var r := Neighbors(height, width, pos);
    forall k :: 0 <= k < |r| && r[k].Some? ==> Cell(cells, height, width, r[k].value) != SecretSafe
  }

  /** A cell with no neighbouring mine has no concealed safe neighbour left. */
  predicate Closed(cells: seq<CellState>, height: nat, width: nat, pos: GridPos)
    requires WellFormed(cells, height, width) && InBounds(height, width, pos)
  {
    NBombs(cells, height, width, pos) == 0 ==> NoSecretSafeNeighbor(cells, height, width, pos)
  }

  /** Every opened cell with no neighbouring mine has all its safe neighbours opened. */
  ghost predicate ZerosClosed(cells: seq<CellState>, height: nat, width: nat)
    requires WellFormed(cells, height, width)
  {
    forall p :: InBounds(height, width, p) && Cell(cells, height, width, p) == Opened ==>
      Closed(cells, height, width, p)
  }

  /**
   * How the flood reached the cells it opened: `order[j]` was concealed safe
   * and was opened from `parents[j]`, a cell of the board with no neighbouring
   * mine, of which it is a neighbour, and which is a seed or was opened earlier.
   */
  ghost predicate Trail(cells: seq<CellState>, height: nat, width: nat, seeds: seq<GridPos>,
                        order: seq<GridPos>, parents: seq<GridPos>)
    requires WellFormed(cells, height, width)
  {
    TrailEdges(cells, height, width, order, parents) && TrailRooted(seeds, order, parents)
  }

  /** Each trail cell is a concealed safe neighbour of its parent, which has no neighbouring mine. */
  ghost predicate TrailEdges(cells: seq<CellState>, height: nat, width: nat,
                             order: seq<GridPos>, parents: seq<GridPos>)
    requires WellFormed(cells, height, width)
  {
    |parents| == |order| &&
    forall j :: 0 <= j < |order| ==>
      InBounds(height, width, order[j]) && Cell(cells, height, width, order[j]) == SecretSafe &&
      InBounds(height, width, parents[j]) && NBombs(cells, height, width, parents[j]) == 0 &&
      Some(order[j]) in Neighbors(height, width, parents[j])
  }

  /** Each trail cell's parent is a seed or an earlier trail cell. */
  ghost predicate TrailRooted(seeds: seq<GridPos>, order: seq<GridPos>, parents: seq<GridPos>) {
    |parents| == |order| &&
    forall j :: 0 <= j < |order| ==> parents[j] in seeds || parents[j] in order[..j]
  }

  /** The cells `after` changed from `before` are exactly the trail's cells, now opened. */
  ghost predicate OpensAlong(before: seq<CellState>, after: seq<CellState>, height: nat, width: nat,
                             seeds: seq<GridPos>, order: seq<GridPos>, parents: seq<GridPos>)
    requires WellFormed(before, height, width)
  {
    Trail(before, height, width, seeds, order, parents) &&
    |after| == |before| &&
    (forall j :: 0 <= j < |order| ==> Cell(after, height, width, order[j]) == Opened) &&
    (forall p :: InBounds(height, width, p) && Cell(after, height, width, p) != Cell(before, height, width, p) ==>
       p in order)
  }

  /**
   * What `flood` achieves from the stack `seeds`: only concealed safe cells are
   * opened, each along a trail from the seeds through cells with no neighbouring
   * mine, and every seed and every cell it opened is an opened cell that is closed.
   */
  ghost predicate FloodSpec(before: seq<CellState>, after: seq<CellState>, height: nat, width: nat, seeds: seq<GridPos>)
    requires WellFormed(before, height, width)
  {
    FloodCloses(before, after, height, width, seeds) &&
    exists order, parents :: OpensAlong(before, after, height, width, seeds, order, parents)
  }

  /** Only concealed safe cells are opened, and every seed and every cell opened is opened and closed. */
  ghost predicate FloodCloses(before: seq<CellState>, after: seq<CellState>, height: nat, width: nat, seeds: seq<GridPos>)
    requires WellFormed(before, height, width)
  {
    OnlyOpensSafe(before, after) &&
    (forall k :: 0 <= k < |seeds| ==>
       InBounds(height, width, seeds[k]) &&
       Cell(after, height, width, seeds[k]) == Opened && Closed(after, height, width, seeds[k])) &&
    (forall p {:trigger Closed(after, height, width, p)} ::
       InBounds(height, width, p) && Cell(after, height, width, p) != Cell(before, height, width, p) ==>
       Closed(after, height, width, p))
  }

  /** Every concealed safe cell of `after` was already one in `before`. */
  predicate NoNewSecretSafe(before: seq<CellState>, after: seq<CellState>) {
    |before| == |after| &&
    forall i :: 0 <= i < |after| && after[i] == SecretSafe ==> before[i] == SecretSafe
  }

  /** A closed cell stays closed while its count is unchanged and no concealed safe cell appears. */
  lemma ClosedPreserved(before: seq<CellState>, after: seq<CellState>, height: nat, width: nat, pos: GridPos)
    requires WellFormed(before, height, width) && WellFormed(after, height, width) && InBounds(height, width, pos)
    requires NoNewSecretSafe(before, after)
    requires NBombs(after, height, width, pos) == NBombs(before, height, width, pos)
    requires Closed(before, height, width, pos)
    ensures Closed(after, height, width, pos)
  {
    var r := Neighbors(height, width, pos);
    if NBombs(after, height, width, pos) == 0 {
      forall k | 0 <= k < |r| && r[k].Some?
        ensures Cell(after, height, width, r[k].value) != SecretSafe
      {
        var i := Idx(height, width, r[k].value);
        assert Cell(before, height, width, r[k].value) != SecretSafe;
      }
    }
  }

  /** Opening safe cells keeps a closed cell closed. */
  lemma ClosedStaysClosed(before: seq<CellState>, after: seq<CellState>, height: nat, width: nat, pos: GridPos)
    requires WellFormed(before, height, width) && InBounds(height, width, pos)
    requires OnlyOpensSafe(before, after)
    requires Closed(before, height, width, pos)
    ensures WellFormed(after, height, width) && Closed(after, height, width, pos)
  {
    OpeningKeepsCounts(before, after, height, width, pos);
    ClosedPreserved(before, after, height, width, pos);
  }

  /**
   * A flood started from every opened cell that might not be closed leaves a
   * board on which every opened zero cell is closed.
   */
  lemma FloodClosesZeros(before: seq<CellState>, after: seq<CellState>, height: nat, width: nat, seeds: seq<GridPos>)
    requires WellFormed(before, height, width)
    requires FloodCloses(before, after, height, width, seeds)
    requires forall p :: InBounds(height, width, p) && Cell(before, height, width, p) == Opened ==>
               p in seeds || Closed(before, height, width, p)
    ensures WellFormed(after, height, width) && ZerosClosed(after, height, width)
  {
    forall p | InBounds(height, width, p) && Cell(after, height, width, p) == Opened
      ensures Closed(after, height, width, p)
    {
      if Cell(after, height, width, p) == Cell(before, height, width, p) {
        if p in seeds {
          var k :| 0 <= k < |seeds| && seeds[k] == p;
        } else {
          ClosedStaysClosed(before, after, height, width, p);
        }
      }
    }
  }

  /**
   * The state of the flood loop between iterations: only safe cells were opened
   * since `start`; every cell on the stack is opened; every popped cell is opened
   * and closed; every seed and every changed cell is popped or on the stack.
   */
  ghost predicate FloodInvariant(start: seq<CellState>, now: seq<CellState>, height: nat, width: nat,
                                 seeds: seq<GridPos>, stack: seq<GridPos>, popped: set<GridPos>)
    requires WellFormed(start, height, width)
  {
    OnlyOpensSafe(start, now) &&
    (forall k :: 0 <= k < |stack| ==>
       InBounds(height, width, stack[k]) && Cell(now, height, width, stack[k]) == Opened) &&
    (forall p :: p in popped ==>
       InBounds(height, width, p) && Cell(now, height, width, p) == Opened && Closed(now, height, width, p)) &&
    (forall k :: 0 <= k < |seeds| ==> seeds[k] in popped || seeds[k] in stack) &&
    (forall p :: InBounds(height, width, p) && Cell(now, height, width, p) != Cell(start, height, width, p) ==>
       p in popped || p in stack)
  }

  /** The flood starts with its seeds on the stack and nothing popped. */
  lemma FloodStarts(start: seq<CellState>, height: nat, width: nat, seeds: seq<GridPos>)
    requires WellFormed(start, height, width)
    requires forall k :: 0 <= k < |seeds| ==>
               InBounds(height, width, seeds[k]) && Cell(start, height, width, seeds[k]) == Opened
    ensures FloodInvariant(start, start, height, width, seeds, seeds, {})
  {
    forall k | 0 <= k < |seeds| ensures seeds[k] in seeds {
    }
  }

  /** The cell on top of the flood's stack is an opened cell of the board. */
  lemma FloodTop(start: seq<CellState>, now: seq<CellState>, height: nat, width: nat,
                 seeds: seq<GridPos>, stack: seq<GridPos>, popped: set<GridPos>)
    requires WellFormed(start, height, width)
    requires FloodInvariant(start, now, height, width, seeds, stack, popped) && stack != []
    ensures WellFormed(now, height, width) && InBounds(height, width, stack[|stack| - 1])
    ensures Cell(now, height, width, stack[|stack| - 1]) == Opened
    ensures stack == stack[..|stack| - 1] + [stack[|stack| - 1]]
  {
  }

  /** Popping a cell with a neighbouring mine only moves it from the stack to the popped cells. */
  lemma FloodPopsCounted(start: seq<CellState>, now: seq<CellState>, height: nat, width: nat,
                         seeds: seq<GridPos>, stack: seq<GridPos>, popped: set<GridPos>, center: GridPos)
    requires WellFormed(start, height, width)
    requires FloodInvariant(start, now, height, width, seeds, stack + [center], popped)
    requires WellFormed(now, height, width) && InBounds(height, width, center)
    requires NBombs(now, height, width, center) != 0
    ensures FloodInvariant(start, now, height, width, seeds, stack, popped + {center})
  {
    var full := stack + [center];
    assert full[|stack|] == center;
    assert forall k :: 0 <= k < |stack| ==> stack[k] == full[k];
  }

  /**
   * Popping a cell with no neighbouring mine and opening its concealed safe
   * neighbours, which go on the stack, keeps the flood's invariant.
   */
  lemma FloodPopsZero(start: seq<CellState>, top: seq<CellState>, now: seq<CellState>, height: nat, width: nat,
                      seeds: seq<GridPos>, stack: seq<GridPos>, popped: set<GridPos>, center: GridPos,
                      pushed: seq<GridPos>)
    requires WellFormed(start, height, width)
    requires FloodInvariant(start, top, height, width, seeds, stack + [center], popped)
    requires WellFormed(top, height, width)
    requires OpenedFrom(top, now, height, width, pushed)
    requires InBounds(height, width, center) && NBombs(top, height, width, center) == 0
    requires NoSecretSafeNeighbor(now, height, width, center)
    ensures FloodInvariant(start, now, height, width, seeds, stack + pushed, popped + {center})
  {
    var full := stack + [center];
    assert full[|stack|] == center;
    assert forall k :: 0 <= k < |stack| ==> stack[k] == full[k];
    var next := stack + pushed;
    forall k | 0 <= k < |next|
      ensures InBounds(height, width, next[k]) && Cell(now, height, width, next[k]) == Opened
    {
      if k < |stack| {
        assert next[k] == full[k];
        OpensSafeAt(top, now, height, width, next[k]);
      } else {
        assert next[k] == pushed[k - |stack|];
      }
    }
    forall p | p in popped + {center}
      ensures InBounds(height, width, p) && Cell(now, height, width, p) == Opened && Closed(now, height, width, p)
    {
      OpensSafeAt(top, now, height, width, p);
      if p == center {
        OpeningKeepsCounts(top, now, height, width, p);
      } else {
        ClosedStaysClosed(top, now, height, width, p);
      }
    }
    forall p | InBounds(height, width, p) && Cell(now, height, width, p) != Cell(start, height, width, p)
      ensures p in popped + {center} || p in next
    {
      if Cell(now, height, width, p) != Cell(top, height, width, p) {
        assert p in pushed;
      }
    }
  }

  /**
   * The trail of the flood loop between iterations: the cells opened since
   * `start` are exactly the trail's, and every cell on the stack is a seed or on the trail.
   */
  ghost predicate FloodTrail(start: seq<CellState>, now: seq<CellState>, height: nat, width: nat,
                             seeds: seq<GridPos>, stack: seq<GridPos>, order: seq<GridPos>, parents: seq<GridPos>)
    requires WellFormed(start, height, width)
  {
    OpensAlong(start, now, height, width, seeds, order, parents) &&
    forall k :: 0 <= k < |stack| ==> stack[k] in seeds || stack[k] in order
  }

  /** The flood starts with an empty trail. */
  lemma TrailStarts(start: seq<CellState>, height: nat, width: nat, seeds: seq<GridPos>)
    requires WellFormed(start, height, width)
    ensures FloodTrail(start, start, height, width, seeds, seeds, [], [])
  {
    forall k | 0 <= k < |seeds| ensures seeds[k] in seeds {
    }
  }

  /** Popping a cell with a neighbouring mine leaves the trail as it is. */
  lemma TrailPopsCounted(start: seq<CellState>, now: seq<CellState>, height: nat, width: nat,
                         seeds: seq<GridPos>, stack: seq<GridPos>, center: GridPos,
                         order: seq<GridPos>, parents: seq<GridPos>)
    requires WellFormed(start, height, width)
    requires FloodTrail(start, now, height, width, seeds, stack + [center], order, parents)
    ensures FloodTrail(start, now, height, width, seeds, stack, order, parents)
  {
    assert forall k :: 0 <= k < |stack| ==> stack[k] == (stack + [center])[k];
  }

  /** `n` copies of `c`. */
  function Repeat(c: GridPos, n: nat): (r: seq<GridPos>)
    ensures |r| == n && forall i :: 0 <= i < n ==> r[i] == c
  {
    if n == 0 then [] else Repeat(c, n - 1) + [c]
  }

  /**
   * Cells opened from `center`, a seed or trail cell with no neighbouring mine,
   * extend the trail, with `center` as their parent.
   */
  lemma TrailExtends(cells: seq<CellState>, height: nat, width: nat, seeds: seq<GridPos>,
                     order: seq<GridPos>, parents: seq<GridPos>, center: GridPos, pushed: seq<GridPos>)
    requires WellFormed(cells, height, width) && Trail(cells, height, width, seeds, order, parents)
    requires InBounds(height, width, center) && NBombs(cells, height, width, center) == 0
    requires center in seeds || center in order
    requires forall m :: 0 <= m < |pushed| ==>
               InBounds(height, width, pushed[m]) && Cell(cells, height, width, pushed[m]) == SecretSafe &&
               Some(pushed[m]) in Neighbors(height, width, center)
    ensures Trail(cells, height, width, seeds, order + pushed, parents + Repeat(center, |pushed|))
  {
    EdgesExtend(cells, height, width, order, parents, center, pushed);
    RootedExtends(seeds, order, parents, center, pushed);
  }

  /** Appending neighbours of a cell with no neighbouring mine, as its children, keeps the edges valid. */
  lemma EdgesExtend(cells: seq<CellState>, height: nat, width: nat,
                    order: seq<GridPos>, parents: seq<GridPos>, center: GridPos, pushed: seq<GridPos>)
    requires WellFormed(cells, height, width) && TrailEdges(cells, height, width, order, parents)
    requires InBounds(height, width, center) && NBombs(cells, height, width, center) == 0
    requires forall m :: 0 <= m < |pushed| ==>
               InBounds(height, width, pushed[m]) && Cell(cells, height, width, pushed[m]) == SecretSafe &&
               Some(pushed[m]) in Neighbors(height, width, center)
    ensures TrailEdges(cells, height, width, order + pushed, parents + Repeat(center, |pushed|))
  {
    var order' := order + pushed;
    var parents' := parents + Repeat(center, |pushed|);
    forall j | 0 <= j < |order'|
      ensures InBounds(height, width, order'[j]) && Cell(cells, height, width, order'[j]) == SecretSafe &&
              InBounds(height, width, parents'[j]) && NBombs(cells, height, width, parents'[j]) == 0 &&
              Some(order'[j]) in Neighbors(height, width, parents'[j])
    {
      if j < |order| {
        assert order'[j] == order[j] && parents'[j] == parents[j];
      } else {
        assert order'[j] == pushed[j - |order|] && parents'[j] == center;
      }
    }
  }

  /** Appending children of a seed or of a trail cell keeps every parent rooted. */
  lemma RootedExtends(seeds: seq<GridPos>, order: seq<GridPos>, parents: seq<GridPos>,
                      center: GridPos, pushed: seq<GridPos>)
    requires TrailRooted(seeds, order, parents) && (center in seeds || center in order)
    ensures TrailRooted(seeds, order + pushed, parents + Repeat(center, |pushed|))
  {
    var order' := order + pushed;
    var parents' := parents + Repeat(center, |pushed|);
    forall j | 0 <= j < |order'|
      ensures parents'[j] in seeds || parents'[j] in order'[..j]
    {
      if j < |order| {
        assert parents'[j] == parents[j];
        assert order'[..j] == order[..j];
      } else if center !in seeds {
        var i :| 0 <= i < |order| && order[i] == center;
        assert order'[..j][i] == center;
      }
    }
  }

  /**
   * Popping a cell with no neighbouring mine and opening its concealed safe
   * neighbours, which go on the stack, extends the trail by those neighbours.
   */
  lemma TrailPopsZero(start: seq<CellState>, top: seq<CellState>, now: seq<CellState>, height: nat, width: nat,
                      seeds: seq<GridPos>, stack: seq<GridPos>, center: GridPos, pushed: seq<GridPos>,
                      order: seq<GridPos>, parents: seq<GridPos>)
    requires WellFormed(start, height, width)
    requires FloodTrail(start, top, height, width, seeds, stack + [center], order, parents)
    requires OnlyOpensSafe(start, top) && WellFormed(top, height, width)
    requires OpenedFrom(top, now, height, width, pushed)
    requires InBounds(height, width, center) && NBombs(top, height, width, center) == 0
    requires forall m :: 0 <= m < |pushed| ==> Some(pushed[m]) in Neighbors(height, width, center)
    ensures FloodTrail(start, now, height, width, seeds, stack + pushed, order + pushed,
                       parents + Repeat(center, |pushed|))
  {
    var full := stack + [center];
    assert full[|stack|] == center;
    OpeningKeepsCounts(start, top, height, width, center);
    forall m | 0 <= m < |pushed|
      ensures InBounds(height, width, pushed[m]) && Cell(start, height, width, pushed[m]) == SecretSafe
    {
      OpensSafeAt(start, top, height, width, pushed[m]);
    }
    TrailExtends(start, height, width, seeds, order, parents, center, pushed);
    var order' := order + pushed;
    forall j | 0 <= j < |order'|
      ensures Cell(now, height, width, order'[j]) == Opened
    {
      if j < |order| {
        assert order'[j] == order[j];
        OpensSafeAt(top, now, height, width, order[j]);
      } else {
        assert order'[j] == pushed[j - |order|];
      }
    }
    forall p | InBounds(height, width, p) && Cell(now, height, width, p) != Cell(start, height, width, p)
      ensures p in order'
    {
      OpensSafeAt(top, now, height, width, p);
      if Cell(now, height, width, p) != Cell(top, height, width, p) {
        assert p in pushed;
      } else {
        assert p in order;
      }
    }
    var next := stack + pushed;
    forall k | 0 <= k < |next| ensures next[k] in seeds || next[k] in order'
    {
      if k < |stack| {
        assert next[k] == full[k];
      } else {
        assert next[k] == pushed[k - |stack|];
      }
    }
  }

  /** The whole state of the flood loop: its invariant and its trail. */
  ghost predicate FloodState(start: seq<CellState>, now: seq<CellState>, height: nat, width: nat,
                             seeds: seq<GridPos>, stack: seq<GridPos>, popped: set<GridPos>,
                             order: seq<GridPos>, parents: seq<GridPos>)
    requires WellFormed(start, height, width)
  {
    FloodInvariant(start, now, height, width, seeds, stack, popped) &&
    FloodTrail(start, now, height, width, seeds, stack, order, parents)
  }

  /** The flood loop starts from its seeds, with nothing popped and an empty trail. */
  lemma FloodBegins(start: seq<CellState>, height: nat, width: nat, seeds: seq<GridPos>)
    requires WellFormed(start, height, width)
    requires forall k :: 0 <= k < |seeds| ==>
               InBounds(height, width, seeds[k]) && Cell(start, height, width, seeds[k]) == Opened
    ensures FloodState(start, start, height, width, seeds, seeds, {}, [], [])
  {
    FloodStarts(start, height, width, seeds);
    TrailStarts(start, height, width, seeds);
  }

  /**
   * One iteration of the flood loop: `center` is popped; when it has no
   * neighbouring mine its concealed safe neighbours are opened and pushed as
   * `pushed`, and otherwise nothing changes.
   */
  lemma FloodStep(start: seq<CellState>, top: seq<CellState>, now: seq<CellState>, height: nat, width: nat,
                  seeds: seq<GridPos>, stack: seq<GridPos>, popped: set<GridPos>, center: GridPos,
                  pushed: seq<GridPos>, order: seq<GridPos>, parents: seq<GridPos>)
    requires WellFormed(start, height, width)
    requires FloodState(start, top, height, width, seeds, stack + [center], popped, order, parents)
    requires WellFormed(top, height, width) && InBounds(height, width, center)
    requires NBombs(top, height, width, center) != 0 ==> now == top && pushed == []
    requires NBombs(top, height, width, center) == 0 ==>
               OpenedFrom(top, now, height, width, pushed) &&
               (forall m :: 0 <= m < |pushed| ==> Some(pushed[m]) in Neighbors(height, width, center)) &&
               NoSecretSafeNeighbor(now, height, width, center)
    ensures FloodState(start, now, height, width, seeds, stack + pushed, popped + {center},
                       order + pushed, parents + Repeat(center, |pushed|))
  {
    if NBombs(top, height, width, center) == 0 {
      FloodPopsZero(start, top, now, height, width, seeds, stack, popped, center, pushed);
      TrailPopsZero(start, top, now, height, width, seeds, stack, center, pushed, order, parents);
    } else {
      assert stack + pushed == stack && order + pushed == order && parents + Repeat(center, |pushed|) == parents;
      FloodPopsCounted(start, now, height, width, seeds, stack, popped, center);
      TrailPopsCounted(start, now, height, width, seeds, stack, center, order, parents);
    }
  }

  /** When the stack is empty, the flood has done what `FloodSpec` says. */
  lemma FloodEnds(start: seq<CellState>, now: seq<CellState>, height: nat, width: nat,
                  seeds: seq<GridPos>, popped: set<GridPos>, order: seq<GridPos>, parents: seq<GridPos>)
    requires WellFormed(start, height, width)
    requires FloodState(start, now, height, width, seeds, [], popped, order, parents)
    ensures FloodSpec(start, now, height, width, seeds)
  {
  }

  /**
   * Every cell on a trail of `before` is opened on any board the flood from
   * the same seeds may leave: the trail's first `n` cells, by induction on `n`.
   */
  lemma {:induction false} TrailOpensIn(before: seq<CellState>, b: seq<CellState>, height: nat, width: nat,
                                        seeds: seq<GridPos>, order: seq<GridPos>, parents: seq<GridPos>, n: nat)
    requires WellFormed(before, height, width) && FloodCloses(before, b, height, width, seeds)
    requires Trail(before, height, width, seeds, order, parents) && n <= |order|
    ensures WellFormed(b, height, width)
    ensures forall j :: 0 <= j < n ==> Cell(b, height, width, order[j]) == Opened
  {
    if n > 0 {
      TrailOpensIn(before, b, height, width, seeds, order, parents, n - 1);
      TrailParentClosed(before, b, height, width, seeds, order, parents, n - 1);
      ClosedNeighborOpened(before, b, height, width, parents[n - 1], order[n - 1]);
    }
  }

  /** The parent of a trail cell is closed in `b` once the earlier trail cells are opened there. */
  lemma TrailParentClosed(before: seq<CellState>, b: seq<CellState>, height: nat, width: nat,
                          seeds: seq<GridPos>, order: seq<GridPos>, parents: seq<GridPos>, j: nat)
    requires WellFormed(before, height, width) && WellFormed(b, height, width)
    requires FloodCloses(before, b, height, width, seeds)
    requires Trail(before, height, width, seeds, order, parents) && j < |order|
    requires forall i :: 0 <= i < j ==> Cell(b, height, width, order[i]) == Opened
    ensures InBounds(height, width, parents[j]) && Closed(b, height, width, parents[j])
  {
    var c := parents[j];
    assert c in seeds || c in order[..j];
    if c in seeds {
      var k :| 0 <= k < |seeds| && seeds[k] == c;
    } else {
      var i :| 0 <= i < j && order[..j][i] == c;
      assert order[i] == c;
      assert Cell(before, height, width, c) == SecretSafe && Cell(b, height, width, c) == Opened;
    }
  }

  /** A concealed safe neighbour of a cell that stays closed with no neighbouring mine gets opened. */
  lemma ClosedNeighborOpened(before: seq<CellState>, b: seq<CellState>, height: nat, width: nat,
                             c: GridPos, q: GridPos)
    requires WellFormed(before, height, width) && WellFormed(b, height, width)
    requires OnlyOpensSafe(before, b) && InBounds(height, width, c) && InBounds(height, width, q)
    requires Closed(b, height, width, c) && NBombs(before, height, width, c) == 0
    requires Some(q) in Neighbors(height, width, c) && Cell(before, height, width, q) == SecretSafe
    ensures Cell(b, height, width, q) == Opened
  {
    OpeningKeepsCounts(before, b, height, width, c);
    var r := Neighbors(height, width, c);
    var k :| 0 <= k < |r| && r[k] == Some(q);
    assert Cell(b, height, width, q) != SecretSafe;
    OpensSafeAt(before, b, height, width, q);
  }

  /** Every cell a flood opened is opened by any flood from the same seeds. */
  lemma FloodOpensShared(before: seq<CellState>, a: seq<CellState>, b: seq<CellState>, height: nat, width: nat,
                         seeds: seq<GridPos>, p: GridPos)
    requires WellFormed(before, height, width) && InBounds(height, width, p)
    requires FloodSpec(before, a, height, width, seeds) && FloodSpec(before, b, height, width, seeds)
    requires Cell(a, height, width, p) != Cell(before, height, width, p)
    ensures WellFormed(b, height, width) && Cell(b, height, width, p) == Opened
  {
    var order, parents :| OpensAlong(before, a, height, width, seeds, order, parents);
    TrailOpensIn(before, b, height, width, seeds, order, parents, |order|);
    var j :| 0 <= j < |order| && order[j] == p;
  }

  /**
   * The flood's result does not depend on the order in which it visits cells:
   * `FloodSpec` determines the board.
   */
  lemma FloodUnique(before: seq<CellState>, a: seq<CellState>, b: seq<CellState>, height: nat, width: nat,
                    seeds: seq<GridPos>)
    requires WellFormed(before, height, width)
    requires FloodSpec(before, a, height, width, seeds) && FloodSpec(before, b, height, width, seeds)
    ensures a == b
  {
    AllPositionsRowMajor(height, width);
    var ps := AllPositions(height, width);
    forall i | 0 <= i < |a| ensures a[i] == b[i]
    {
      var p := ps[i];
      assert InBounds(height, width, p) && Idx(height, width, p) == i;
      if a[i] != before[i] {
        FloodOpensShared(before, a, b, height, width, seeds, p);
      } else if b[i] != before[i] {
        FloodOpensShared(before, b, a, height, width, seeds, p);
      }
    }
  }

  // ---------------------------------------------------------------------------
  // The initial flood stack

  /** The cells in the present slots of `nbrs` that are Opened, in slot order. */
  function OpenedAmong(cells: seq<CellState>, height: nat, width: nat, nbrs: seq<Option<GridPos>>): (s: seq<GridPos>)
    requires WellFormed(cells, height, width) && AllOnBoard(height, width, nbrs)
    ensures forall k :: 0 <= k < |s| ==> InBounds(height, width, s[k]) && Cell(cells, height, width, s[k]) == Opened
    ensures forall q :: Some(q) in nbrs && InBounds(height, width, q) && Cell(cells, height, width, q) == Opened ==> q in s
    ensures forall q :: q in s ==> Some(q) in nbrs
  {
    if nbrs == [] then []
    else
      assert forall k :: 1 <= k < |nbrs| ==> nbrs[k] == nbrs[1..][k - 1];
      (if nbrs[0].Some? && Cell(cells, height, width, nbrs[0].value) == Opened then [nbrs[0].value] else [])
      + OpenedAmong(cells, height, width, nbrs[1..])
  }

  /**
   * The stack `flood` starts from: the cell itself when it has just been opened,
   * its opened neighbours when it has just been flagged.
   */
  function Seeds(cells: seq<CellState>, height: nat, width: nat, pos: GridPos): (s: seq<GridPos>)
    requires WellFormed(cells, height, width) && InBounds(height, width, pos)
    requires Cell(cells, height, width, pos) == Opened || Cell(cells, height, width, pos) == Flagged
    ensures forall k :: 0 <= k < |s| ==> InBounds(height, width, s[k]) && Cell(cells, height, width, s[k]) == Opened
    ensures Cell(cells, height, width, pos) == Opened ==> pos in s
    ensures Cell(cells, height, width, pos) == Flagged ==>
              forall q :: q in s <==> Some(q) in Neighbors(height, width, pos) && InBounds(height, width, q)
                                      && Cell(cells, height, width, q) == Opened
  {
    if Cell(cells, height, width, pos) == Opened then [pos]
    else OpenedAmong(cells, height, width, Neighbors(height, width, pos))
  }

  // ---------------------------------------------------------------------------
  // Whole-board queries

  /** The cells of row `row`, columns 0 up to `cols`, left to right. */
  function RowPositions(row: nat, cols: nat): (ps: seq<GridPos>)
    ensures |ps| == cols
    ensures forall k :: 0 <= k < cols ==> ps[k] == GridPos(row, k)
  {
    if cols == 0 then [] else RowPositions(row, cols - 1) + [GridPos(row, cols - 1)]
  }

  /** The cells of rows 0 up to `rows`, in row-major order. */
  function RowsPositions(rows: nat, width: nat): (ps: seq<GridPos>)
    ensures |ps| == rows * width
  {
    if rows == 0 then [] else RowsPositions(rows - 1, width) + RowPositions(rows - 1, width)
  }

  /** Every position of the board, in the row-major order of the source's nested loops. */
  function AllPositions(height: nat, width: nat): seq<GridPos> {
    RowsPositions(height, width)
  }

  /** Entry k of the row-major list is the cell whose address is k. */
  lemma {:induction false} RowsPositionsRowMajor(rows: nat, width: nat)
    ensures forall k :: 0 <= k < rows * width ==>
              InBounds(rows, width, RowsPositions(rows, width)[k]) && Idx(rows, width, RowsPositions(rows, width)[k]) == k
  {
    if rows > 0 {
      RowsPositionsRowMajor(rows - 1, width);
      var ps := RowsPositions(rows, width);
      var front := RowsPositions(rows - 1, width);
      var last := RowPositions(rows - 1, width);
      assert ps == front + last;
      assert |front| == (rows - 1) * width;
      assert rows * width == (rows - 1) * width + width;
      forall k | 0 <= k < |ps| ensures InBounds(rows, width, ps[k]) && Idx(rows, width, ps[k]) == k {
        if k < |front| {
          assert ps[k] == front[k];
          assert InBounds(rows - 1, width, front[k]) && Idx(rows - 1, width, front[k]) == k;
        } else {
          assert ps[k] == last[k - |front|] == GridPos(rows - 1, k - |front|);
        }
      }
    }
  }

  /** The list visits every cell of the board exactly once, in row-major order. */
  lemma AllPositionsRowMajor(height: nat, width: nat)
    ensures |AllPositions(height, width)| == height * width
    ensures forall k :: 0 <= k < height * width ==>
              InBounds(height, width, AllPositions(height, width)[k]) && Idx(height, width, AllPositions(height, width)[k]) == k
    ensures forall p :: InBounds(height, width, p) ==> AllPositions(height, width)[Idx(height, width, p)] == p
  {
    RowsPositionsRowMajor(height, width);
    var ps := AllPositions(height, width);
    assert ps == RowsPositions(height, width);
    forall p | InBounds(height, width, p) ensures ps[Idx(height, width, p)] == p {
      var i := Idx(height, width, p);
      IdxInjective(height, width, ps[i], p);
    }
  }

  /** `is_win`: every cell, visited in row-major order, is Opened or Flagged. */
  predicate IsWin(cells: seq<CellState>, height: nat, width: nat): (won: bool)
    requires WellFormed(cells, height, width)
    ensures won <==> forall p :: InBounds(height, width, p) ==> IsResolved(Cell(cells, height, width, p))
  {
    var ps := AllPositions(height, width);
    AllPositionsRowMajor(height, width);
    forall k :: 0 <= k < |ps| && InBounds(height, width, ps[k]) ==> IsResolved(Cell(cells, height, width, ps[k]))
  }

  /** The game is won exactly when no cell is concealed or exploded. */
  lemma IsWinIff(cells: seq<CellState>, height: nat, width: nat)
    requires WellFormed(cells, height, width)
    ensures IsWin(cells, height, width) <==> forall i :: 0 <= i < |cells| ==> IsResolved(cells[i])
  {
    AllPositionsRowMajor(height, width);
    var ps := AllPositions(height, width);
    if IsWin(cells, height, width) {
      forall i | 0 <= i < |cells| ensures IsResolved(cells[i]) {
        assert InBounds(height, width, ps[i]) && Idx(height, width, ps[i]) == i;
      }
    }
  }

  /** Some cell records a losing move. */
  predicate HasExploded(cells: seq<CellState>) {
    exists i :: 0 <= i < |cells| && IsExploded(cells[i])
  }

  /** A board with an exploded cell is never a win, so a loss is never turned into a win. */
  lemma ExplodedIsNotWin(cells: seq<CellState>, height: nat, width: nat)
    requires WellFormed(cells, height, width) && HasExploded(cells)
    ensures !IsWin(cells, height, width)
  {
    IsWinIff(cells, height, width);
  }

  // ---------------------------------------------------------------------------
  // The start position

  /** A concealed safe cell none of whose neighbours is a counted mine. */
  predicate IsZeroCell(cells: seq<CellState>, height: nat, width: nat, pos: GridPos)
    requires WellFormed(cells, height, width) && InBounds(height, width, pos)
  {
    Cell(cells, height, width, pos) == SecretSafe && NBombs(cells, height, width, pos) == 0
  }

  /** The cells of row `row` in columns 0 up to `cols` that pass `isZero`, left to right. */
  function RowZeros(isZero: GridPos -> bool, row: nat, cols: nat): seq<GridPos> {
    if cols == 0 then []
    else
      var pos := GridPos(row, cols - 1);
      RowZeros(isZero, row, cols - 1) + (if isZero(pos) then [pos] else [])
  }

  /** The cells of rows 0 up to `rows` that pass `isZero`, in row-major order. */
  function RowsZeros(isZero: GridPos -> bool, width: nat, rows: nat): seq<GridPos> {
    if rows == 0 then []
    else RowsZeros(isZero, width, rows - 1) + RowZeros(isZero, rows - 1, width)
  }

  /** The test `start` applies to each cell of the board. */
  function ZeroTest(cells: seq<CellState>, height: nat, width: nat): GridPos -> bool
    requires WellFormed(cells, height, width)
  {
    pos => InBounds(height, width, pos) && IsZeroCell(cells, height, width, pos)
  }

  /** On the board, the test is the condition `start` checks: concealed safe, and no neighbouring mine. */
  lemma ZeroTestAt(cells: seq<CellState>, height: nat, width: nat, pos: GridPos)
    requires WellFormed(cells, height, width) && InBounds(height, width, pos)
    ensures ZeroTest(cells, height, width)(pos) <==>
              Cell(cells, height, width, pos) == SecretSafe && NBombs(cells, height, width, pos) == 0
  {
  }

  /** `zero_positions` of `start`: the zero cells of the board in row-major order. */
  function ZeroPositions(cells: seq<CellState>, height: nat, width: nat): seq<GridPos>
    requires WellFormed(cells, height, width)
  {
    RowsZeros(ZeroTest(cells, height, width), width, height)
  }

  /** A cell is collected from a row prefix exactly when it lies there and passes the test. */
  lemma {:induction false} RowZerosIff(isZero: GridPos -> bool, row: nat, cols: nat, q: GridPos)
    ensures q in RowZeros(isZero, row, cols) ==> q.row == row && q.col < cols
    ensures q.row == row && q.col < cols ==> (q in RowZeros(isZero, row, cols) <==> isZero(q))
  {
    if cols > 0 {
      RowZerosIff(isZero, row, cols - 1, q);
    }
  }

  /** A cell is collected from the first `rows` rows exactly when it is collected from its own row, one of them. */
  lemma {:induction false} RowsZerosByRow(isZero: GridPos -> bool, width: nat, rows: nat, q: GridPos)
    ensures q in RowsZeros(isZero, width, rows) <==> q.row < rows && q in RowZeros(isZero, q.row, width)
  {
    if rows > 0 {
      var front := RowsZeros(isZero, width, rows - 1);
      var last := RowZeros(isZero, rows - 1, width);
      assert RowsZeros(isZero, width, rows) == front + last;
      RowsZerosByRow(isZero, width, rows - 1, q);
      RowZerosIff(isZero, rows - 1, width, q);
      if q.row + 1 < rows {
        assert q !in last;
      } else if q.row + 1 == rows {
        assert q !in front;
      } else {
        assert q !in front && q !in last;
      }
    }
  }

  /** A cell is listed in `zero_positions` exactly when it is a zero cell of the board. */
  lemma ZeroPositionsIff(cells: seq<CellState>, height: nat, width: nat, q: GridPos)
    requires WellFormed(cells, height, width)
    ensures q in ZeroPositions(cells, height, width) <==> InBounds(height, width, q) && IsZeroCell(cells, height, width, q)
  {
    var isZero := ZeroTest(cells, height, width);
    RowsZerosByRow(isZero, width, height, q);
    RowZerosIff(isZero, q.row, width, q);
  }

  /** The board the first loop of `start` writes from a row-major mine layout. */
  function Layout(mines: seq<bool>): seq<CellState> {
    seq(|mines|, i requires 0 <= i < |mines| => if mines[i] then SecretBomb else SecretSafe)
  }

  /** Where the mines are, whatever the player has done to them. */
  function MineLayout(cells: seq<CellState>): seq<bool> {
    seq(|cells|, i requires 0 <= i < |cells| => HoldsMine(cells[i]))
  }

  /** The layout `start` lays is the layout it was given; no cell of it is opened or exploded. */
  lemma LayoutRoundTrip(mines: seq<bool>)
    ensures MineLayout(Layout(mines)) == mines
    ensures forall i :: 0 <= i < |mines| ==> Layout(mines)[i] == SecretSafe || Layout(mines)[i] == SecretBomb
  {
  }
}
