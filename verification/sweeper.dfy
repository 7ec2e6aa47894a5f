/**
 * The grid object: a row-major array of cell states that the moves update in
 * place. `Get` and `Set` are the indexing operators; `Flood`, `Open`, `Flag` and
 * `Start` are proved against the relations of module Moves.
 */
module Sweeper {
  import opened Cells
  import opened Topology
  import opened Board
  import opened Moves

  class Grid {
    const height: nat
    const width: nat
    const storage: array<CellState>

    ghost predicate Valid() {
      height >= 1 && width >= 1 && storage.Length == height * width
    }

    /** `grid[pos]`: the cell stored at address row * width + col. */
    function Get(pos: GridPos): (c: CellState)
      requires Valid() && InBounds(height, width, pos)
      reads storage
      ensures c == Cell(storage[..], height, width, pos)
    {
      storage[Idx(height, width, pos)]
    }

    /** `grid[pos] = v`: writes that one cell and no other. */
    method Set(pos: GridPos, v: CellState)
      requires Valid() && InBounds(height, width, pos)
      modifies storage
      ensures storage[..] == old(storage[..])[Idx(height, width, pos) := v]
    {
      storage[Idx(height, width, pos)] := v;
    }

    /**
     * `Grid::new`: a grid of the given size, filled with ExplodedSafe, then started
     * with the given mine layout and start choice.
     */
    constructor (height: nat, width: nat, mines: seq<bool>, choice: nat)
      requires height >= 1 && width >= 1 && |mines| == height * width
      requires choice < |ZeroPositions(Layout(mines), height, width)|
      ensures Valid() && fresh(storage)
      ensures this.height == height && this.width == width
      ensures StartOutcome(mines, choice, storage[..], height, width)
    {
      this.height := height;
      this.width := width;
      storage := new CellState[height * width](_ => ExplodedSafe);
      new;
      Start(mines, choice);
    }

    /**
     * `flood`: depth-first from the stack `Seeds`, pop an opened cell and, when
     * no neighbour is a mine, open and push each concealed safe neighbour.
     */
    method Flood(pos: GridPos)
      requires Valid() && InBounds(height, width, pos)
      requires Get(pos) == Opened || Get(pos) == Flagged
      requires NoExplodedSafe(storage[..])
      modifies storage
      ensures FloodSpec(old(storage[..]), storage[..], height, width, Seeds(old(storage[..]), height, width, pos))
    {
      ghost var start := storage[..];
      var toFlood := Seeds(storage[..], height, width, pos);
      ghost var seeds := toFlood;
      ghost var popped: set<GridPos> := {};
      ghost var order: seq<GridPos> := [];
      ghost var parents: seq<GridPos> := [];
      FloodBegins(start, height, width, seeds);
      while toFlood != []
        invariant FloodState(start, storage[..], height, width, seeds, toFlood, popped, order, parents)
        decreases CountSafe(storage[..]), |toFlood|
      {
        ghost var top := storage[..];
        FloodTop(start, top, height, width, seeds, toFlood, popped);
        var center := toFlood[|toFlood| - 1];
        toFlood := toFlood[..|toFlood| - 1];
        assert Get(center) == Opened;
        var pushed := [];
        if NBombs(storage[..], height, width, center) == 0 {
          pushed := OpenAround(center);
        }
        FloodStep(start, top, storage[..], height, width, seeds, toFlood, popped, center, pushed, order, parents);
        toFlood := toFlood + pushed;
        popped := popped + {center};
        order := order + pushed;
        parents := parents + Repeat(center, |pushed|);
      }
      FloodEnds(start, storage[..], height, width, seeds, popped, order, parents);
    }

    /**
     * The inner loop of `flood` for a popped cell with no neighbouring mine: every
     * concealed safe neighbour is opened and pushed, in neighbour order. No
     * neighbour can be a mine or exploded, which are the `unreachable!()` arms.
     */
    method OpenAround(center: GridPos) returns (pushed: seq<GridPos>)
      requires Valid() && InBounds(height, width, center)
      requires NBombs(storage[..], height, width, center) == 0
      requires NoExplodedSafe(storage[..])
      modifies storage
      ensures OpenedFrom(old(storage[..]), storage[..], height, width, pushed)
      ensures forall j :: 0 <= j < |pushed| ==> Some(pushed[j]) in Neighbors(height, width, center)
      ensures NoSecretSafeNeighbor(storage[..], height, width, center)
    {
      ghost var start := storage[..];
      var nbrs := Neighbors(height, width, center);
      NoMineNextToZero(start, height, width, center);
      pushed := [];
      var k := 0;
      while k < |nbrs|
        invariant 0 <= k <= |nbrs|
        invariant OpenedFrom(start, storage[..], height, width, pushed)
        invariant forall j :: 0 <= j < |pushed| ==> Some(pushed[j]) in nbrs
        invariant forall j :: 0 <= j < k && nbrs[j].Some? ==> Cell(storage[..], height, width, nbrs[j].value) != SecretSafe
      {
        ghost var prev := storage[..];
        if nbrs[k].Some? {
          var q := nbrs[k].value;
          OpensSafeAt(start, prev, height, width, q);
          var revealed := OpenNeighbor(q);
          if revealed {
            OpenOneStep(start, prev, height, width, q, pushed);
            assert nbrs[k] in nbrs;
            pushed := pushed + [q];
          }
          assert Get(q) != SecretSafe;
        }
        StaysRevealed(prev, storage[..], height, width, nbrs, k);
        k := k + 1;
      }
    }

    /** Cells already not concealed-safe stay so, and the one just visited is added to them. */
    static lemma StaysRevealed(prev: seq<CellState>, now: seq<CellState>, height: nat, width: nat,
                               nbrs: seq<Option<GridPos>>, k: nat)
      requires WellFormed(prev, height, width) && OnlyOpensSafe(prev, now) && k < |nbrs|
      requires forall j :: 0 <= j < |nbrs| && nbrs[j].Some? ==> InBounds(height, width, nbrs[j].value)
      requires forall j :: 0 <= j < k && nbrs[j].Some? ==> Cell(prev, height, width, nbrs[j].value) != SecretSafe
      requires nbrs[k].Some? ==> Cell(now, height, width, nbrs[k].value) != SecretSafe
      ensures forall j :: 0 <= j <= k && nbrs[j].Some? ==> Cell(now, height, width, nbrs[j].value) != SecretSafe
    {
      forall j | 0 <= j < k && nbrs[j].Some?
        ensures Cell(now, height, width, nbrs[j].value) != SecretSafe
      {
        OpensSafeAt(prev, now, height, width, nbrs[j].value);
      }
    }

    /**
     * The body of that inner loop for one neighbour: a concealed safe cell is
     * opened, an opened or flagged one is left alone.
     */
    method OpenNeighbor(q: GridPos) returns (revealed: bool)
      requires Valid() && InBounds(height, width, q)
      requires Get(q) != SecretBomb && Get(q) != ExplodedSafe && Get(q) != ExplodedBomb
      modifies storage
      ensures revealed <==> old(Get(q)) == SecretSafe
      ensures storage[..] == if revealed then old(storage[..])[Idx(height, width, q) := Opened] else old(storage[..])
    {
      match Get(q) {
        case SecretSafe =>
          Set(q, Opened);
          revealed := true;
        case Opened =>
          revealed := false;
        case Flagged =>
          revealed := false;
      }
    }

    /** `open`: returns whether the move exploded. */
    method Open(pos: GridPos) returns (exploded: bool)
      requires Valid() && InBounds(height, width, pos)
      requires NoExplodedSafe(storage[..])
      modifies storage
      ensures OpenOutcome(old(storage[..]), storage[..], height, width, pos, exploded)
    {
      match Get(pos)
      case SecretBomb =>
        Set(pos, ExplodedBomb);
        exploded := true;
      case SecretSafe =>
        Set(pos, Opened);
        Flood(pos);
        exploded := false;
      case _ =>
        exploded := false;
    }

    /** `flag`: returns whether the move exploded. */
    method Flag(pos: GridPos) returns (exploded: bool)
      requires Valid() && InBounds(height, width, pos)
      requires NoExplodedSafe(storage[..])
      modifies storage
      ensures FlagOutcome(old(storage[..]), storage[..], height, width, pos, exploded)
    {
      match Get(pos)
      case SecretBomb =>
        Set(pos, Flagged);
        Flood(pos);
        exploded := false;
      case SecretSafe =>
        Set(pos, ExplodedSafe);
        exploded := true;
      case _ =>
        exploded := false;
    }

    /**
     * `start`: write every cell from the mine layout, collect the zero cells in
     * row-major order, and open the chosen one, which cannot explode.
     */
    method Start(mines: seq<bool>, choice: nat)
      requires Valid() && |mines| == height * width
      requires choice < |ZeroPositions(Layout(mines), height, width)|
      modifies storage
      ensures StartOutcome(mines, choice, storage[..], height, width)
    {
      LayMines(mines);
      var zeroPositions := CollectZeros();
      LayoutRoundTrip(mines);
      var pos := zeroPositions[choice];
      assert pos == StartCell(mines, height, width, choice);
      var exploded := Open(pos);
      assert !exploded;
    }

    /** The first loop of `start`: cell `row * width + col` becomes a mine exactly when the layout says so. */
    method LayMines(mines: seq<bool>)
      requires Valid() && |mines| == height * width
      modifies storage
      ensures storage[..] == Layout(mines)
    {
      var row := 0;
      while row < height
        invariant 0 <= row <= height
        invariant forall i :: 0 <= i < row * width && i < storage.Length ==> storage[i] == Layout(mines)[i]
      {
        MulMono(row + 1, height, width);
        var col := 0;
        while col < width
          invariant 0 <= col <= width
          invariant forall i :: 0 <= i < row * width + col && i < storage.Length ==> storage[i] == Layout(mines)[i]
        {
          var pos := GridPos(row, col);
          Set(pos, if mines[Idx(height, width, pos)] then SecretBomb else SecretSafe);
          col := col + 1;
        }
        assert row * width + width == (row + 1) * width;
        row := row + 1;
      }
    }

    /** The second loop of `start`: the zero cells of the whole board, in row-major order. */
    method CollectZeros() returns (zeroPositions: seq<GridPos>)
      requires Valid()
      ensures zeroPositions == ZeroPositions(storage[..], height, width)
    {
      zeroPositions := [];
      var row := 0;
      while row < height
        invariant 0 <= row <= height
        invariant zeroPositions == RowsZeros(ZeroTest(storage[..], height, width), width, row)
      {
        var rowZeros := CollectRowZeros(row);
        zeroPositions := zeroPositions + rowZeros;
        row := row + 1;
      }
    }

    /** One row of the second loop of `start`: the zero cells of row `row`, left to right. */
    method CollectRowZeros(row: nat) returns (rowZeros: seq<GridPos>)
      requires Valid() && row < height
      ensures rowZeros == RowZeros(ZeroTest(storage[..], height, width), row, width)
    {
      ghost var isZero := ZeroTest(storage[..], height, width);
      rowZeros := [];
      var col := 0;
      while col < width
        invariant 0 <= col <= width
        invariant rowZeros == RowZeros(isZero, row, col)
      {
        var pos := GridPos(row, col);
        var nBombs := NBombs(storage[..], height, width, pos);
        ZeroTestAt(storage[..], height, width, pos);
        if Get(pos) == SecretSafe && nBombs == 0 {
          rowZeros := rowZeros + [pos];
        }
        col := col + 1;
      }
    }
  }
}
