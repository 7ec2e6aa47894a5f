/**
 * Coordinates on a bounded rectangular board and the 8-neighbourhood of a cell.
 * Every direction yields None where it would step off an edge; there is no wrap-around.
 */
module Topology {

  datatype Option<T> = None | Some(value: T)

  /** A cell coordinate, row and column both counted from zero. */
  datatype GridPos = GridPos(row: nat, col: nat)

  predicate InBounds(height: nat, width: nat, pos: GridPos) {
    pos.row < height && pos.col < width
  }

  function Dist(a: nat, b: nat): nat {
    if a <= b then b - a else a - b
  }

  /** Chebyshev (king-move) distance between two cells. */
  function Chebyshev(p: GridPos, q: GridPos): nat {
    var dr := Dist(p.row, q.row);
    var dc := Dist(p.col, q.col);
    if dr <= dc then dc else dr
  }

  /** The cell one row up, None on the top row. */
  function Above(pos: GridPos): (r: Option<GridPos>)
    ensures r.Some? <==> pos.row > 0
    ensures r.Some? ==> r.value.row + 1 == pos.row && r.value.col == pos.col
  {
    if pos.row == 0 then None else Some(GridPos(pos.row - 1, pos.col))
  }

  /** The cell one row down, None on the bottom row (and below it). */
  function Below(height: nat, pos: GridPos): (r: Option<GridPos>)
    requires height >= 1  // `height - 1` is an unsigned subtraction
    ensures r.Some? <==> pos.row + 1 < height
    ensures r.Some? ==> r.value.row == pos.row + 1 && r.value.col == pos.col
  {
    if pos.row >= height - 1 then None else Some(GridPos(pos.row + 1, pos.col))
  }

  /** The cell one column to the left, None in the first column. */
  function Left(pos: GridPos): (r: Option<GridPos>)
    ensures r.Some? <==> pos.col > 0
    ensures r.Some? ==> r.value.row == pos.row && r.value.col + 1 == pos.col
  {
    if pos.col == 0 then None else Some(GridPos(pos.row, pos.col - 1))
  }

  /** The cell one column to the right, None in the last column (and right of it). */
  function Right(width: nat, pos: GridPos): (r: Option<GridPos>)
    requires width >= 1  // `width - 1` is an unsigned subtraction
    ensures r.Some? <==> pos.col + 1 < width
    ensures r.Some? ==> r.value.row == pos.row && r.value.col == pos.col + 1
  {
    if pos.col >= width - 1 then None else Some(GridPos(pos.row, pos.col + 1))
  }

  /** `p.and_then(left)` */
  function LeftOf(p: Option<GridPos>): Option<GridPos> {
    match p
    case None => None
    case Some(q) => Left(q)
  }

  /** `p.and_then(right)` */
  function RightOf(width: nat, p: Option<GridPos>): Option<GridPos>
    requires width >= 1
  {
    match p
    case None => None
    case Some(q) => Right(width, q)
  }

  /**
   * The eight neighbour slots of `pos`, in the order above, below, left, right,
   * above-left, above-right, below-left, below-right. Every present neighbour is a
   * different cell at king-move distance one, and lies on the board when `pos` does.
   */
  function Neighbors(height: nat, width: nat, pos: GridPos): (r: seq<Option<GridPos>>)
    requires height >= 1 && width >= 1
    ensures |r| == 8
    ensures forall k :: 0 <= k < |r| && r[k].Some? ==> Chebyshev(pos, r[k].value) == 1
    ensures InBounds(height, width, pos) ==>
              forall k :: 0 <= k < |r| && r[k].Some? ==> InBounds(height, width, r[k].value)
  {
    var above := Above(pos);
    var below := Below(height, pos);
    var left := Left(pos);
    var right := Right(width, pos);
    [above, below, left, right,
     LeftOf(above), RightOf(width, above), LeftOf(below), RightOf(width, below)]
  }

  function Present(o: Option<GridPos>): nat {
    if o.Some? then 1 else 0
  }

  /** The cells occupying the neighbour slots of `pos`. */
  function NeighborSet(height: nat, width: nat, pos: GridPos): set<GridPos>
    requires height >= 1 && width >= 1
  {
    var r := Neighbors(height, width, pos);
    set k | 0 <= k < |r| && r[k].Some? :: r[k].value
  }

  /** Every present slot of a list of neighbour slots lies on the board. */
  predicate AllOnBoard(height: nat, width: nat, r: seq<Option<GridPos>>) {
    forall k :: 0 <= k < |r| && r[k].Some? ==> InBounds(height, width, r[k].value)
  }

  /** Number of present entries in a list of neighbour slots. */
  function CountSome(r: seq<Option<GridPos>>): (n: nat)
    ensures n <= |r|
  {
    if r == [] then 0 else Present(r[0]) + CountSome(r[1..])
  }

  /** How many of the rows (or columns) x-1, x, x+1 exist on an axis of length n. */
  function Span(x: nat, n: nat): nat {
    (if x > 0 then 1 else 0) + 1 + (if x + 1 < n then 1 else 0)
  }

  lemma CountSomeUnrolled(r: seq<Option<GridPos>>)
    requires |r| == 8
    ensures CountSome(r) == Present(r[0]) + Present(r[1]) + Present(r[2]) + Present(r[3])
                          + Present(r[4]) + Present(r[5]) + Present(r[6]) + Present(r[7])
  {
    assert r[7..][1..] == [];
    assert CountSome(r[7..]) == Present(r[7]);
    assert r[6..][1..] == r[7..];
    assert CountSome(r[6..]) == Present(r[6]) + CountSome(r[7..]);
    assert r[5..][1..] == r[6..];
    assert CountSome(r[5..]) == Present(r[5]) + CountSome(r[6..]);
    assert r[4..][1..] == r[5..];
    assert CountSome(r[4..]) == Present(r[4]) + CountSome(r[5..]);
    assert r[3..][1..] == r[4..];
    assert CountSome(r[3..]) == Present(r[3]) + CountSome(r[4..]);
    assert r[2..][1..] == r[3..];
    assert CountSome(r[2..]) == Present(r[2]) + CountSome(r[3..]);
    assert r[1..][1..] == r[2..];
    assert CountSome(r[1..]) == Present(r[1]) + CountSome(r[2..]);
  }

  /** Every cell on the board at distance one from `pos` occupies one of its neighbour slots. */
  lemma NeighborsComplete(height: nat, width: nat, pos: GridPos, q: GridPos)
    requires height >= 1 && width >= 1
    requires InBounds(height, width, pos) && InBounds(height, width, q)
    requires Chebyshev(pos, q) == 1
    ensures Some(q) in Neighbors(height, width, pos)
  {
    var r := Neighbors(height, width, pos);
    if q.row + 1 == pos.row {
      if q.col + 1 == pos.col { assert r[4] == Some(q); }
      else if q.col == pos.col { assert r[0] == Some(q); }
      else { assert r[5] == Some(q); }
    } else if q.row == pos.row {
      if q.col + 1 == pos.col { assert r[2] == Some(q); }
      else { assert r[3] == Some(q); }
    } else {
      if q.col + 1 == pos.col { assert r[6] == Some(q); }
      else if q.col == pos.col { assert r[1] == Some(q); }
      else { assert r[7] == Some(q); }
    }
  }

  /**
   * For a cell on the board, the neighbours are exactly the cells on the board at
   * king-move distance one.
   */
  lemma NeighborSetIsAdjacency(height: nat, width: nat, pos: GridPos, q: GridPos)
    requires height >= 1 && width >= 1 && InBounds(height, width, pos)
    ensures q in NeighborSet(height, width, pos) <==> InBounds(height, width, q) && Chebyshev(pos, q) == 1
  {
    var r := Neighbors(height, width, pos);
    if InBounds(height, width, q) && Chebyshev(pos, q) == 1 {
      NeighborsComplete(height, width, pos, q);
      var k :| 0 <= k < |r| && r[k] == Some(q);
      assert r[k].value == q;
    }
  }

  /** No cell occupies two neighbour slots. */
  lemma NeighborsDistinct(height: nat, width: nat, pos: GridPos)
    requires height >= 1 && width >= 1
    ensures var r := Neighbors(height, width, pos);
            forall j, k :: 0 <= j < k < |r| && r[j].Some? && r[k].Some? ==> r[j].value != r[k].value
  {
  }

  /** Neighbourhood is symmetric: if q is a neighbour of p then p is a neighbour of q. */
  lemma NeighborsSymmetric(height: nat, width: nat, p: GridPos, q: GridPos)
    requires height >= 1 && width >= 1
    requires InBounds(height, width, p)
    requires Some(q) in Neighbors(height, width, p)
    ensures Some(p) in Neighbors(height, width, q)
  {
    var r := Neighbors(height, width, p);
    var k :| 0 <= k < |r| && r[k] == Some(q);
    NeighborsComplete(height, width, q, p);
  }

  /**
   * The number of neighbours is (rows available) * (columns available) - 1:
   * 3 in a corner, 5 along an edge, 8 inside.
   */
  lemma NeighborCount(height: nat, width: nat, pos: GridPos)
    requires height >= 1 && width >= 1 && InBounds(height, width, pos)
    ensures CountSome(Neighbors(height, width, pos)) == Span(pos.row, height) * Span(pos.col, width) - 1
  {
    var r := Neighbors(height, width, pos);
    CountSomeUnrolled(r);
    var a := if pos.row > 0 then 1 else 0;
    var b := if pos.row + 1 < height then 1 else 0;
    var l := if pos.col > 0 then 1 else 0;
    var rt := if pos.col + 1 < width then 1 else 0;
    calc {
      CountSome(r);
      a + b + l + rt + a * l + a * rt + b * l + b * rt;
      (1 + a + b) * (1 + l + rt) - 1;
    }
  }

  /** A corner of a board at least 2 by 2 has exactly three neighbours. */
  lemma CornerHasThreeNeighbors(height: nat, width: nat)
    requires height >= 2 && width >= 2
    ensures CountSome(Neighbors(height, width, GridPos(0, 0))) == 3
    ensures CountSome(Neighbors(height, width, GridPos(height - 1, width - 1))) == 3
  {
    NeighborCount(height, width, GridPos(0, 0));
    NeighborCount(height, width, GridPos(height - 1, width - 1));
  }

  /** A cell away from every edge has exactly eight neighbours. */
  lemma InteriorHasEightNeighbors(height: nat, width: nat, pos: GridPos)
    requires 0 < pos.row && pos.row + 1 < height
    requires 0 < pos.col && pos.col + 1 < width
    ensures CountSome(Neighbors(height, width, pos)) == 8
  {
    NeighborCount(height, width, pos);
  }
}
