/** The grid graph: cells with a colour-coded role, the 4-connected neighbour
    relation, grid construction and the pixel-to-cell mapping. */
module Grid {

  /** A (row, col) coordinate pair, or a pixel position in the same order. */
  type Pos = (int, int)

  function Abs(x: int): nat { if x < 0 then -x else x }

  /** Manhattan ("L") distance between two positions. */
  function Heuristic(p1: Pos, p2: Pos): (d: nat)
    ensures d == 0 <==> p1 == p2
    ensures d >= Abs(p1.0 - p2.0) && d >= Abs(p1.1 - p2.1)
  {
    Abs(p1.0 - p2.0) + Abs(p1.1 - p2.1)
  }

  lemma HeuristicSymmetric(p1: Pos, p2: Pos)
    ensures Heuristic(p1, p2) == Heuristic(p2, p1)
  {
  }

  lemma HeuristicTriangle(p1: Pos, p2: Pos, p3: Pos)
    ensures Heuristic(p1, p3) <= Heuristic(p1, p2) + Heuristic(p2, p3)
  {
  }

  /** One unit step changes the estimate by at most one: the heuristic is
      consistent for unit-cost moves on the 4-connected grid. */
  lemma HeuristicConsistent(p: Pos, q: Pos, goal: Pos)
    requires Heuristic(p, q) == 1
    ensures Heuristic(p, goal) <= 1 + Heuristic(q, goal)
    ensures Heuristic(q, goal) <= 1 + Heuristic(p, goal)
  {
    HeuristicTriangle(p, q, goal);
    HeuristicTriangle(q, p, goal);
    HeuristicSymmetric(p, q);
  }

  /** The colours a cell can carry; each colour stands for one role. */
  datatype Color =
    | White      // default, unvisited
    | Red        // checked: expanded by the search
    | Purple     // available: queued, waiting to be expanded
    | Black      // barrier
    | Orange     // start
    | Turquoise  // end
    | Green      // on the reconstructed path

  class Node {
    const row: nat
    const col: nat
    const totalRows: nat
    var color: Color
    var neighbors: seq<Node>

    constructor (row: nat, col: nat, totalRows: nat)
      ensures this.row == row && this.col == col && this.totalRows == totalRows
      ensures color == White && neighbors == []
    {
      this.row := row;
      this.col := col;
      this.totalRows := totalRows;
      color := White;
      neighbors := [];
    }

    function GetPos(): Pos { (row, col) }

    predicate Checked() reads this`color { color == Red }
    predicate Available() reads this`color { color == Purple }
    predicate Barrier() reads this`color { color == Black }
    predicate IsStart() reads this`color { color == Orange }
    predicate IsEnd() reads this`color { color == Turquoise }

    method SetChecked()
      modifies this`color
      ensures color == Red
      ensures Checked() && !Available() && !Barrier() && !IsStart() && !IsEnd()
    {
      color := Red;
    }

    method SetAvailable()
      modifies this`color
      ensures color == Purple
      ensures !Checked() && Available() && !Barrier() && !IsStart() && !IsEnd()
    {
      color := Purple;
    }

    method SetBarrier()
      modifies this`color
      ensures color == Black
      ensures !Checked() && !Available() && Barrier() && !IsStart() && !IsEnd()
    {
      color := Black;
    }

    method SetStart()
      modifies this`color
      ensures color == Orange
      ensures !Checked() && !Available() && !Barrier() && IsStart() && !IsEnd()
    {
      color := Orange;
    }

    method SetEnd()
      modifies this`color
      ensures color == Turquoise
      ensures !Checked() && !Available() && !Barrier() && !IsStart() && IsEnd()
    {
      color := Turquoise;
    }

    /** The path colour has no predicate of its own: a path cell answers no to all five. */
    method SetPath()
      modifies this`color
      ensures color == Green
      ensures !Checked() && !Available() && !Barrier() && !IsStart() && !IsEnd()
    {
      color := Green;
    }

    method Reset()
      modifies this`color
      ensures color == White
      ensures !Checked() && !Available() && !Barrier() && !IsStart() && !IsEnd()
    {
      color := White;
    }

    /** Rebuilds the neighbour list: down, up, right, left, each only when it is
        inside the grid and not a barrier. */
    method UpdateNeighbors(grid: seq<seq<Node>>)
      requires WellFormed(grid) && totalRows == |grid|
      requires row < |grid| && col < |grid|
      modifies this`neighbors
      ensures neighbors == OpenNeighbors(grid, row, col)
    {
      // The list is built locally and stored once; no other code runs in between.
      var ns: seq<Node> := [];
      if row < totalRows - 1 && !grid[row + 1][col].Barrier() {
        ns := ns + [grid[row + 1][col]];
      }
      if row > 0 && !grid[row - 1][col].Barrier() {
        ns := ns + [grid[row - 1][col]];
      }
      if col < totalRows - 1 && !grid[row][col + 1].Barrier() {
        ns := ns + [grid[row][col + 1]];
      }
      if col > 0 && !grid[row][col - 1].Barrier() {
        ns := ns + [grid[row][col - 1]];
      }
      neighbors := ns;
    }
  }

  /** A square grid of side |grid| in which grid[i][j] sits at (i, j). */
  predicate WellFormed(grid: seq<seq<Node>>) {
    && (forall i :: 0 <= i < |grid| ==> |grid[i]| == |grid|)
    && (forall i, j :: 0 <= i < |grid| && 0 <= j < |grid[i]| ==>
          grid[i][j].row == i && grid[i][j].col == j && grid[i][j].totalRows == |grid|)
  }

  function Cells(grid: seq<seq<Node>>): set<Node> {
    set i, j | 0 <= i < |grid| && 0 <= j < |grid[i]| :: grid[i][j]
  }

  lemma CellAt(grid: seq<seq<Node>>, n: Node)
    requires WellFormed(grid) && n in Cells(grid)
    ensures n.row < |grid| && n.col < |grid| && grid[n.row][n.col] == n
  {
  }

  /** The neighbour list that UpdateNeighbors computes for the cell at (row, col). */
  function OpenNeighbors(grid: seq<seq<Node>>, row: nat, col: nat): seq<Node>
    requires WellFormed(grid) && row < |grid| && col < |grid|
    reads Cells(grid)`color
  {
    var n := |grid|;
    (if row < n - 1 && !grid[row + 1][col].Barrier() then [grid[row + 1][col]] else [])
    + (if row > 0 && !grid[row - 1][col].Barrier() then [grid[row - 1][col]] else [])
    + (if col < n - 1 && !grid[row][col + 1].Barrier() then [grid[row][col + 1]] else [])
    + (if col > 0 && !grid[row][col - 1].Barrier() then [grid[row][col - 1]] else [])
  }

  /** Rank of the step from p to q in the fixed order down, up, right, left. */
  function Direction(p: Pos, q: Pos): nat {
    if q == (p.0 + 1, p.1) then 0
    else if q == (p.0 - 1, p.1) then 1
    else if q == (p.0, p.1 + 1) then 2
    else 3
  }

  /** Neighbour steps listed in strictly increasing order of direction. */
  ghost predicate InDirectionOrder(p: Pos, r: seq<Node>) {
    forall i, j :: 0 <= i < j < |r| ==> Direction(p, r[i].GetPos()) < Direction(p, r[j].GetPos())
  }

  /** m is in the neighbour list exactly when it is an in-grid, non-barrier cell at distance one. */
  lemma OpenNeighborsMember(grid: seq<seq<Node>>, row: nat, col: nat, m: Node)
    requires WellFormed(grid) && row < |grid| && col < |grid|
    ensures m in OpenNeighbors(grid, row, col) <==>
      m in Cells(grid) && Heuristic(m.GetPos(), (row, col)) == 1 && !m.Barrier()
  {
    if m in Cells(grid) && Heuristic(m.GetPos(), (row, col)) == 1 && !m.Barrier() {
      CellAt(grid, m);
    }
  }

  /** The neighbour list holds exactly the in-grid, non-barrier cells at distance
      one, at most four of them, in the order down, up, right, left. */
  lemma OpenNeighborsSpec(grid: seq<seq<Node>>, row: nat, col: nat)
    requires WellFormed(grid) && row < |grid| && col < |grid|
    ensures var r := OpenNeighbors(grid, row, col);
      && |r| <= 4
      && (forall m :: m in r <==>
            m in Cells(grid) && Heuristic(m.GetPos(), (row, col)) == 1 && !m.Barrier())
      && InDirectionOrder((row, col), r)
  {
    var n := |grid|;
    var p := (row, col);
    var down := if row < n - 1 && !grid[row + 1][col].Barrier() then [grid[row + 1][col]] else [];
    var up := if row > 0 && !grid[row - 1][col].Barrier() then [grid[row - 1][col]] else [];
    var right := if col < n - 1 && !grid[row][col + 1].Barrier() then [grid[row][col + 1]] else [];
    var left := if col > 0 && !grid[row][col - 1].Barrier() then [grid[row][col - 1]] else [];
    assert OpenNeighbors(grid, row, col) == down + up + right + left;
    assert InDirectionOrder(p, down + up + right + left);
    forall m ensures m in OpenNeighbors(grid, row, col) <==>
      m in Cells(grid) && Heuristic(m.GetPos(), (row, col)) == 1 && !m.Barrier()
    {
      OpenNeighborsMember(grid, row, col, m);
    }
  }

  /** Every cell's neighbour list is the one UpdateNeighbors would compute now. */
  ghost predicate NeighborsFresh(grid: seq<seq<Node>>)
    requires WellFormed(grid)
    reads Cells(grid)
  {
    forall n :: n in Cells(grid) ==>
      (n.row < |grid| && n.col < |grid| && n.neighbors == OpenNeighbors(grid, n.row, n.col))
  }

  /** What a search relies on: every listed neighbour is an in-grid, non-barrier
      cell at distance one. */
  ghost predicate NeighborsSound(grid: seq<seq<Node>>)
    reads Cells(grid)
  {
    forall n, m :: n in Cells(grid) && m in n.neighbors ==>
      m in Cells(grid) && Heuristic(n.GetPos(), m.GetPos()) == 1 && !m.Barrier()
  }

  /** One cell whose list is fresh lists only sound neighbours. */
  lemma FreshCellSound(grid: seq<seq<Node>>, n: Node)
    requires WellFormed(grid) && n.row < |grid| && n.col < |grid|
    requires n.neighbors == OpenNeighbors(grid, n.row, n.col)
    ensures forall m :: m in n.neighbors ==>
      m in Cells(grid) && Heuristic(n.GetPos(), m.GetPos()) == 1 && !m.Barrier()
  {
    OpenNeighborsSpec(grid, n.row, n.col);
    forall m | m in n.neighbors ensures Heuristic(n.GetPos(), m.GetPos()) == 1 {
      HeuristicSymmetric(n.GetPos(), m.GetPos());
    }
  }

  lemma FreshIsSound(grid: seq<seq<Node>>)
    requires WellFormed(grid) && NeighborsFresh(grid)
    ensures NeighborsSound(grid)
  {
    forall n | n in Cells(grid)
      ensures forall m :: m in n.neighbors ==>
        m in Cells(grid) && Heuristic(n.GetPos(), m.GetPos()) == 1 && !m.Barrier()
    {
      FreshCellSound(grid, n);
    }
  }

  /** A sequence of grid cells in which each cell is in its predecessor's neighbour list. */
  ghost predicate Walk(grid: seq<seq<Node>>, p: seq<Node>)
    reads Cells(grid)`neighbors
  {
    && (forall i :: 0 <= i < |p| ==> p[i] in Cells(grid))
    && (forall i :: 0 <= i < |p| - 1 ==> p[i + 1] in p[i].neighbors)
  }

  /** Builds a rows x rows grid of fresh white cells with empty neighbour lists. */
  method MakeGrid(rows: nat) returns (grid: seq<seq<Node>>)
    requires rows > 0
    ensures |grid| == rows && WellFormed(grid)
    ensures forall i, j :: 0 <= i < rows && 0 <= j < rows ==>
      fresh(grid[i][j]) && grid[i][j].color == White && grid[i][j].neighbors == []
  {
    grid := [];
    for i := 0 to rows
      invariant |grid| == i
      invariant forall a :: 0 <= a < i ==> |grid[a]| == rows
      invariant forall a, b :: 0 <= a < i && 0 <= b < rows ==>
        grid[a][b].row == a && grid[a][b].col == b && grid[a][b].totalRows == rows
      invariant forall a, b :: 0 <= a < i && 0 <= b < rows ==>
        fresh(grid[a][b]) && grid[a][b].color == White && grid[a][b].neighbors == []
    {
      grid := grid + [[]];
      for j := 0 to rows
        invariant |grid| == i + 1 && |grid[i]| == j
        invariant forall a :: 0 <= a < i ==> |grid[a]| == rows
        invariant forall a, b :: 0 <= a <= i && 0 <= b < |grid[a]| ==>
          grid[a][b].row == a && grid[a][b].col == b && grid[a][b].totalRows == rows
        invariant forall a, b :: 0 <= a <= i && 0 <= b < |grid[a]| ==>
          fresh(grid[a][b]) && grid[a][b].color == White && grid[a][b].neighbors == []
      {
        var node := new Node(i, j, rows);
        grid := grid[i := grid[i] + [node]];
      }
    }
  }

  /** The cell under a pixel: the pixel lies in that cell's square of side
      winWidth / rows. */
  function GetClickedPos(pos: Pos, rows: nat, winWidth: nat): (cell: Pos)
    requires rows > 0 && winWidth / rows > 0
    ensures var w := winWidth / rows;
      cell.0 * w <= pos.0 < cell.0 * w + w && cell.1 * w <= pos.1 < cell.1 * w + w
  {
    var w := winWidth / rows;
    (pos.0 / w, pos.1 / w)
  }

  /** A pixel inside the area covered by the rows x rows cells maps to a cell of the grid. */
  lemma ClickInGrid(pos: Pos, rows: nat, winWidth: nat)
    requires rows > 0 && winWidth / rows > 0
    requires 0 <= pos.0 < rows * (winWidth / rows) && 0 <= pos.1 < rows * (winWidth / rows)
    ensures var cell := GetClickedPos(pos, rows, winWidth);
      0 <= cell.0 < rows && 0 <= cell.1 < rows
  {
  }

  /** The cell at (a, b) holds the neighbour list UpdateNeighbors computes now. */
  ghost predicate FreshAt(grid: seq<seq<Node>>, a: nat, b: nat)
    requires WellFormed(grid) && a < |grid| && b < |grid|
    reads {grid[a][b]}`neighbors, Cells(grid)`color
  {
    grid[a][b].neighbors == OpenNeighbors(grid, a, b)
  }

  /** Refreshes the neighbour lists of row i, left to right. */
  method UpdateRow(grid: seq<seq<Node>>, i: nat)
    requires WellFormed(grid) && i < |grid|
    modifies Cells(grid)`neighbors
    ensures forall b :: 0 <= b < |grid| ==> FreshAt(grid, i, b)
    ensures forall a, b :: 0 <= a < |grid| && a != i && 0 <= b < |grid| ==>
      grid[a][b].neighbors == old(grid[a][b].neighbors)
  {
    var n := |grid|;
    for j := 0 to n
      invariant forall b :: 0 <= b < j ==> FreshAt(grid, i, b)
      invariant forall a, b :: 0 <= a < n && a != i && 0 <= b < n ==>
        grid[a][b].neighbors == old(grid[a][b].neighbors)
    {
      grid[i][j].UpdateNeighbors(grid);
    }
  }

  /** Refreshes every cell's neighbour list before a search. */
  method UpdateAllNeighbors(grid: seq<seq<Node>>)
    requires WellFormed(grid)
    modifies Cells(grid)`neighbors
    ensures NeighborsFresh(grid)
  {
    var n := |grid|;
    for i := 0 to n
      invariant forall a, b :: 0 <= a < i && 0 <= b < n ==> FreshAt(grid, a, b)
    {
      UpdateRow(grid, i);
    }
    forall c | c in Cells(grid)
      ensures c.row < n && c.col < n && c.neighbors == OpenNeighbors(grid, c.row, c.col)
    {
      CellAt(grid, c);
      assert FreshAt(grid, c.row, c.col);
    }
  }
}
