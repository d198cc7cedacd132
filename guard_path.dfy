/** A guard walking a character map: it starts on the first arrow cell,
    steps forward onto cells that are not `#`, turns right in front of a
    `#`, and stops when its next step would leave the map. The answer is
    the number of distinct cells it has stood on. */
module GuardWalk {
  import opened Wrappers
  import opened Collections

  /** The four arrows a guard can face, in the order of DIRECTION_MAP. */
  type Heading = c: char | c == '^' || c == '>' || c == 'v' || c == '<' witness '^'

  const Headings: seq<Heading> := ['^', '>', 'v', '<']

  /** Position of a heading in `Headings` (`directions.index`). */
  function HeadingIndex(h: Heading): (i: nat)
    ensures i < |Headings| && Headings[i] == h
  {
    if h == '^' then 0 else if h == '>' then 1 else if h == 'v' then 2 else 3
  }

  /** The (row, column) step DIRECTION_MAP gives each heading. */
  function Step(h: Heading): (int, int)
  {
    match h
    case '^' => (-1, 0)
    case '>' => (0, 1)
    case 'v' => (1, 0)
    case '<' => (0, -1)
  }

  /** Where the guard is and which way it faces. */
  datatype Guard = Guard(row: int, col: int, heading: Heading)

  /** Why count_route produces no number: there is no arrow on the map
      (the ValueError of find_start_point), or the guard has not left the
      map within the step budget (the source would keep walking). */
  datatype RouteError = GuardNotPresent | StillWalking

  /** Row-major order on cells. */
  predicate Before(i: int, j: int, p: (nat, nat))
  {
    i < p.0 || (i == p.0 && j < p.1)
  }

  class GuardPath {
    const inputMap: seq<seq<char>>
    const nRows: nat
    const nCols: nat

    /** The map is a non-empty rectangle of `nRows` rows of `nCols` cells. */
    predicate Valid()
    {
      nRows == |inputMap| > 0 && forall i :: 0 <= i < nRows ==> |inputMap[i]| == nCols
    }

    constructor(grid: seq<seq<char>>)
      requires |grid| > 0 && forall i :: 0 <= i < |grid| ==> |grid[i]| == |grid[0]|
      ensures Valid() && inputMap == grid && nRows == |grid| && nCols == |grid[0]|
    {
      inputMap := grid;
      nRows := |grid|;
      nCols := |grid[0]|;
    }

    predicate InGrid(i: int, j: int)
    {
      0 <= i < nRows && 0 <= j < nCols
    }

    function Cell(i: int, j: int): char
      requires Valid() && InGrid(i, j)
    {
      inputMap[i][j]
    }

    predicate IsArrow(i: int, j: int)
      requires Valid() && InGrid(i, j)
    {
      Cell(i, j) in "^>v<"
    }

    /** A cell the guard may stand on: inside the map and not an obstacle. */
    predicate OnFloor(i: int, j: int)
      requires Valid()
    {
      InGrid(i, j) && Cell(i, j) != '#'
    }

    /** is_end: the guard's next cell is off the map. */
    function IsEnd(i: int, j: int): (b: bool)
      ensures b <==> !InGrid(i, j)
    {
      i >= nRows || j >= nCols || i < 0 || j < 0
    }

    /** get_next_direction: the heading one place further in DIRECTION_MAP,
        wrapping around; it is a quarter turn clockwise. */
    function NextDirection(h: Heading): (r: Heading)
      ensures r != h
      ensures Step(r) == (Step(h).1, -Step(h).0)
    {
      Headings[(HeadingIndex(h) + 1) % |Headings|]
    }

    lemma FourTurnsRestoreHeading(h: Heading)
      ensures NextDirection(NextDirection(NextDirection(NextDirection(h)))) == h
    {
    }

    /** The first arrow of row `i` at column `j` or later. */
    function ScanRow(i: nat, j: nat): (r: Option<nat>)
      requires Valid() && i < nRows && j <= nCols
      ensures r.Some? ==> j <= r.value < nCols && IsArrow(i, r.value)
      ensures forall k :: j <= k < nCols && (r.None? || k < r.value) ==> !IsArrow(i, k)
      decreases nCols - j
    {
      if j == nCols then None
      else if IsArrow(i, j) then Some(j)
      else ScanRow(i, j + 1)
    }

    /** The first arrow in row-major order from row `i` on. */
    function ScanRows(i: nat): (r: Option<(nat, nat)>)
      requires Valid() && i <= nRows
      ensures r.Some? ==> i <= r.value.0 && InGrid(r.value.0, r.value.1) && IsArrow(r.value.0, r.value.1)
      ensures forall a, b :: i <= a && InGrid(a, b) && (r.None? || Before(a, b, r.value)) ==> !IsArrow(a, b)
      decreases nRows - i
    {
      if i == nRows then None
      else match ScanRow(i, 0)
        case Some(j) => Some((i, j))
        case None => ScanRows(i + 1)
    }

    /** Where find_start_point puts the guard: the first arrow in row-major
        order, or none when the map holds no arrow. */
    function StartPoint(): (r: Option<(nat, nat)>)
      requires Valid()
      ensures r.Some? ==> InGrid(r.value.0, r.value.1) && IsArrow(r.value.0, r.value.1)
      ensures r.Some? ==> forall a, b :: InGrid(a, b) && Before(a, b, r.value) ==> !IsArrow(a, b)
      ensures r.None? <==> forall a, b :: InGrid(a, b) ==> !IsArrow(a, b)
    {
      ScanRows(0)
    }

    /** find_start_point: scan rows, then columns, and stop at the first
        arrow. */
    method FindStartPoint() returns (r: Option<(nat, nat)>)
      requires Valid()
      ensures r == StartPoint()
    {
      for i := 0 to nRows
        invariant forall a, b :: 0 <= a < i && InGrid(a, b) ==> !IsArrow(a, b)
      {
        for j := 0 to nCols
          invariant forall a, b :: InGrid(a, b) && Before(a, b, (i, j)) ==> !IsArrow(a, b)
        {
          if Cell(i, j) in "^>v<" {
            return Some((i, j));
          }
        }
      }
      return None;
    }

    /** One turn of count_route's loop, taken when the next cell is on the
        map: step onto it unless it is an obstacle, otherwise turn right. */
    function Advance(g: Guard): (r: Guard)
      requires Valid() && !IsEnd(g.row + Step(g.heading).0, g.col + Step(g.heading).1)
      ensures OnFloor(g.row, g.col) ==> OnFloor(r.row, r.col)
      ensures || (r.row == g.row + Step(g.heading).0 && r.col == g.col + Step(g.heading).1 && r.heading == g.heading)
              || (r.row == g.row && r.col == g.col && r.heading == NextDirection(g.heading))
      ensures r.heading == g.heading <==> Cell(g.row + Step(g.heading).0, g.col + Step(g.heading).1) != '#'
    {
      var (i, j) := (g.row + Step(g.heading).0, g.col + Step(g.heading).1);
      if Cell(i, j) != '#' then Guard(i, j, g.heading)
      else Guard(g.row, g.col, NextDirection(g.heading))
    }

    /** The cells visited by the rest of the walk, added to `visited`; none
        when the guard is still on the map after `fuel` more loop turns. */
    function Walk(g: Guard, visited: set<(int, int)>, fuel: nat): Option<set<(int, int)>>
      requires Valid()
      decreases fuel
    {
      if IsEnd(g.row + Step(g.heading).0, g.col + Step(g.heading).1) then Some(visited)
      else if fuel == 0 then None
      else
        var next := Advance(g);
        Walk(next, visited + {(next.row, next.col)}, fuel - 1)
    }

    lemma WalkUnroll(g: Guard, visited: set<(int, int)>, fuel: nat)
      requires Valid() && fuel > 0 && !IsEnd(g.row + Step(g.heading).0, g.col + Step(g.heading).1)
      ensures Walk(g, visited, fuel)
           == Walk(Advance(g), visited + {(Advance(g).row, Advance(g).col)}, fuel - 1)
    {
    }

    /** The outcome of count_route within `fuel` loop turns. */
    function Route(fuel: nat): Result<nat, RouteError>
      requires Valid()
    {
      match StartPoint()
      case None => Failure(GuardNotPresent)
      case Some((i, j)) =>
        match Walk(Guard(i, j, Cell(i, j)), {(i, j)}, fuel)
        case None => Failure(StillWalking)
        case Some(cells) => Success(|cells|)
    }

    /** count_route, with its `while` loop bounded by `fuel` turns. */
    method CountRoute(fuel: nat) returns (r: Result<nat, RouteError>)
      requires Valid()
      ensures r == Route(fuel)
    {
      var start := FindStartPoint();
      if start.None? {
        return Failure(GuardNotPresent);
      }
      var cells := WalkRoute(start.value.0, start.value.1, Cell(start.value.0, start.value.1), fuel);
      if cells.None? {
        return Failure(StillWalking);
      }
      return Success(|cells.value|);
    }

    /** The `while` loop of count_route from the guard's start: step or
        turn until the next cell is off the map, collecting the cells
        stood on. */
    method WalkRoute(startRow: int, startCol: int, startDirection: Heading, fuel: nat)
      returns (cells: Option<set<(int, int)>>)
      requires Valid()
      ensures cells == Walk(Guard(startRow, startCol, startDirection), {(startRow, startCol)}, fuel)
    {
      var iRow, jCol, currentDirection := startRow, startCol, startDirection;
      var stepRow, stepCol := Step(currentDirection).0, Step(currentDirection).1;
      var positionPaths := {(iRow, jCol)};
      var left := fuel;
      while !IsEnd(iRow + stepRow, jCol + stepCol)
        invariant (stepRow, stepCol) == Step(currentDirection)
        invariant (iRow, jCol) in positionPaths
        invariant Walk(Guard(iRow, jCol, currentDirection), positionPaths, left)
               == Walk(Guard(startRow, startCol, startDirection), {(startRow, startCol)}, fuel)
        decreases left
      {
        if left == 0 {
          return None;
        }
        ghost var next := Advance(Guard(iRow, jCol, currentDirection));
        WalkUnroll(Guard(iRow, jCol, currentDirection), positionPaths, left);
        left := left - 1;
        if Cell(iRow + stepRow, jCol + stepCol) != '#' {
          iRow := iRow + stepRow;
          jCol := jCol + stepCol;
          positionPaths := positionPaths + {(iRow, jCol)};
          assert next == Guard(iRow, jCol, currentDirection);
        } else {
          currentDirection := NextDirection(currentDirection);
          stepRow, stepCol := Step(currentDirection).0, Step(currentDirection).1;
          assert next == Guard(iRow, jCol, currentDirection);
          assert positionPaths + {(next.row, next.col)} == positionPaths;
        }
      }
      return Some(positionPaths);
    }

    /** Every cell the walk records is on the floor, and nothing recorded
        before is lost. */
    lemma {:induction false} WalkStaysOnFloor(g: Guard, visited: set<(int, int)>, fuel: nat)
      requires Valid() && OnFloor(g.row, g.col)
      requires forall p :: p in visited ==> OnFloor(p.0, p.1)
      ensures Walk(g, visited, fuel).Some? ==>
                visited <= Walk(g, visited, fuel).value &&
                forall p :: p in Walk(g, visited, fuel).value ==> OnFloor(p.0, p.1)
      decreases fuel
    {
      if !IsEnd(g.row + Step(g.heading).0, g.col + Step(g.heading).1) && fuel > 0 {
        var next := Advance(g);
        WalkStaysOnFloor(next, visited + {(next.row, next.col)}, fuel - 1);
      }
    }

    /** Once the walk has left the map, more fuel gives the same answer. */
    lemma {:induction false} WalkMonotone(g: Guard, visited: set<(int, int)>, fuel: nat, more: nat)
      requires Valid() && fuel <= more && Walk(g, visited, fuel).Some?
      ensures Walk(g, visited, more) == Walk(g, visited, fuel)
      decreases fuel
    {
      if !IsEnd(g.row + Step(g.heading).0, g.col + Step(g.heading).1) {
        var next := Advance(g);
        WalkMonotone(next, visited + {(next.row, next.col)}, fuel - 1, more - 1);
      }
    }

    /** The start cell is always counted, and no cell is counted twice, so
        the route covers between one cell and the whole map. */
    lemma RouteBounds(fuel: nat)
      requires Valid() && Route(fuel).Success?
      ensures 1 <= Route(fuel).value <= nRows * nCols
    {
      var (i, j) := StartPoint().value;
      var g := Guard(i, j, Cell(i, j));
      WalkStaysOnFloor(g, {(i, j)}, fuel);
      var cells := Walk(g, {(i, j)}, fuel).value;
      assert (i, j) in cells;
      forall p | p in cells ensures p in GridCells(nRows, nCols) {
        GridCellsHas(nRows, nCols, p.0, p.1);
      }
      GridCellsSize(nRows, nCols);
      assert cells <= GridCells(nRows, nCols);
      SubsetSize(cells, GridCells(nRows, nCols));
    }

    /** A route fails for want of a guard exactly when no cell holds an arrow. */
    lemma RouteNeedsGuard(fuel: nat)
      requires Valid()
      ensures Route(fuel) == Failure(GuardNotPresent) <==> forall a, b :: InGrid(a, b) ==> !IsArrow(a, b)
    {
    }
  }

  /** The cells of columns 0 .. cols-1 of row `i`. */
  function RowCells(i: int, cols: nat): set<(int, int)>
  {
    if cols == 0 then {} else RowCells(i, cols - 1) + {(i, cols - 1)}
  }

  /** The cells of an `rows` by `cols` map. */
  function GridCells(rows: nat, cols: nat): set<(int, int)>
  {
    if rows == 0 then {} else GridCells(rows - 1, cols) + RowCells(rows - 1, cols)
  }

  lemma {:induction false} RowCellsHas(i: int, cols: nat, j: int)
    ensures (i, j) in RowCells(i, cols) <==> 0 <= j < cols
  {
    if cols > 0 {
      RowCellsHas(i, cols - 1, j);
    }
  }

  lemma {:induction false} RowCellsInRow(i: int, cols: nat)
    ensures forall p :: p in RowCells(i, cols) ==> p.0 == i
  {
    if cols > 0 {
      RowCellsInRow(i, cols - 1);
    }
  }

  lemma {:induction false} RowCellsSize(i: int, cols: nat)
    ensures |RowCells(i, cols)| == cols
  {
    if cols > 0 {
      RowCellsSize(i, cols - 1);
      RowCellsHas(i, cols - 1, cols - 1);
    }
  }

  lemma {:induction false} GridCellsHas(rows: nat, cols: nat, i: int, j: int)
    ensures (i, j) in GridCells(rows, cols) <==> 0 <= i < rows && 0 <= j < cols
  {
    if rows > 0 {
      GridCellsHas(rows - 1, cols, i, j);
      if i == rows - 1 {
        RowCellsHas(rows - 1, cols, j);
      } else {
        RowCellsInRow(rows - 1, cols);
      }
    }
  }

  lemma {:induction false} GridCellsBelow(rows: nat, cols: nat)
    ensures forall p :: p in GridCells(rows, cols) ==> p.0 < rows
  {
    if rows > 0 {
      GridCellsBelow(rows - 1, cols);
      RowCellsInRow(rows - 1, cols);
    }
  }

  /** The last row adds `cols` new cells to the rows above it. */
  lemma GridCellsLastRow(rows: nat, cols: nat)
    requires rows > 0
    ensures |GridCells(rows, cols)| == |GridCells(rows - 1, cols)| + cols
  {
    var above, last := GridCells(rows - 1, cols), RowCells(rows - 1, cols);
    RowCellsSize(rows - 1, cols);
    GridCellsBelow(rows - 1, cols);
    RowCellsInRow(rows - 1, cols);
    assert above * last == {};
  }

  lemma {:induction false} GridCellsSize(rows: nat, cols: nat)
    ensures |GridCells(rows, cols)| == rows * cols
  {
    if rows > 0 {
      GridCellsSize(rows - 1, cols);
      GridCellsLastRow(rows, cols);
      assert (rows - 1) * cols + cols == rows * cols;
    }
  }
}
