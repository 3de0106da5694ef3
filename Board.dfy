/**
 * The board-altering twists as both the presentation board and the server
 * replica perform them on their grids: slides that drop the tiles of one
 * edge and shift the rest one step towards it.
 */
module Board {
  import opened Wrappers
  import opened Grid
  import Matching

  /** The non-empty cells of a list, in order: `Where(c => c)` / `Where(c => c != null)`. */
  function NonEmpty<T>(cells: seq<Option<T>>): (r: seq<Option<T>>)
    ensures forall i :: 0 <= i < |r| ==> r[i].Some? && r[i] in cells
    ensures forall i :: 0 <= i < |cells| && cells[i].Some? ==> cells[i] in r
  {
    if |cells| == 0 then []
    else
      var init := NonEmpty(cells[..|cells| - 1]);
      var last := cells[|cells| - 1];
      assert forall v :: v in cells[..|cells| - 1] ==> v in cells;
      assert forall i :: 0 <= i < |cells| - 1 ==> cells[i] == cells[..|cells| - 1][i];
      init + (if last.Some? then [last] else [])
  }

  /** (x, y) is on the 7 by 7 board. */
  predicate OnBoard(x: int, y: int) {
    0 <= x < Matching.Size && 0 <= y < Matching.Size
  }

  /** The 7 by 7 board both sides play on. */
  ghost predicate IsBoard<T>(grid: TileGrid<T>) {
    grid.Valid() && grid.width == Matching.Size && grid.height == Matching.Size
  }

  /** The row a vertical slide empties: the top for `diff == 1`, the bottom otherwise. */
  function VerticalEdge(diff: int): nat {
    if diff > 0 then 0 else Matching.Size - 1
  }

  /** The column a horizontal slide empties: the right for `diff == 1`, the left otherwise. */
  function HorizontalEdge(diff: int): nat {
    if diff > 0 then Matching.Size - 1 else 0
  }

  /**
   * `SlideVertical(diff)`: removes the tiles of the edge row (every cell equal
   * to one of them), then each cell takes the value of its neighbour at
   * `y + diff`; the row at the far side is left empty.
   */
  method SlideVertical<T(==)>(grid: TileGrid<T>, diff: int) returns (edge: seq<Option<T>>)
    requires IsBoard(grid) && (diff == 1 || diff == -1)
    modifies grid.data
    ensures edge == NonEmpty(old(grid.GetRow(VerticalEdge(diff))))
    ensures forall x, y | 0 <= x < Matching.Size && 0 <= y < Matching.Size ::
      grid.data[x, y] == if 0 <= y + diff < Matching.Size then Cleared(old(grid.data[x, y + diff]), edge) else None
  {
    var index := VerticalEdge(diff);
    edge := NonEmpty(grid.GetRow(index));
    grid.Remove(edge);
    var x := 0;
    while x < Matching.Size
      invariant 0 <= x <= Matching.Size
      invariant forall i, j | 0 <= i < Matching.Size && 0 <= j < Matching.Size ::
        grid.data[i, j] == if i < x then
          (if 0 <= j + diff < Matching.Size then Cleared(old(grid.data[i, j + diff]), edge) else None)
        else Cleared(old(grid.data[i, j]), edge)
    {
      ShiftColumn(grid, x, diff);
      x := x + 1;
    }
  }

  /** The inner loop of `SlideVertical`: column `x` walked from the edge row, each cell taking its neighbour's value. */
  method ShiftColumn<T(==)>(grid: TileGrid<T>, x: nat, diff: int)
    requires IsBoard(grid) && x < Matching.Size && (diff == 1 || diff == -1)
    modifies grid.data
    ensures forall i, j | 0 <= i < Matching.Size && 0 <= j < Matching.Size ::
      grid.data[i, j] == if i == x then
        (if 0 <= j + diff < Matching.Size then old(grid.data[i, j + diff]) else None)
      else old(grid.data[i, j])
  {
    var y: int := VerticalEdge(diff);
    while 0 <= y < Matching.Size
      invariant -1 <= y <= Matching.Size
      invariant diff == 1 ==> y >= 0
      invariant diff == -1 ==> y < Matching.Size
      invariant forall i, j | 0 <= i < Matching.Size && 0 <= j < Matching.Size ::
        grid.data[i, j] == if i == x && (if diff > 0 then j < y else j > y) then
          (if 0 <= j + diff < Matching.Size then old(grid.data[i, j + diff]) else None)
        else old(grid.data[i, j])
      decreases if diff > 0 then Matching.Size - y else y + 1
    {
      var value := grid.Get(x, y + diff);
      grid.Set(value, x, y);
      y := y + diff;
    }
  }

  /**
   * `SlideHorizontal(diff)`: removes the tiles of the edge column (every cell
   * equal to one of them), then each cell takes the value of its neighbour
   * at `x - diff`; the column at the far side is left empty.
   */
  method SlideHorizontal<T(==)>(grid: TileGrid<T>, diff: int) returns (edge: seq<Option<T>>)
    requires IsBoard(grid) && (diff == 1 || diff == -1)
    modifies grid.data
    ensures edge == NonEmpty(old(grid.GetColumn(HorizontalEdge(diff))))
    ensures forall x, y | 0 <= x < Matching.Size && 0 <= y < Matching.Size ::
      grid.data[x, y] == if 0 <= x - diff < Matching.Size then Cleared(old(grid.data[x - diff, y]), edge) else None
  {
    var index := HorizontalEdge(diff);
    edge := NonEmpty(grid.GetColumn(index));
    grid.Remove(edge);
    var y := 0;
    while y < Matching.Size
      invariant 0 <= y <= Matching.Size
      invariant forall i, j | 0 <= i < Matching.Size && 0 <= j < Matching.Size ::
        grid.data[i, j] == if j < y then
          (if 0 <= i - diff < Matching.Size then Cleared(old(grid.data[i - diff, j]), edge) else None)
        else Cleared(old(grid.data[i, j]), edge)
    {
      ShiftRow(grid, y, diff);
      y := y + 1;
    }
  }

  /** The inner loop of `SlideHorizontal`: row `y` walked from the edge column. */
  method ShiftRow<T(==)>(grid: TileGrid<T>, y: nat, diff: int)
    requires IsBoard(grid) && y < Matching.Size && (diff == 1 || diff == -1)
    modifies grid.data
    ensures forall i, j | 0 <= i < Matching.Size && 0 <= j < Matching.Size ::
      grid.data[i, j] == if j == y then
        (if 0 <= i - diff < Matching.Size then old(grid.data[i - diff, j]) else None)
      else old(grid.data[i, j])
  {
    var x: int := HorizontalEdge(diff);
    while 0 <= x < Matching.Size
      invariant -1 <= x <= Matching.Size
      invariant diff == 1 ==> x < Matching.Size
      invariant diff == -1 ==> x >= 0
      invariant forall i, j | 0 <= i < Matching.Size && 0 <= j < Matching.Size ::
        grid.data[i, j] == if j == y && (if diff > 0 then i > x else i < x) then
          (if 0 <= i - diff < Matching.Size then old(grid.data[i - diff, j]) else None)
        else old(grid.data[i, j])
      decreases if diff > 0 then x + 1 else Matching.Size - x
    {
      var value := grid.Get(x - diff, y);
      grid.Set(value, x, y);
      x := x - diff;
    }
  }

  /** No tile stands on two cells (true of tile objects, not of equal letters). */
  predicate DistinctTiles<T(==)>(grid: TileGrid<T>)
    requires grid.Valid()
    reads grid.data
  {
    forall x, y, i, j | 0 <= x < grid.width && 0 <= y < grid.height && 0 <= i < grid.width && 0 <= j < grid.height ::
      grid.data[x, y].Some? && grid.data[x, y] == grid.data[i, j] ==> x == i && y == j
  }

  /**
   * With distinct tiles, clearing the tiles of row `row` empties that row and
   * nothing else: a slide loses exactly the edge tiles.
   */
  lemma ClearedOnlyEdgeRow<T>(grid: TileGrid<T>, row: nat)
    requires grid.Valid() && row < grid.height && DistinctTiles(grid)
    ensures forall x, y | 0 <= x < grid.width && 0 <= y < grid.height ::
      Cleared(grid.data[x, y], NonEmpty(grid.GetRow(row))) == if y == row then None else grid.data[x, y]
  {
    var edge := NonEmpty(grid.GetRow(row));
    forall x, y | 0 <= x < grid.width && 0 <= y < grid.height
      ensures Cleared(grid.data[x, y], edge) == if y == row then None else grid.data[x, y]
    {
      if y == row {
        if grid.data[x, y].Some? {
          assert grid.GetRow(row)[x] == grid.data[x, y];
        }
      }
    }
  }

  /** The same for a column. */
  lemma ClearedOnlyEdgeColumn<T>(grid: TileGrid<T>, column: nat)
    requires grid.Valid() && column < grid.width && DistinctTiles(grid)
    ensures forall x, y | 0 <= x < grid.width && 0 <= y < grid.height ::
      Cleared(grid.data[x, y], NonEmpty(grid.GetColumn(column))) == if x == column then None else grid.data[x, y]
  {
    var edge := NonEmpty(grid.GetColumn(column));
    forall x, y | 0 <= x < grid.width && 0 <= y < grid.height
      ensures Cleared(grid.data[x, y], edge) == if x == column then None else grid.data[x, y]
    {
      if x == column {
        if grid.data[x, y].Some? {
          assert grid.GetColumn(column)[y] == grid.data[x, y];
        }
      }
    }
  }

  /**
   * Without distinctness (letters compared by value), clearing the non-empty
   * cells of a line empties every value anywhere that equals one of them.
   */
  lemma ClearedNonEmpty<T>(v: Option<T>, cells: seq<Option<T>>)
    ensures Cleared(v, NonEmpty(cells)) == if v in cells then None else v
  {
    if v.Some? && v in cells {
      var i :| 0 <= i < |cells| && cells[i] == v;
    }
  }
}
