/**
 * The generic fixed-size board: a width by height array of cells, each
 * empty (C#'s null, the default of a reference type) or holding a value.
 */
module Grid {
  import opened Wrappers
  import opened Strings

  /** What `Remove(list)` leaves in a cell that held `v`. */
  function Cleared<T(==)>(v: Option<T>, list: seq<Option<T>>): Option<T> {
    if v in list then None else v
  }

  /** What `Swap(first, second)` leaves in a cell that held `v`. */
  function Swapped<T(==)>(v: Option<T>, first: Option<T>, second: Option<T>): Option<T> {
    if v == first then second else if v == second then first else v
  }

  /** (i, j) is one of the four orthogonal neighbours of (x, y). */
  predicate IsNeighbour(x: int, y: int, i: int, j: int) {
    (i == x + 1 && j == y) || (i == x - 1 && j == y) || (i == x && j == y + 1) || (i == x && j == y - 1)
  }

  /** (x, y) comes before (i, j) when the board is read row by row, top to bottom. */
  predicate ReadsBefore(x: int, y: int, i: int, j: int) {
    y < j || (y == j && x < i)
  }

  /** The text dump after `k` of its lines: a newline follows every line but the last. */
  function DumpPrefix(lines: seq<string>, k: nat): string
    requires k <= |lines|
  {
    if k == 0 then "" else Join(lines[..k], '\n') + (if k < |lines| then "\n" else "")
  }

  lemma DumpPrefixStep(lines: seq<string>, k: nat)
    requires k < |lines|
    ensures DumpPrefix(lines, k) + lines[k] + (if k < |lines| - 1 then "\n" else "") == DumpPrefix(lines, k + 1)
  {
    if k > 0 {
      assert lines[..k + 1] == lines[..k] + [lines[k]];
      JoinSnoc(lines[..k], lines[k], '\n');
    }
  }

  class TileGrid<T(==)> {
    const width: nat
    const height: nat
    const data: array2<Option<T>>

    ghost predicate Valid() {
      data.Length0 == width && data.Length1 == height
    }

    /** A board whose every cell is empty. */
    constructor (w: nat, h: nat)
      ensures Valid() && width == w && height == h && fresh(data)
      ensures forall x, y | 0 <= x < w && 0 <= y < h :: data[x, y] == None
    {
      var d := new Option<T>[w, h];
      var iy := 0;
      while iy < h
        invariant 0 <= iy <= h
        invariant forall x, y | 0 <= x < w && 0 <= y < iy :: d[x, y] == None
      {
        var ix := 0;
        while ix < w
          invariant 0 <= ix <= w
          invariant forall x, y | 0 <= x < w && 0 <= y < iy :: d[x, y] == None
          invariant forall x | 0 <= x < ix :: d[x, iy] == None
        {
          d[ix, iy] := None;
          ix := ix + 1;
        }
        iy := iy + 1;
      }
      width, height, data := w, h, d;
    }

    predicate IsInBounds(x: int, y: int) {
      x >= 0 && x < width && y >= 0 && y < height
    }

    /** The cell at (x, y); empty for a coordinate off the board. */
    function Get(x: int, y: int): (r: Option<T>)
      requires Valid()
      reads data
      ensures !IsInBounds(x, y) ==> r == None
      ensures IsInBounds(x, y) ==> r == data[x, y]
    {
      if x < 0 || y < 0 || x >= width || y >= height then None else data[x, y]
    }

    /** Writes one cell; writing off the board is the caller's error (C# throws). */
    method Set(value: Option<T>, x: int, y: int)
      requires Valid() && IsInBounds(x, y)
      modifies data
      ensures data[x, y] == value
      ensures forall i, j | 0 <= i < width && 0 <= j < height && (i != x || j != y) :: data[i, j] == old(data[i, j])
      ensures Get(x, y) == value
      ensures forall i, j | i != x || j != y :: Get(i, j) == old(Get(i, j))
    {
      data[x, y] := value;
    }

    /** The in-bounds orthogonal neighbours' cells, empty ones included. */
    function GetNeighbours(x: int, y: int): (r: seq<Option<T>>)
      requires Valid()
      reads data
      ensures |r| <= 4
      ensures forall v :: v in r ==> exists i, j :: IsNeighbour(x, y, i, j) && IsInBounds(i, j) && data[i, j] == v
      ensures forall i, j :: IsNeighbour(x, y, i, j) && IsInBounds(i, j) ==> data[i, j] in r
      ensures 1 <= x < width - 1 && 1 <= y < height - 1 ==> |r| == 4
    {
      AddIfInBounds(x + 1, y) + AddIfInBounds(x - 1, y) + AddIfInBounds(x, y + 1) + AddIfInBounds(x, y - 1)
    }

    function AddIfInBounds(x: int, y: int): (r: seq<Option<T>>)
      requires Valid()
      reads data
    {
      if IsInBounds(x, y) then [data[x, y]] else []
    }

    /** Column x, top to bottom. */
    function GetColumn(x: int): (r: seq<Option<T>>)
      requires Valid() && 0 <= x < width
      reads data
      ensures |r| == height
      ensures forall y :: 0 <= y < height ==> r[y] == data[x, y]
    {
      seq(height, y requires 0 <= y < height reads data => data[x, y])
    }

    /** Row y, left to right. */
    function GetRow(y: int): (r: seq<Option<T>>)
      requires Valid() && 0 <= y < height
      reads data
      ensures |r| == width
      ensures forall x :: 0 <= x < width ==> r[x] == data[x, y]
    {
      seq(width, x requires 0 <= x < width reads data => data[x, y])
    }

    /** Row y and column x cross at the cell (x, y). */
    lemma RowColumnCrossing(x: int, y: int)
      requires Valid() && 0 <= x < width && 0 <= y < height
      ensures GetRow(y)[x] == GetColumn(x)[y] == Get(x, y)
    {
    }

    /** Columns x, x + 1, ... in order: the enumeration order of a C# 2-D array. */
    function ColumnsFrom(x: nat): (r: seq<Option<T>>)
      requires Valid() && x <= width
      reads data
      ensures |r| == (width - x) * height
      ensures forall v :: v in r ==> exists i, j :: x <= i < width && 0 <= j < height && data[i, j] == v
      ensures forall i, j | x <= i < width && 0 <= j < height :: data[i, j] in r
      decreases width - x
    {
      if x == width then []
      else
        var col := GetColumn(x);
        var rest := ColumnsFrom(x + 1);
        col + rest
    }

    /** Every cell's value, empty ones included: width times height values. */
    function All(): (r: seq<Option<T>>)
      requires Valid()
      reads data
      ensures |r| == width * height
      ensures forall v :: v in r ==> exists x, y :: 0 <= x < width && 0 <= y < height && data[x, y] == v
      ensures forall x, y | 0 <= x < width && 0 <= y < height :: data[x, y] in r
    {
      ColumnsFrom(0)
    }

    /** Empties every cell whose value equals (default equality) an element of `list`. */
    method Remove(list: seq<Option<T>>)
      requires Valid()
      modifies data
      ensures forall x, y | 0 <= x < width && 0 <= y < height :: data[x, y] == Cleared(old(data[x, y]), list)
    {
      var iy := 0;
      while iy < height
        invariant 0 <= iy <= height
        invariant forall x, y | 0 <= x < width && 0 <= y < height ::
          data[x, y] == if y < iy then Cleared(old(data[x, y]), list) else old(data[x, y])
      {
        var ix := 0;
        while ix < width
          invariant 0 <= ix <= width
          invariant forall x, y | 0 <= x < width && 0 <= y < height ::
            data[x, y] == if ReadsBefore(x, y, ix, iy) then Cleared(old(data[x, y]), list) else old(data[x, y])
        {
          if data[ix, iy] in list {
            data[ix, iy] := None;
          }
          ix := ix + 1;
        }
        iy := iy + 1;
      }
    }

    /** Default equality of two cell values. */
    function Compare(first: Option<T>, second: Option<T>): bool {
      first == second
    }

    /** Exchanges `first` and `second` wherever either occurs. */
    method Swap(first: Option<T>, second: Option<T>)
      requires Valid()
      modifies data
      ensures forall x, y | 0 <= x < width && 0 <= y < height :: data[x, y] == Swapped(old(data[x, y]), first, second)
    {
      var iy := 0;
      while iy < height
        invariant 0 <= iy <= height
        invariant forall x, y | 0 <= x < width && 0 <= y < height ::
          data[x, y] == if y < iy then Swapped(old(data[x, y]), first, second) else old(data[x, y])
      {
        var ix := 0;
        while ix < width
          invariant 0 <= ix <= width
          invariant forall x, y | 0 <= x < width && 0 <= y < height ::
            data[x, y] == if ReadsBefore(x, y, ix, iy) then Swapped(old(data[x, y]), first, second) else old(data[x, y])
        {
          if Compare(first, data[ix, iy]) {
            data[ix, iy] := second;
            ix := ix + 1;
            continue;
          }
          if Compare(second, data[ix, iy]) {
            data[ix, iy] := first;
          }
          ix := ix + 1;
        }
        iy := iy + 1;
      }
    }

    /** The first cell, reading row by row, that equals `obj`; None if there is none. */
    method GetPosition(obj: Option<T>) returns (p: Option<(nat, nat)>)
      requires Valid()
      ensures p.None? <==> forall x, y | 0 <= x < width && 0 <= y < height :: data[x, y] != obj
      ensures p.Some? ==> IsInBounds(p.value.0, p.value.1) && data[p.value.0, p.value.1] == obj
      ensures p.Some? ==> forall x, y | 0 <= x < width && 0 <= y < height && ReadsBefore(x, y, p.value.0, p.value.1) ::
        data[x, y] != obj
    {
      var iy := 0;
      while iy < height
        invariant 0 <= iy <= height
        invariant forall x, y | 0 <= x < width && 0 <= y < iy :: data[x, y] != obj
      {
        var ix := 0;
        while ix < width
          invariant 0 <= ix <= width
          invariant forall x, y | 0 <= x < width && 0 <= y < height && ReadsBefore(x, y, ix, iy) :: data[x, y] != obj
        {
          if Compare(obj, data[ix, iy]) {
            return Some((ix, iy));
          }
          ix := ix + 1;
        }
        iy := iy + 1;
      }
      return None;
    }

    /** Line iy of the text dump: `X` for a filled cell, `.` for an empty one. */
    function RowText(iy: int): (line: string)
      requires Valid() && 0 <= iy < height
      reads data
      ensures |line| == width && '\n' !in line
      ensures forall ix :: 0 <= ix < width ==> line[ix] == if data[ix, iy].Some? then 'X' else '.'
    {
      seq(width, ix requires 0 <= ix < width reads data => if data[ix, iy].Some? then 'X' else '.')
    }

    /** The lines of the text dump, top row first. */
    function Lines(): (lines: seq<string>)
      requires Valid()
      reads data
      ensures |lines| == height
      ensures forall iy :: 0 <= iy < height ==> lines[iy] == RowText(iy)
    {
      seq(height, iy requires 0 <= iy < height reads data => RowText(iy))
    }

    /** The board as text: one line per row joined by newlines, no trailing newline. */
    method DataAsString() returns (str: string)
      requires Valid()
      ensures str == Join(Lines(), '\n')
      ensures height > 0 ==> Split(str, '\n') == Lines()
    {
      ghost var lines := Lines();
      str := "";
      var iy := 0;
      while iy < height
        invariant 0 <= iy <= height
        invariant str == DumpPrefix(lines, iy)
      {
        str := AppendRowText(str, iy);
        if iy < height - 1 {
          str := str + "\n";
        }
        DumpPrefixStep(lines, iy);
        iy := iy + 1;
      }
      assert lines[..height] == lines;
      if height > 0 {
        SplitJoin(lines, '\n');
      }
    }

    /** The inner loop of DataAsString: appends the characters of row iy. */
    method AppendRowText(prefix: string, iy: int) returns (str: string)
      requires Valid() && 0 <= iy < height
      ensures str == prefix + RowText(iy)
    {
      str := prefix;
      var ix := 0;
      while ix < width
        invariant 0 <= ix <= width
        invariant str == prefix + RowText(iy)[..ix]
      {
        str := str + (if data[ix, iy] != None then "X" else ".");
        ix := ix + 1;
      }
      assert RowText(iy)[..width] == RowText(iy);
    }
  }
}
