/**
 * The Othello grid: an 8x8 matrix of discs in row-major order, with a
 * bounds-checked read and a write that silently ignores out-of-range
 * coordinates.
 *
 * `Grid` is the value form of the board (what the move-selection engine
 * clones and explores); `Board` is the object form, whose `grid` array is
 * updated in place and whose ghost field `cells` is its abstract value.
 */
module Board {

  /** The state of one cell. */
  datatype Disc = Black | White | Empty

  datatype Option<T> = None | Some(value: T)

  /** The side opposite to `p`; `Empty` is treated like `White`, as the source does. */
  function Opponent(p: Disc): (q: Disc)
    ensures q != Empty && q != p
    ensures q == White <==> p == Black
  {
    if p == Black then White else Black
  }

  predicate IsGrid(g: seq<seq<Disc>>) {
    |g| == 8 && forall r :: 0 <= r < 8 ==> |g[r]| == 8
  }

  /** An 8x8 matrix of discs, indexed `g[row][col]`. */
  type Grid = g: seq<seq<Disc>> | IsGrid(g) witness InitialGrid()

  predicate InBounds(row: int, col: int) {
    0 <= row < 8 && 0 <= col < 8
  }

  /** The disc of a cell of the starting position. */
  function StartDisc(row: int, col: int): Disc {
    if (row == 3 && col == 3) || (row == 4 && col == 4) then White
    else if (row == 3 && col == 4) || (row == 4 && col == 3) then Black
    else Empty
  }

  function InitialGrid(): seq<seq<Disc>> {
    seq(8, r => seq(8, c => StartDisc(r, c)))
  }

  /** The bounds-checked read of `get_disc`. */
  function Get(g: Grid, row: nat, col: nat): Option<Disc> {
    if row < 8 && col < 8 then Some(g[row][col]) else None
  }

  /** The permissive write of `put_disc`: out-of-range coordinates leave the grid alone. */
  function Put(g: Grid, row: nat, col: nat, d: Disc): Grid {
    if row < 8 && col < 8 then g[row := g[row][col := d]] else g
  }

  lemma InitialLayout()
    ensures IsGrid(InitialGrid())
    ensures forall r, c :: InBounds(r, c) ==>
      InitialGrid()[r][c] == (if (r, c) == (3, 3) || (r, c) == (4, 4) then White
                              else if (r, c) == (3, 4) || (r, c) == (4, 3) then Black
                              else Empty)
  {
  }

  lemma GetInRange(g: Grid, row: nat, col: nat)
    ensures Get(g, row, col).Some? <==> row < 8 && col < 8
    ensures Get(g, row, col).Some? ==> Get(g, row, col).value == g[row][col]
  {
  }

  lemma PutOutOfRange(g: Grid, row: nat, col: nat, d: Disc)
    requires row >= 8 || col >= 8
    ensures Put(g, row, col, d) == g
  {
  }

  lemma PutThenGet(g: Grid, row: nat, col: nat, d: Disc, r: nat, c: nat)
    requires row < 8 && col < 8
    ensures Get(Put(g, row, col, d), r, c) == if r == row && c == col then Some(d) else Get(g, r, c)
  {
  }

  lemma PutIdempotent(g: Grid, row: nat, col: nat, d: Disc)
    ensures Put(Put(g, row, col, d), row, col, d) == Put(g, row, col, d)
  {
    if row < 8 && col < 8 {
      var once := Put(g, row, col, d);
      assert once[row][col := d] == once[row];
    }
  }

  class Board {
    var grid: array2<Disc>
    /** The abstract value of the board. */
    ghost var cells: Grid

    ghost predicate Valid()
      reads this, grid
    {
      grid.Length0 == 8 && grid.Length1 == 8 &&
      forall r, c :: 0 <= r < 8 && 0 <= c < 8 ==> grid[r, c] == cells[r][c]
    }

    constructor ()
      ensures Valid() && fresh(grid)
      ensures cells == InitialGrid()
    {
      var a := new Disc[8, 8]((r, c) => Empty);
      a[3, 3] := White;
      a[3, 4] := Black;
      a[4, 3] := Black;
      a[4, 4] := White;
      grid := a;
      cells := InitialGrid();
    }

    function GetDisc(row: nat, col: nat): (d: Option<Disc>)
      requires Valid()
      reads this, grid
      ensures d == Get(cells, row, col)
    {
      if row < 8 && col < 8 then Some(grid[row, col]) else None
    }

    method PutDisc(row: nat, col: nat, disc: Disc)
      requires Valid()
      modifies this`cells, grid
      ensures Valid()
      ensures cells == Put(old(cells), row, col, disc)
    {
      if row < 8 && col < 8 {
        grid[row, col] := disc;
      }
      cells := Put(cells, row, col, disc);
    }
  }
}
