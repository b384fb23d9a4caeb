/**
 * The rules of Othello as functions over values: the ray walk that decides
 * legality, the row-major enumeration of legal moves, move application
 * (placement, the direction-by-direction flips, the turn toggle), the
 * game-over test and the disc tally.  These are the specifications that the
 * `Game` class is proved against, and what the move-selection engine uses
 * on its cloned states.
 */
module Rules {
  import opened Board

  /** A move or a cell: (row, column). */
  type Cell = (nat, nat)

  /** One of the eight compass steps. */
  type Dir = d: (int, int) | -1 <= d.0 <= 1 && -1 <= d.1 <= 1 && d != (0, 0) witness (0, 1)

  /** The directions in the order the source walks them. */
  const Directions: seq<Dir> := [(-1, -1), (-1, 0), (-1, 1), (0, -1), (0, 1), (1, -1), (1, 0), (1, 1)]

  datatype GameState = GameState(grid: Grid, turn: Disc)

  function InitialState(): GameState {
    GameState(InitialGrid(), Black)
  }

  /** How many steps along axis direction `d` remain on the board from `x`. */
  function Reach(x: int, d: int): int {
    if d > 0 then 8 - x else if d < 0 then x + 1 else 0
  }

  /**
   * The walk from (r, c) along d: `Some(cells)` when the cells met are a
   * (possibly empty) run of opponent discs closed by a disc of `p`, where
   * `cells` is that run in walking order; `None` when the walk meets an
   * empty cell or leaves the board first.
   */
  function Run(g: Grid, r: int, c: int, d: Dir, p: Disc): Option<seq<Cell>>
    decreases Reach(r, d.0) + Reach(c, d.1)
  {
    if !InBounds(r, c) then None
    else if g[r][c] == Opponent(p) then
      match Run(g, r + d.0, c + d.1, d, p)
      case None => None
      case Some(rest) => Some([(r, c)] + rest)
    else if g[r][c] == p then Some([])
    else None
  }

  /**
   * A walk that has already passed an opponent disc (`seen`) or that has
   * one still ahead validates the move when it is closed.
   */
  predicate Closes(run: Option<seq<Cell>>, seen: bool) {
    run.Some? && (seen || |run.value| > 0)
  }

  /** One step of the walk from an in-range cell. */
  lemma RunStep(g: Grid, r: int, c: int, d: Dir, p: Disc)
    requires InBounds(r, c)
    ensures g[r][c] == Opponent(p) ==>
      Run(g, r, c, d, p) == match Run(g, r + d.0, c + d.1, d, p)
                            case None => None
                            case Some(rest) => Some([(r, c)] + rest)
    ensures g[r][c] != Opponent(p) && g[r][c] == p ==> Run(g, r, c, d, p) == Some([])
    ensures g[r][c] != Opponent(p) && g[r][c] != p ==> Run(g, r, c, d, p) == None
  {
  }

  /** The walk from (row, col) in direction d validates the move. */
  predicate ValidDir(g: Grid, row: nat, col: nat, d: Dir, p: Disc) {
    Closes(Run(g, row + d.0, col + d.1, d, p), false)
  }

  /** `is_valid_move`: an empty, in-range target and at least one validating direction. */
  predicate ValidMove(g: Grid, row: nat, col: nat, p: Disc) {
    Get(g, row, col) == Some(Empty) &&
    exists k :: 0 <= k < 8 && ValidDir(g, row, col, Directions[k], p)
  }

  /** The legal moves (r, 0), ..., (r, n - 1) in column order. */
  function RowMoves(g: Grid, p: Disc, r: nat, n: nat): seq<Cell>
    requires r < 8 && n <= 8
  {
    if n == 0 then []
    else RowMoves(g, p, r, n - 1) + (if ValidMove(g, r, n - 1, p) then [(r, n - 1)] else [])
  }

  /** The legal moves of rows 0 .. n - 1 in row-major order. */
  function MovesUpTo(g: Grid, p: Disc, n: nat): seq<Cell>
    requires n <= 8
  {
    if n == 0 then [] else MovesUpTo(g, p, n - 1) + RowMoves(g, p, n - 1, 8)
  }

  /** `get_valid_moves`. */
  function ValidMoves(g: Grid, p: Disc): seq<Cell> {
    MovesUpTo(g, p, 8)
  }

  /** The cells the flip walk in direction d collects and then turns. */
  function Captured(g: Grid, row: nat, col: nat, d: Dir, p: Disc): seq<Cell> {
    match Run(g, row + d.0, col + d.1, d, p)
    case Some(cells) => cells
    case None => []
  }

  /** Writes `p` into every cell of `cells`, in order. */
  function PutAll(g: Grid, cells: seq<Cell>, p: Disc): Grid
    decreases |cells|
  {
    if cells == [] then g else PutAll(Put(g, cells[0].0, cells[0].1, p), cells[1..], p)
  }

  function FlipDirection(g: Grid, row: nat, col: nat, d: Dir, p: Disc): Grid {
    PutAll(g, Captured(g, row, col, d, p), p)
  }

  /** The directions i .. 7 of `flip_discs`, each walked on the grid the previous ones left. */
  function FlipFrom(g: Grid, row: nat, col: nat, p: Disc, i: nat): Grid
    requires i <= 8
    decreases 8 - i
  {
    if i == 8 then g else FlipFrom(FlipDirection(g, row, col, Directions[i], p), row, col, p, i + 1)
  }

  /** `flip_discs`. */
  function FlipAll(g: Grid, row: nat, col: nat, p: Disc): Grid {
    FlipFrom(g, row, col, p, 0)
  }

  /** The board after `p` plays at (row, col): place, then flip; an illegal move changes nothing. */
  function PlayGrid(g: Grid, row: nat, col: nat, p: Disc): Grid {
    if !ValidMove(g, row, col, p) then g
    else FlipAll(Put(g, row, col, p), row, col, p)
  }

  /** `make_move`: an illegal move changes nothing; a legal one also toggles the turn. */
  function Play(s: GameState, row: nat, col: nat, p: Disc): GameState {
    if !ValidMove(s.grid, row, col, p) then s
    else GameState(PlayGrid(s.grid, row, col, p), Opponent(s.turn))
  }

  /** `is_game_over`: it reads the board only. */
  predicate GameOver(g: Grid) {
    ValidMoves(g, Black) == [] && ValidMoves(g, White) == []
  }

  function CountRow(row: seq<Disc>, d: Disc): (n: nat)
    ensures n <= |row|
  {
    if row == [] then 0
    else CountRow(row[..|row| - 1], d) + (if row[|row| - 1] == d then 1 else 0)
  }

  function CountRows(rows: seq<seq<Disc>>, d: Disc): nat {
    if rows == [] then 0
    else CountRows(rows[..|rows| - 1], d) + CountRow(rows[|rows| - 1], d)
  }

  /** `count_discs`: (black, white). */
  function Counts(g: Grid): (nat, nat) {
    (CountRows(g, Black), CountRows(g, White))
  }

  /** The tally of `p` in a `count_discs` pair (White's for anything but Black, as in the source). */
  function Mine(counts: (nat, nat), p: Disc): nat {
    if p == Black then counts.0 else counts.1
  }

  // ---------------------------------------------------------------------
  // Enumeration

  function Index(m: Cell): nat {
    8 * m.0 + m.1
  }

  lemma {:induction false} RowMovesSpec(g: Grid, p: Disc, r: nat, n: nat)
    requires r < 8 && n <= 8
    ensures |RowMoves(g, p, r, n)| <= n
    ensures forall m :: m in RowMoves(g, p, r, n) <==> m.0 == r && m.1 < n && ValidMove(g, m.0, m.1, p)
    ensures forall i :: 0 <= i < |RowMoves(g, p, r, n)| ==>
      RowMoves(g, p, r, n)[i].0 == r && RowMoves(g, p, r, n)[i].1 < n
    ensures forall i, j :: 0 <= i < j < |RowMoves(g, p, r, n)| ==>
      RowMoves(g, p, r, n)[i].1 < RowMoves(g, p, r, n)[j].1
  {
    if n > 0 {
      RowMovesSpec(g, p, r, n - 1);
    }
  }

  lemma {:induction false} MovesUpToSpec(g: Grid, p: Disc, n: nat)
    requires n <= 8
    ensures |MovesUpTo(g, p, n)| <= 8 * n
    ensures forall m :: m in MovesUpTo(g, p, n) <==> m.0 < n && m.1 < 8 && ValidMove(g, m.0, m.1, p)
    ensures forall i :: 0 <= i < |MovesUpTo(g, p, n)| ==> Index(MovesUpTo(g, p, n)[i]) < 8 * n
    ensures forall i, j :: 0 <= i < j < |MovesUpTo(g, p, n)| ==>
      Index(MovesUpTo(g, p, n)[i]) < Index(MovesUpTo(g, p, n)[j])
  {
    if n > 0 {
      MovesUpToSpec(g, p, n - 1);
      RowMovesSpec(g, p, n - 1, 8);
      var prev, row := MovesUpTo(g, p, n - 1), RowMoves(g, p, n - 1, 8);
      assert MovesUpTo(g, p, n) == prev + row;
      forall i | 0 <= i < |row|
        ensures 8 * (n - 1) <= Index(row[i]) < 8 * n
      {
      }
    }
  }

  /**
   * The enumeration holds exactly the legal moves, in strictly increasing
   * row-major order (so without duplicates), and at most one per cell.
   */
  lemma ValidMovesSpec(g: Grid, p: Disc)
    ensures |ValidMoves(g, p)| <= 64
    ensures forall m :: m in ValidMoves(g, p) <==> m.0 < 8 && m.1 < 8 && ValidMove(g, m.0, m.1, p)
    ensures forall i, j :: 0 <= i < j < |ValidMoves(g, p)| ==>
      Index(ValidMoves(g, p)[i]) < Index(ValidMoves(g, p)[j])
  {
    MovesUpToSpec(g, p, 8);
  }

  /** The game is over exactly when no cell is a legal move for either side. */
  lemma GameOverSpec(g: Grid)
    ensures GameOver(g) <==>
      forall r: nat, c: nat :: !ValidMove(g, r, c, Black) && !ValidMove(g, r, c, White)
  {
    ValidMovesSpec(g, Black);
    ValidMovesSpec(g, White);
    if !GameOver(g) {
      var p := if ValidMoves(g, Black) != [] then Black else White;
      var m := ValidMoves(g, p)[0];
      assert m in ValidMoves(g, p);
    } else {
      forall r: nat, c: nat
        ensures !ValidMove(g, r, c, Black) && !ValidMove(g, r, c, White)
      {
        assert (r, c) !in ValidMoves(g, Black);
        assert (r, c) !in ValidMoves(g, White);
      }
    }
  }

  // ---------------------------------------------------------------------
  // Geometry of the rays

  /** x lies on the open ray from o in direction d, as far as signs go. */
  predicate Axis(o: int, x: int, d: int) {
    if d > 0 then x > o else if d < 0 then x < o else x == o
  }

  predicate Ahead(o: (int, int), x: (int, int), d: Dir) {
    Axis(o.0, x.0, d.0) && Axis(o.1, x.1, d.1)
  }

  /** Rays from one origin in two different directions share no cell. */
  lemma AheadUnique(o: (int, int), x: (int, int), d1: Dir, d2: Dir)
    requires Ahead(o, x, d1) && Ahead(o, x, d2)
    ensures d1 == d2 && x != o
  {
  }

  lemma DirectionsDistinct()
    ensures forall i, j :: 0 <= i < 8 && 0 <= j < 8 && i != j ==> Directions[i] != Directions[j]
  {
  }

  /** The walk visits only cells ahead of its origin, and reads nothing else. */
  lemma {:induction false} RunFrame(g: Grid, h: Grid, o: (int, int), r: int, c: int, d: Dir, p: Disc)
    requires Ahead(o, (r, c), d)
    requires forall i: nat, j: nat :: i < 8 && j < 8 && Ahead(o, (i, j), d) ==> g[i][j] == h[i][j]
    ensures Run(g, r, c, d, p) == Run(h, r, c, d, p)
    decreases Reach(r, d.0) + Reach(c, d.1)
  {
    if InBounds(r, c) {
      RunFrame(g, h, o, r + d.0, c + d.1, d, p);
    }
  }

  /** A closed run consists of in-range opponent discs ahead of the origin. */
  lemma {:induction false} RunCells(g: Grid, o: (int, int), r: int, c: int, d: Dir, p: Disc)
    requires Ahead(o, (r, c), d)
    ensures Run(g, r, c, d, p).Some? ==>
      forall x :: x in Run(g, r, c, d, p).value ==>
        x.0 < 8 && x.1 < 8 && Ahead(o, x, d) && g[x.0][x.1] == Opponent(p)
    decreases Reach(r, d.0) + Reach(c, d.1)
  {
    if InBounds(r, c) {
      RunCells(g, o, r + d.0, c + d.1, d, p);
    }
  }

  lemma CapturedCells(g: Grid, row: nat, col: nat, d: Dir, p: Disc)
    ensures forall x :: x in Captured(g, row, col, d, p) ==>
      x.0 < 8 && x.1 < 8 && Ahead((row, col), x, d) && g[x.0][x.1] == Opponent(p)
  {
    RunCells(g, (row, col), row + d.0, col + d.1, d, p);
  }

  /** Grids that agree away from (row, col) capture the same cells from it. */
  lemma CapturedFrame(g: Grid, h: Grid, row: nat, col: nat, d: Dir, p: Disc)
    requires forall i: nat, j: nat :: i < 8 && j < 8 && Ahead((row, col), (i, j), d) ==> g[i][j] == h[i][j]
    ensures Captured(g, row, col, d, p) == Captured(h, row, col, d, p)
  {
    RunFrame(g, h, (row, col), row + d.0, col + d.1, d, p);
  }

  // ---------------------------------------------------------------------
  // Legality as a bracket

  /** Coordinate x moved j steps along the axis step dx (-1, 0 or 1). */
  function Shift(x: int, dx: int, j: int): int {
    if dx > 0 then x + j else if dx < 0 then x - j else x
  }

  /** The cell j steps from (r, c) along d. */
  function Along(r: int, c: int, d: Dir, j: int): (int, int) {
    (Shift(r, d.0, j), Shift(c, d.1, j))
  }

  /** From (r, c) along d: n opponent discs and then a disc of p, every cell on the board. */
  predicate Bracket(g: Grid, r: int, c: int, d: Dir, p: Disc, n: nat) {
    (forall j :: 0 <= j <= n ==> InBounds(Along(r, c, d, j).0, Along(r, c, d, j).1)) &&
    (forall j :: 0 <= j < n ==> g[Along(r, c, d, j).0][Along(r, c, d, j).1] == Opponent(p)) &&
    g[Along(r, c, d, n).0][Along(r, c, d, n).1] == p
  }

  lemma AlongShift(r: int, c: int, d: Dir, j: int)
    ensures Along(r + d.0, c + d.1, d, j) == Along(r, c, d, j + 1)
  {
  }

  /** A bracket of n + 1 opponent discs starts with an opponent disc followed by a bracket of n. */
  lemma BracketTail(g: Grid, r: int, c: int, d: Dir, p: Disc, n: nat)
    requires Bracket(g, r, c, d, p, n + 1)
    ensures InBounds(r, c) && g[r][c] == Opponent(p) && Bracket(g, r + d.0, c + d.1, d, p, n)
  {
    assert Along(r, c, d, 0) == (r, c);
    var r1, c1 := r + d.0, c + d.1;
    forall j | 0 <= j <= n
      ensures InBounds(Along(r1, c1, d, j).0, Along(r1, c1, d, j).1)
    {
      AlongShift(r, c, d, j);
    }
    forall j | 0 <= j < n
      ensures g[Along(r1, c1, d, j).0][Along(r1, c1, d, j).1] == Opponent(p)
    {
      AlongShift(r, c, d, j);
    }
    AlongShift(r, c, d, n);
  }

  /** An opponent disc followed by a bracket of n is a bracket of n + 1. */
  lemma BracketCons(g: Grid, r: int, c: int, d: Dir, p: Disc, n: nat)
    requires InBounds(r, c) && g[r][c] == Opponent(p) && Bracket(g, r + d.0, c + d.1, d, p, n)
    ensures Bracket(g, r, c, d, p, n + 1)
  {
    assert Along(r, c, d, 0) == (r, c);
    forall j | 0 <= j <= n + 1
      ensures InBounds(Along(r, c, d, j).0, Along(r, c, d, j).1)
    {
      if j > 0 {
        AlongShift(r, c, d, j - 1);
      }
    }
    forall j | 0 <= j < n + 1
      ensures g[Along(r, c, d, j).0][Along(r, c, d, j).1] == Opponent(p)
    {
      if j > 0 {
        AlongShift(r, c, d, j - 1);
      }
    }
    AlongShift(r, c, d, n);
  }

  /** The walk from (r, c) is closed after exactly n opponent discs iff they form a bracket. */
  lemma {:induction false} RunBracket(g: Grid, r: int, c: int, d: Dir, p: Disc, n: nat)
    ensures Bracket(g, r, c, d, p, n) <==> Run(g, r, c, d, p).Some? && |Run(g, r, c, d, p).value| == n
    decreases Reach(r, d.0) + Reach(c, d.1)
  {
    if InBounds(r, c) && g[r][c] == Opponent(p) && n > 0 {
      RunBracket(g, r + d.0, c + d.1, d, p, n - 1);
      RunBracketStep(g, r, c, d, p, n - 1);
    } else {
      RunBracketBase(g, r, c, d, p, n);
    }
  }

  /** The base of `RunBracket`: the walk stops at (r, c), or no opponent disc is expected. */
  lemma RunBracketBase(g: Grid, r: int, c: int, d: Dir, p: Disc, n: nat)
    requires !(InBounds(r, c) && g[r][c] == Opponent(p)) || n == 0
    ensures Bracket(g, r, c, d, p, n) <==> Run(g, r, c, d, p).Some? && |Run(g, r, c, d, p).value| == n
  {
    assert Along(r, c, d, 0) == (r, c);
  }

  /** The step of `RunBracket`: an opponent disc at (r, c) extends a bracket from the next cell by one. */
  lemma RunBracketStep(g: Grid, r: int, c: int, d: Dir, p: Disc, n: nat)
    requires InBounds(r, c) && g[r][c] == Opponent(p)
    requires Bracket(g, r + d.0, c + d.1, d, p, n) <==>
      Run(g, r + d.0, c + d.1, d, p).Some? && |Run(g, r + d.0, c + d.1, d, p).value| == n
    ensures Bracket(g, r, c, d, p, n + 1) <==> Run(g, r, c, d, p).Some? && |Run(g, r, c, d, p).value| == n + 1
  {
    if Bracket(g, r, c, d, p, n + 1) {
      BracketTail(g, r, c, d, p, n);
      RunCons(g, r, c, d, p);
    }
    if Run(g, r, c, d, p).Some? && |Run(g, r, c, d, p).value| == n + 1 {
      RunCons(g, r, c, d, p);
      BracketCons(g, r, c, d, p, n);
    }
  }

  /** From an opponent disc, the walk is closed exactly when the walk from the next cell is, one cell longer. */
  lemma RunCons(g: Grid, r: int, c: int, d: Dir, p: Disc)
    requires InBounds(r, c) && g[r][c] == Opponent(p)
    ensures Run(g, r, c, d, p).Some? == Run(g, r + d.0, c + d.1, d, p).Some?
    ensures Run(g, r, c, d, p).Some? ==> |Run(g, r, c, d, p).value| == |Run(g, r + d.0, c + d.1, d, p).value| + 1
  {
  }

  /**
   * A direction validates a move exactly when the cells next to the target
   * are one or more opponent discs followed by a disc of the mover.
   */
  lemma ValidDirBracket(g: Grid, row: nat, col: nat, d: Dir, p: Disc)
    ensures var r, c := row + d.0, col + d.1;
      ValidDir(g, row, col, d, p) <==> exists n :: 1 <= n && Bracket(g, r, c, d, p, n)
  {
    var r, c := row + d.0, col + d.1;
    var run := Run(g, r, c, d, p);
    if run.Some? {
      RunBracket(g, r, c, d, p, |run.value|);
    }
    if exists n :: 1 <= n && Bracket(g, r, c, d, p, n) {
      var n :| 1 <= n && Bracket(g, r, c, d, p, n);
      RunBracket(g, r, c, d, p, n);
    }
  }

  // ---------------------------------------------------------------------
  // Flipping

  lemma {:induction false} PutAllCells(g: Grid, cells: seq<Cell>, p: Disc)
    requires forall x :: x in cells ==> x.0 < 8 && x.1 < 8
    ensures forall i: nat, j: nat :: i < 8 && j < 8 ==>
      PutAll(g, cells, p)[i][j] == if (i, j) in cells then p else g[i][j]
    decreases |cells|
  {
    if cells != [] {
      PutAllCells(Put(g, cells[0].0, cells[0].1, p), cells[1..], p);
      assert forall x :: x in cells <==> x == cells[0] || x in cells[1..];
    }
  }

  /** Cell x is captured by one of the directions i .. 7 walked on g. */
  ghost predicate CapturedFrom(g: Grid, row: nat, col: nat, p: Disc, i: nat, x: Cell) {
    exists k :: i <= k < 8 && x in Captured(g, row, col, Directions[k], p)
  }

  /**
   * Walking the directions one after another gives the same grid as turning
   * every cell captured on the starting grid at once: flips in one direction
   * never touch the ray of another.
   */
  lemma {:induction false} FlipFromCells(g: Grid, row: nat, col: nat, p: Disc, i: nat)
    requires i <= 8
    ensures forall x: nat, y: nat :: x < 8 && y < 8 ==>
      FlipFrom(g, row, col, p, i)[x][y] == if CapturedFrom(g, row, col, p, i, (x, y)) then p else g[x][y]
    decreases 8 - i
  {
    if i < 8 {
      var d := Directions[i];
      var cap := Captured(g, row, col, d, p);
      var g' := FlipDirection(g, row, col, d, p);
      CapturedCells(g, row, col, d, p);
      PutAllCells(g, cap, p);
      FlipFromCells(g', row, col, p, i + 1);
      DirectionsDistinct();
      forall k | i < k < 8
        ensures Captured(g', row, col, Directions[k], p) == Captured(g, row, col, Directions[k], p)
      {
        forall a: nat, b: nat | a < 8 && b < 8 && Ahead((row, col), (a, b), Directions[k])
          ensures g'[a][b] == g[a][b]
        {
          if (a, b) in cap {
            AheadUnique((row, col), (a, b), d, Directions[k]);
          }
        }
        CapturedFrame(g', g, row, col, Directions[k], p);
      }
      forall x: nat, y: nat | x < 8 && y < 8
        ensures CapturedFrom(g, row, col, p, i, (x, y)) <==>
          (x, y) in cap || CapturedFrom(g', row, col, p, i + 1, (x, y))
      {
        if (x, y) in cap {
          assert (x, y) in Captured(g, row, col, Directions[i], p);
        }
        if CapturedFrom(g', row, col, p, i + 1, (x, y)) {
          var k :| i + 1 <= k < 8 && (x, y) in Captured(g', row, col, Directions[k], p);
          assert (x, y) in Captured(g, row, col, Directions[k], p);
        }
        if CapturedFrom(g, row, col, p, i, (x, y)) && (x, y) !in cap {
          var k :| i <= k < 8 && (x, y) in Captured(g, row, col, Directions[k], p);
          assert (x, y) in Captured(g', row, col, Directions[k], p);
        }
      }
    }
  }

  /** Cell x is flipped when (row, col) is played by p on g. */
  ghost predicate Flips(g: Grid, row: nat, col: nat, p: Disc, x: Cell) {
    CapturedFrom(g, row, col, p, 0, x)
  }

  /** Placing the disc does not change what any direction captures. */
  lemma PlacementKeepsFlips(g: Grid, row: nat, col: nat, p: Disc)
    ensures forall x: nat, y: nat :: x < 8 && y < 8 ==>
      (CapturedFrom(Put(g, row, col, p), row, col, p, 0, (x, y)) <==> Flips(g, row, col, p, (x, y)))
  {
    var g0 := Put(g, row, col, p);
    forall k | 0 <= k < 8
      ensures Captured(g0, row, col, Directions[k], p) == Captured(g, row, col, Directions[k], p)
    {
      CapturedFrame(g0, g, row, col, Directions[k], p);
    }
    forall x: nat, y: nat | x < 8 && y < 8
      ensures CapturedFrom(g0, row, col, p, 0, (x, y)) <==> Flips(g, row, col, p, (x, y))
    {
      if Flips(g, row, col, p, (x, y)) {
        var k :| 0 <= k < 8 && (x, y) in Captured(g, row, col, Directions[k], p);
        assert (x, y) in Captured(g0, row, col, Directions[k], p);
      }
      if CapturedFrom(g0, row, col, p, 0, (x, y)) {
        var k :| 0 <= k < 8 && (x, y) in Captured(g0, row, col, Directions[k], p);
        assert (x, y) in Captured(g, row, col, Directions[k], p);
      }
    }
  }

  /** Only opponent discs are flipped, and never the target itself. */
  lemma FlipsAreOpponents(g: Grid, row: nat, col: nat, p: Disc, x: Cell)
    requires Flips(g, row, col, p, x)
    ensures x.0 < 8 && x.1 < 8 && x != (row, col) && g[x.0][x.1] == Opponent(p)
  {
    var k :| 0 <= k < 8 && x in Captured(g, row, col, Directions[k], p);
    CapturedCells(g, row, col, Directions[k], p);
  }

  /** A legal move flips at least one disc. */
  lemma ValidMoveFlips(g: Grid, row: nat, col: nat, p: Disc) returns (x: Cell)
    requires ValidMove(g, row, col, p)
    ensures x.0 < 8 && x.1 < 8 && Flips(g, row, col, p, x)
  {
    var k :| 0 <= k < 8 && ValidDir(g, row, col, Directions[k], p);
    x := Captured(g, row, col, Directions[k], p)[0];
    CapturedCells(g, row, col, Directions[k], p);
  }

  /**
   * Placing p at an in-range (row, col) and flipping from there: the target
   * holds p and every other cell changes exactly when it is flipped.
   */
  lemma PlaceAndFlip(g: Grid, row: nat, col: nat, p: Disc)
    requires row < 8 && col < 8
    ensures FlipAll(Put(g, row, col, p), row, col, p)[row][col] == p
    ensures forall x: nat, y: nat :: x < 8 && y < 8 && (x, y) != (row, col) ==>
      FlipAll(Put(g, row, col, p), row, col, p)[x][y] == if Flips(g, row, col, p, (x, y)) then p else g[x][y]
  {
    var g0 := Put(g, row, col, p);
    var h := FlipFrom(g0, row, col, p, 0);
    FlipFromCells(g0, row, col, p, 0);
    PlacementKeepsFlips(g, row, col, p);
    if Flips(g, row, col, p, (row, col)) {
      FlipsAreOpponents(g, row, col, p, (row, col));
    }
    assert h[row][col] == p;
    forall x: nat, y: nat | x < 8 && y < 8 && (x, y) != (row, col)
      ensures h[x][y] == if Flips(g, row, col, p, (x, y)) then p else g[x][y]
    {
      assert g0[x][y] == g[x][y];
    }
  }

  /**
   * The effect of a legal move: the target holds the mover's disc, the turn
   * toggles, and every other cell changes exactly when it is flipped.
   */
  lemma PlayEffect(s: GameState, row: nat, col: nat, p: Disc)
    requires ValidMove(s.grid, row, col, p)
    ensures row < 8 && col < 8 && s.grid[row][col] == Empty
    ensures Play(s, row, col, p).turn == Opponent(s.turn)
    ensures Play(s, row, col, p).grid[row][col] == p
    ensures forall x: nat, y: nat :: x < 8 && y < 8 && (x, y) != (row, col) ==>
      Play(s, row, col, p).grid[x][y] == if Flips(s.grid, row, col, p, (x, y)) then p else s.grid[x][y]
  {
    assert Play(s, row, col, p) == GameState(FlipAll(Put(s.grid, row, col, p), row, col, p), Opponent(s.turn));
    PlaceAndFlip(s.grid, row, col, p);
  }

  // ---------------------------------------------------------------------
  // Counting

  lemma {:induction false} CountRowUpdate(row: seq<Disc>, c: nat, v: Disc, d: Disc)
    requires c < |row|
    ensures CountRow(row[c := v], d) ==
      CountRow(row, d) - (if row[c] == d then 1 else 0) + (if v == d then 1 else 0)
  {
    var n := |row|;
    if c == n - 1 {
      assert row[c := v][..n - 1] == row[..n - 1];
    } else {
      CountRowUpdate(row[..n - 1], c, v, d);
      assert row[c := v][..n - 1] == row[..n - 1][c := v];
    }
  }

  lemma {:induction false} CountRowsUpdate(rows: seq<seq<Disc>>, r: nat, c: nat, v: Disc, d: Disc)
    requires r < |rows| && c < |rows[r]|
    ensures CountRows(rows[r := rows[r][c := v]], d) ==
      CountRows(rows, d) - (if rows[r][c] == d then 1 else 0) + (if v == d then 1 else 0)
  {
    var n := |rows|;
    if r == n - 1 {
      assert rows[r := rows[r][c := v]][..n - 1] == rows[..n - 1];
      CountRowUpdate(rows[r], c, v, d);
    } else {
      CountRowsUpdate(rows[..n - 1], r, c, v, d);
      assert rows[r := rows[r][c := v]][..n - 1] == rows[..n - 1][r := rows[r][c := v]];
    }
  }

  /** Number of positions at which two rows differ. */
  function DiffRow(x: seq<Disc>, y: seq<Disc>): nat
    requires |x| == |y|
  {
    if x == [] then 0
    else DiffRow(x[..|x| - 1], y[..|y| - 1]) + (if x[|x| - 1] != y[|y| - 1] then 1 else 0)
  }

  predicate SameShape(g: seq<seq<Disc>>, h: seq<seq<Disc>>) {
    |g| == |h| && forall r :: 0 <= r < |g| ==> |g[r]| == |h[r]|
  }

  function DiffRows(g: seq<seq<Disc>>, h: seq<seq<Disc>>): nat
    requires SameShape(g, h)
  {
    if g == [] then 0
    else DiffRows(g[..|g| - 1], h[..|h| - 1]) + DiffRow(g[|g| - 1], h[|h| - 1])
  }

  /** Recolouring some `a` cells to `b` moves exactly the number of changed cells from a's tally to b's. */
  lemma {:induction false} RecolourRow(x: seq<Disc>, y: seq<Disc>, a: Disc, b: Disc)
    requires |x| == |y| && a != b
    requires forall i :: 0 <= i < |x| ==> y[i] == x[i] || (x[i] == a && y[i] == b)
    ensures CountRow(y, b) == CountRow(x, b) + DiffRow(x, y)
    ensures CountRow(y, a) + DiffRow(x, y) == CountRow(x, a)
  {
    if x != [] {
      RecolourRow(x[..|x| - 1], y[..|y| - 1], a, b);
    }
  }

  lemma {:induction false} RecolourRows(g: seq<seq<Disc>>, h: seq<seq<Disc>>, a: Disc, b: Disc)
    requires SameShape(g, h) && a != b
    requires forall r, c :: 0 <= r < |g| && 0 <= c < |g[r]| ==> h[r][c] == g[r][c] || (g[r][c] == a && h[r][c] == b)
    ensures CountRows(h, b) == CountRows(g, b) + DiffRows(g, h)
    ensures CountRows(h, a) + DiffRows(g, h) == CountRows(g, a)
  {
    if g != [] {
      var n := |g|;
      RecolourRows(g[..n - 1], h[..n - 1], a, b);
      RecolourRow(g[n - 1], h[n - 1], a, b);
    }
  }

  lemma {:induction false} DiffRowPositive(x: seq<Disc>, y: seq<Disc>, c: nat)
    requires |x| == |y| && c < |x| && x[c] != y[c]
    ensures DiffRow(x, y) >= 1
  {
    if c < |x| - 1 {
      DiffRowPositive(x[..|x| - 1], y[..|y| - 1], c);
    }
  }

  lemma {:induction false} DiffRowsPositive(g: seq<seq<Disc>>, h: seq<seq<Disc>>, r: nat, c: nat)
    requires SameShape(g, h) && r < |g| && c < |g[r]| && g[r][c] != h[r][c]
    ensures DiffRows(g, h) >= 1
  {
    var n := |g|;
    if r < n - 1 {
      DiffRowsPositive(g[..n - 1], h[..n - 1], r, c);
    } else {
      DiffRowPositive(g[r], h[r], c);
    }
  }

  /**
   * Placing a disc of a real side `p` on an empty cell and recolouring some
   * opponent discs, at least one, to `p`: one more disc in all, at least two
   * more for `p`, at least one fewer for the opponent.
   */
  lemma CaptureCounts(g: Grid, h: Grid, row: nat, col: nat, p: Disc, x: Cell)
    requires p != Empty && row < 8 && col < 8 && g[row][col] == Empty && h[row][col] == p
    requires forall r, c :: 0 <= r < 8 && 0 <= c < 8 && (r, c) != (row, col) ==>
      h[r][c] == g[r][c] || (g[r][c] == Opponent(p) && h[r][c] == p)
    requires x.0 < 8 && x.1 < 8 && x != (row, col) && g[x.0][x.1] == Opponent(p) && h[x.0][x.1] == p
    ensures var before, after := Counts(g), Counts(h);
      && after.0 + after.1 == before.0 + before.1 + 1
      && Mine(after, p) >= Mine(before, p) + 2
      && Mine(after, Opponent(p)) + 1 <= Mine(before, Opponent(p))
  {
    var g0 := g[row := g[row][col := p]];
    var q := Opponent(p);
    CountRowsUpdate(g, row, col, p, p);
    CountRowsUpdate(g, row, col, p, q);
    assert CountRows(g0, p) == CountRows(g, p) + 1;
    assert CountRows(g0, q) == CountRows(g, q);
    assert forall r, c :: 0 <= r < |g0| && 0 <= c < |g0[r]| ==>
      h[r][c] == g0[r][c] || (g0[r][c] == q && h[r][c] == p);
    RecolourRows(g0, h, q, p);
    DiffRowsPositive(g0, h, x.0, x.1);
    assert p == Black || p == White;
  }

  /**
   * A legal move by a real side adds exactly one disc to the board, gains
   * the mover at least two discs and costs the opponent at least one.
   */
  lemma PlayCounts(s: GameState, row: nat, col: nat, p: Disc)
    requires p != Empty && ValidMove(s.grid, row, col, p)
    ensures var before, after := Counts(s.grid), Counts(Play(s, row, col, p).grid);
      && after.0 + after.1 == before.0 + before.1 + 1
      && Mine(after, p) >= Mine(before, p) + 2
      && Mine(after, Opponent(p)) + 1 <= Mine(before, Opponent(p))
  {
    var g := s.grid;
    var h := Play(s, row, col, p).grid;
    PlayEffect(s, row, col, p);
    forall r, c | 0 <= r < 8 && 0 <= c < 8 && (r, c) != (row, col)
      ensures h[r][c] == g[r][c] || (g[r][c] == Opponent(p) && h[r][c] == p)
    {
      if Flips(g, row, col, p, (r, c)) {
        FlipsAreOpponents(g, row, col, p, (r, c));
      }
    }
    var x := ValidMoveFlips(g, row, col, p);
    FlipsAreOpponents(g, row, col, p, x);
    CaptureCounts(g, h, row, col, p, x);
  }

  lemma {:induction false} CountRowAbsent(row: seq<Disc>, d: Disc)
    requires forall c :: 0 <= c < |row| ==> row[c] != d
    ensures CountRow(row, d) == 0
  {
    if row != [] {
      CountRowAbsent(row[..|row| - 1], d);
    }
  }

  lemma {:induction false} CountRowsAbsent(rows: seq<seq<Disc>>, d: Disc)
    requires forall r, c :: 0 <= r < |rows| && 0 <= c < |rows[r]| ==> rows[r][c] != d
    ensures CountRows(rows, d) == 0
  {
    if rows != [] {
      CountRowsAbsent(rows[..|rows| - 1], d);
      CountRowAbsent(rows[|rows| - 1], d);
    }
  }

  /** A new game starts with two discs of each colour: four placed on an empty board. */
  lemma InitialCounts()
    ensures Counts(InitialState().grid) == (2, 2)
  {
    var empty := seq(8, r => seq(8, c => Empty));
    CountRowsAbsent(empty, Black);
    CountRowsAbsent(empty, White);
    var g1 := Put(empty, 3, 3, White);
    var g2 := Put(g1, 3, 4, Black);
    var g3 := Put(g2, 4, 3, Black);
    var g4 := Put(g3, 4, 4, White);
    CountRowsUpdate(empty, 3, 3, White, Black);
    CountRowsUpdate(empty, 3, 3, White, White);
    CountRowsUpdate(g1, 3, 4, Black, Black);
    CountRowsUpdate(g1, 3, 4, Black, White);
    CountRowsUpdate(g2, 4, 3, Black, Black);
    CountRowsUpdate(g2, 4, 3, Black, White);
    CountRowsUpdate(g3, 4, 4, White, Black);
    CountRowsUpdate(g3, 4, 4, White, White);
    var g := InitialGrid();
    forall r | 0 <= r < 8
      ensures g[r] == g4[r]
    {
      assert forall c :: 0 <= c < 8 ==> g[r][c] == g4[r][c];
    }
    assert g == g4;
  }
}
