/**
 * The rules engine as the source has it: a `Game` object owning a `Board`
 * and the side to move, whose queries walk the board with loops and whose
 * `MakeMove` updates the board and the turn in place.  Every method is
 * proved against the value-level rules of module `Rules`.
 */
module Game {
  import opened Board
  import opened Rules

  /** The walk from the start cell, given what is known of it from the current cell on. */
  function Prepend(prefix: seq<Cell>, run: Option<seq<Cell>>): Option<seq<Cell>> {
    match run
    case None => None
    case Some(rest) => Some(prefix + rest)
  }

  lemma PrependTwice(a: seq<Cell>, b: seq<Cell>, run: Option<seq<Cell>>)
    ensures Prepend(a, Prepend(b, run)) == Prepend(a + b, run)
    ensures Prepend([], run) == run
  {
    if run.Some? {
      assert a + (b + run.value) == (a + b) + run.value;
      assert [] + run.value == run.value;
    }
  }

  class Game {
    var board: Board
    var currentTurn: Disc

    ghost predicate Valid()
      reads this, board, board.grid
    {
      board.Valid() && currentTurn != Empty
    }

    /** The value this game stands for: what a clone of it holds. */
    ghost function State(): GameState
      reads this, board
    {
      GameState(board.cells, currentTurn)
    }

    constructor ()
      ensures Valid() && fresh(board) && fresh(board.grid)
      ensures State() == InitialState()
    {
      board := new Board();
      currentTurn := Black;
    }

    method IsValidMove(row: nat, col: nat, player: Disc) returns (valid: bool)
      requires Valid()
      ensures valid == ValidMove(board.cells, row, col, player)
    {
      if board.GetDisc(row, col) != Some(Empty) {
        return false;
      }
      var opponent := if player == Black then White else Black;
      for i := 0 to 8
        invariant forall k :: 0 <= k < i ==> !ValidDir(board.cells, row, col, Directions[k], player)
      {
        var closed := RayCloses(row, col, Directions[i], player, opponent);
        if closed {
          return true;
        }
      }
      return false;
    }

    /** One pass of the direction loop of `is_valid_move`: walk past opponent discs to a disc of `player`. */
    method RayCloses(row: nat, col: nat, d: Dir, player: Disc, opponent: Disc) returns (closed: bool)
      requires Valid() && opponent == Opponent(player)
      ensures closed == ValidDir(board.cells, row, col, d, player)
    {
      ghost var g := board.cells;
      var r, c := row + d.0, col + d.1;
      var hasOpponent := false;
      while 0 <= r < 8 && 0 <= c < 8
        invariant ValidDir(g, row, col, d, player) == Closes(Run(g, r, c, d, player), hasOpponent)
        decreases Reach(r, d.0) + Reach(c, d.1)
      {
        var disc := board.GetDisc(r, c);
        assert disc == Some(g[r][c]);
        RunStep(g, r, c, d, player);
        if disc == Some(opponent) {
          hasOpponent := true;
        } else if disc == Some(player) {
          assert Run(g, r, c, d, player) == Some([]);
          return hasOpponent;
        } else {
          assert Run(g, r, c, d, player) == None;
          return false;
        }
        r, c := r + d.0, c + d.1;
      }
      return false;
    }

    method GetValidMoves(player: Disc) returns (moves: seq<Cell>)
      requires Valid()
      ensures moves == ValidMoves(board.cells, player)
    {
      moves := [];
      for r := 0 to 8
        invariant moves == MovesUpTo(board.cells, player, r)
      {
        for c := 0 to 8
          invariant moves == MovesUpTo(board.cells, player, r) + RowMoves(board.cells, player, r, c)
        {
          var valid := IsValidMove(r, c, player);
          if valid {
            moves := moves + [(r, c)];
          }
        }
      }
    }

    method MakeMove(row: nat, col: nat, player: Disc) returns (ok: bool)
      requires Valid()
      modifies this`currentTurn, board`cells, board.grid
      ensures Valid()
      ensures ok == ValidMove(old(State()).grid, row, col, player)
      ensures State() == Play(old(State()), row, col, player)
      ensures !ok ==> State() == old(State())
      ensures ok ==> currentTurn == Opponent(old(currentTurn))
    {
      ok := IsValidMove(row, col, player);
      if !ok {
        return;
      }
      board.PutDisc(row, col, player);
      FlipDiscs(row, col, player);
      currentTurn := if currentTurn == Black then White else Black;
    }

    method FlipDiscs(row: nat, col: nat, player: Disc)
      requires Valid()
      modifies board`cells, board.grid
      ensures Valid()
      ensures board.cells == FlipAll(old(board.cells), row, col, player)
    {
      var opponent := if player == Black then White else Black;
      ghost var target := FlipAll(board.cells, row, col, player);
      for i := 0 to 8
        invariant Valid()
        invariant FlipFrom(board.cells, row, col, player, i) == target
      {
        ghost var before := board.cells;
        FlipRay(row, col, Directions[i], player, opponent);
        assert FlipFrom(before, row, col, player, i) == FlipFrom(board.cells, row, col, player, i + 1);
      }
    }

    /** One pass of the direction loop of `flip_discs`: walk the ray, flip it if it is closed. */
    method FlipRay(row: nat, col: nat, d: Dir, player: Disc, opponent: Disc)
      requires Valid() && opponent == Opponent(player)
      modifies board`cells, board.grid
      ensures Valid()
      ensures board.cells == FlipDirection(old(board.cells), row, col, d, player)
    {
      var r, c := row + d.0, col + d.1;
      var toFlip: seq<Cell> := [];
      ghost var start := board.cells;
      PrependTwice([], [], Run(start, r, c, d, player));
      while 0 <= r < 8 && 0 <= c < 8
        invariant Valid() && board.cells == start
        invariant Run(start, row + d.0, col + d.1, d, player) == Prepend(toFlip, Run(start, r, c, d, player))
        decreases Reach(r, d.0) + Reach(c, d.1)
      {
        var disc := board.GetDisc(r, c);
        assert disc == Some(start[r][c]);
        RunStep(start, r, c, d, player);
        if disc == Some(opponent) {
          PrependTwice(toFlip, [(r, c)], Run(start, r + d.0, c + d.1, d, player));
          toFlip := toFlip + [(r, c)];
        } else if disc == Some(player) {
          assert Run(start, r, c, d, player) == Some([]);
          assert toFlip + [] == toFlip;
          assert Captured(start, row, col, d, player) == toFlip;
          PutDiscs(toFlip, player);
          return;
        } else {
          assert Run(start, r, c, d, player) == None;
          return;
        }
        r, c := r + d.0, c + d.1;
      }
    }

    /** The write-back loop of `flip_discs`: every collected cell takes the mover's colour. */
    method PutDiscs(cells: seq<Cell>, player: Disc)
      requires Valid()
      modifies board`cells, board.grid
      ensures Valid()
      ensures board.cells == PutAll(old(board.cells), cells, player)
    {
      ghost var start := board.cells;
      for j := 0 to |cells|
        invariant Valid()
        invariant PutAll(board.cells, cells[j..], player) == PutAll(start, cells, player)
      {
        assert cells[j..][1..] == cells[j + 1..];
        board.PutDisc(cells[j].0, cells[j].1, player);
      }
      assert cells[|cells|..] == [];
    }

    method IsGameOver() returns (over: bool)
      requires Valid()
      ensures over == GameOver(board.cells)
    {
      var black := GetValidMoves(Black);
      if |black| != 0 {
        return false;
      }
      var white := GetValidMoves(White);
      over := |white| == 0;
    }

    method CountDiscs() returns (black: nat, white: nat)
      requires Valid()
      ensures (black, white) == Counts(board.cells)
    {
      ghost var g := board.cells;
      black, white := 0, 0;
      for r := 0 to 8
        invariant black == CountRows(g[..r], Black) && white == CountRows(g[..r], White)
      {
        for c := 0 to 8
          invariant black == CountRows(g[..r], Black) + CountRow(g[r][..c], Black)
          invariant white == CountRows(g[..r], White) + CountRow(g[r][..c], White)
        {
          assert g[r][..c + 1][..c] == g[r][..c];
          match board.GetDisc(r, c)
          case Some(Black) => black := black + 1;
          case Some(White) => white := white + 1;
          case _ =>
        }
        assert g[..r + 1][..r] == g[..r];
        assert g[r][..8] == g[r];
      }
      assert g[..8] == g;
    }
  }
}
