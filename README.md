# Othello: rules engine and CPU move selection

This project models the core of a terminal Othello (Reversi) program written in Rust, and proves properties of that model:

- the 8×8 board of `Black`, `White` and `Empty` discs (`src/board.rs`);
- the rules engine (`src/game.rs`):
  - move legality by an eight-direction ray walk;
  - the row-major list of legal moves;
  - `make_move`, which places a disc, flips along every bracketed ray and toggles the side to move;
  - the game-over test and the disc tally;
- the CPU player (`src/cpu.rs`):
  - random, greedy and minimax move choice;
  - a depth-4 minimax with alpha-beta pruning and a forced-pass rule;
  - the static evaluator: disc difference, plus 5 × mobility difference, plus a positional weight table.

The project has four modules, one per file:

- `Board` (`board.dfy`):
  - the value-level grid, with its bounds-checked read `Get` and its permissive write `Put`;
  - the `Board` class, an `array2<Disc>` whose abstract value is the ghost field `cells`.
- `Rules` (`rules.dfy`): the rules as functions over values. The ray walk `Run`, `ValidMove`, `ValidMoves`, the direction-by-direction flip `FlipAll`, `Play`, `GameOver` and `Counts` are stated here, together with the lemmas about them.
- `Game` (`game.dfy`): the `Game` class, which owns a `Board` and the side to move. Its methods keep the source's loops and in-place updates, and each is proved equal to its `Rules` counterpart.
- `Cpu` (`cpu.dfy`): the move-selection engine.
  - It works on the value form `GameState`, as the source works on clones of the game.
  - The search is specified over `GameTree`, the tree of positions `minimax` visits.
  - `AlphaBeta` walks that tree with the source's cut-offs, and `MinimaxValue` explores every child.
  - A window lemma (Knuth and Moore) relates the two. With the full `i32` window, pruning therefore changes no score.

## Model

| member | source | states |
|---|---|---|
| Board.Opponent | src/cpu.rs:151-153 | the opponent is never `Empty` and never the player; it is `White` exactly when the player is `Black` |
| Board.InitialLayout | src/board.rs:26-33 | the starting grid is 8×8 with White on (3,3) and (4,4), Black on (3,4) and (4,3), and every other cell Empty |
| Board.GetInRange | src/board.rs:37-43 | a read returns a disc exactly when row and column are below 8, and that disc is the grid's cell |
| Board.PutOutOfRange | src/board.rs:45-49 | a write with row or column out of range leaves the grid unchanged |
| Board.PutThenGet | src/board.rs:45-49 | after an in-range write, reading that cell gives the written disc and every other cell reads as before |
| Board.PutIdempotent | src/board.rs:45-49 | writing the same disc twice to a cell gives the same grid as writing it once |
| Board.Board.constructor | src/board.rs:26-33 | a new board's array holds the starting grid |
| Board.Board.GetDisc | src/board.rs:37-43 | the array read agrees with the bounds-checked read of the abstract grid |
| Board.Board.PutDisc | src/board.rs:45-49 | the array write leaves the board equal to the permissive write of the old grid |
| Rules.RunBracket | src/game.rs:42-55 | the walk closes after exactly n opponent discs if and only if the next n cells on the ray hold the opponent and the cell after them holds the player |
| Rules.ValidDirBracket | src/game.rs:30-57 | a direction validates a move if and only if the adjacent cells on the ray are one or more opponent discs followed, in bounds, by a disc of the player |
| Rules.RowMovesSpec | src/game.rs:60-70 | the scan of one row yields exactly its legal cells, in column order and without repeats |
| Rules.MovesUpToSpec | src/game.rs:60-70 | the scan of the first n rows yields exactly their legal cells, in row-major order and without repeats |
| Rules.ValidMovesSpec | src/game.rs:60-70 | the legal-move list holds a cell if and only if the cell is in range and a legal move; it is strictly increasing in row-major order and has at most 64 entries |
| Rules.GameOverSpec | src/game.rs:113-115 | the game is over if and only if no cell is a legal move for Black and none is for White |
| Rules.FlipFromCells | src/game.rs:83-111 | flipping the directions one after another on the updated grid turns a cell to the player exactly when the walk on the original grid captured it in one of those directions |
| Rules.PlacementKeepsFlips | src/game.rs:77-78 | placing the disc before flipping does not change which cells are captured |
| Rules.FlipsAreOpponents | src/game.rs:83-111 | every flipped cell is in range, is not the target, and held an opponent disc |
| Rules.ValidMoveFlips | src/game.rs:25-111 | a legal move flips at least one disc |
| Rules.PlaceAndFlip | src/game.rs:77-78 | after placing and flipping, the target holds the player and every other cell holds the player if it was captured and is unchanged otherwise |
| Rules.PlayEffect | src/game.rs:72-81 | a legal move was aimed at an empty in-range cell. Afterwards the target holds the player, the side to move is toggled from its previous value, and only captured cells change, each to the player |
| Rules.CaptureCounts | src/game.rs:117-130 | a grid that differs from the old one by filling the empty target and recolouring opponent discs (at least one) to the player has one more disc in total, at least two more of the player's and at least one fewer of the opponent's |
| Rules.PlayCounts | src/game.rs:72-81 | after a legal move the disc total rises by exactly 1, the mover's count by at least 2, and the opponent's count falls by at least 1 |
| Rules.InitialCounts | src/game.rs:10-15 | a new game counts two Black and two White discs |
| Game.Game.constructor | src/game.rs:10-15 | a new game holds the starting grid with Black to move |
| Game.Game.IsValidMove | src/game.rs:25-58 | the loop answers exactly `ValidMove` on the current board |
| Game.Game.RayCloses | src/game.rs:38-55 | the walk in one direction answers exactly whether that direction validates the move |
| Game.Game.GetValidMoves | src/game.rs:60-70 | the double loop returns exactly `ValidMoves` of the current board |
| Game.Game.MakeMove | src/game.rs:72-81 | returns whether the move was legal; the new state is `Play` of the old one; an illegal move changes neither board nor turn; a legal one toggles the turn from its previous value |
| Game.Game.FlipDiscs | src/game.rs:83-111 | the board becomes the eight-direction sequential flip of the old board |
| Game.Game.FlipRay | src/game.rs:92-109 | one direction's walk collects the captured run and writes it back only when the ray is closed |
| Game.Game.PutDiscs | src/game.rs:100-102 | the write-back loop puts the player's disc on every collected cell, in order |
| Game.Game.IsGameOver | src/game.rs:113-115 | answers exactly `GameOver` of the current board |
| Game.Game.CountDiscs | src/game.rs:117-130 | the counting loops return exactly the Black and White tallies of the board |
| Cpu.OpponentInvolution | src/cpu.rs:151-153 | on Black and White, the opponent of the opponent is the player |
| Cpu.TableFacts | src/cpu.rs:125-134 | the weight table is 8×8, bounded by 100 in absolute value, and unchanged by reversing rows or columns |
| Cpu.TableTranspose | src/cpu.rs:125-134 | the weight table is unchanged by transposition |
| Cpu.Evaluate | src/cpu.rs:110-122 | the evaluation lies within ±EvalBound (6784) |
| Cpu.EvaluateAntisymmetric | src/cpu.rs:110-149 | the positional score and the evaluation for Black are the negation of those for White |
| Cpu.CalculatePositionalScore | src/cpu.rs:124-149 | the double loop adds a cell's weight for the player's discs and subtracts it for the opponent's; the result lies within ±6400 |
| Cpu.EvaluateBoard | src/cpu.rs:110-122 | returns disc difference + 5 × mobility difference + positional score, within ±EvalBound |
| Cpu.GameTree | src/cpu.rs:66-108 | every searched tree is bounded: evaluations lie within ±EvalBound and every move node has a child |
| Cpu.AlphaBetaWindow | src/cpu.rs:78-107 | the pruned value is exact when it falls strictly inside (alpha, beta), and on the correct side of the window otherwise |
| Cpu.MaxLoopWindow | src/cpu.rs:81-93 | the maximizing loop, cut-offs included, satisfies the window property against the plain maximum |
| Cpu.MinLoopWindow | src/cpu.rs:94-107 | the minimizing loop, cut-offs included, satisfies the window property against the plain minimum |
| Cpu.FullWindowExact | src/cpu.rs:53-56 | with the window (`i32::MIN`, `i32::MAX`), alpha-beta returns the plain minimax value, which lies within ±EvalBound |
| Cpu.Minimax | src/cpu.rs:66-108 | the recursive search returns the pruned value of the tree built from the board alone, so the game's `current_turn` plays no part; every recursion, pass included, lowers the depth |
| Cpu.ChildSearch | src/cpu.rs:84-99 | in both the maximizing and the minimizing loop, searching a child on its cloned state gives that child subtree's pruned value |
| Cpu.MaxSearch | src/cpu.rs:81-93 | the maximizing branch returns the pruned value of the node |
| Cpu.MaxChildren | src/cpu.rs:82-92 | the maximizing loop, with its `beta <= alpha` break, computes the pruned maximum over the children |
| Cpu.MinSearch | src/cpu.rs:94-107 | the minimizing branch returns the pruned value of the node |
| Cpu.MinChildren | src/cpu.rs:95-106 | the minimizing loop, with its `beta <= alpha` break, computes the pruned minimum over the children |
| Cpu.RandomMove | src/cpu.rs:19-23 | the random choice is an element of the move list |
| Cpu.RunningBestStep | src/cpu.rs:39-42 | a strictly greater score takes over the running best and a tie keeps the earlier move |
| Cpu.RunningBestDone | src/cpu.rs:39-45 | at the end of the scan the running best is the earliest greatest score |
| Cpu.GreedyMove | src/cpu.rs:25-46 | returns the earliest move whose resulting total disc count for the mover is greatest |
| Cpu.MoveScore | src/cpu.rs:53-56 | the minimax loop body returns the depth-4 plain minimax value of the candidate, opponent to move |
| Cpu.MinimaxMove | src/cpu.rs:48-64 | returns the earliest move with the greatest depth-4 minimax value |
| Cpu.GetBestMove | src/cpu.rs:6-17 | (0, 0) when the player has no legal move; otherwise a legal move. Easy picks the drawn element; Medium and Hard pick the earliest best move by total disc count and by minimax value respectively |

## Left out

- `src/main.rs` is not part of this model. It holds the terminal interface, menus, animation, keyboard input and the top-level loop, which also passes a turn by setting `current_turn` directly.
- `src/player.rs` is not part of this model. It is a thin dispatcher to `get_best_move`; only the `CpuLevel` enum is modelled.
- The `Display` impl for `Disc` is left out. It only produces glyphs for the terminal.
- The `Game` accessors `board()` and `current_turn()` are plain field reads. The model uses the fields directly.
- `Cpu.RandomMove`: the random generator is replaced by a `draw` parameter reduced modulo the number of moves. The model does not state that the choice is uniform.
- `Cpu.Minimax`: depth is a natural number, and scores are mathematical integers. The `i32` sentinels are named constants, and every evaluation is bounded by 6784, so no `i32` arithmetic in the search can overflow.
- The CPU works on clones of the game. The model therefore runs it on `GameState` values, and copying and aliasing are not modelled.
- `Game.Game.RayCloses`, `Game.Game.FlipRay`, `Game.Game.PutDiscs`, `Cpu.ChildSearch`, `Cpu.MaxChildren`, `Cpu.MinChildren`, `Cpu.MoveTally` and `Cpu.MoveScore` are loop bodies or inner loops of a single source function. They are split out so that each carries its own contract.
- A player argument of `Empty` is allowed everywhere and computed as the source computes it: its opponent is Black, and its tally is White's. The count lemmas `Rules.PlayCounts` and `Rules.CaptureCounts` require a real side.
