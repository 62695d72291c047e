# Tic-tac-toe engine, modelled in Dafny

This project models the engine of a console tic-tac-toe game: a human
(PLAYER, tile 1) plays against the computer (COMP, tile 2) on a 3x3 board
whose empty cells hold 0. The board is indexed `board[y][x]` and a move is a
pair `(x = column, y = row)`.

- `rules.dfy` (module `Rules`) covers the board rules of `game/utils.js`.
  It models the live board as an `array2<int>`, and the methods work on it
  in place, the way the source does:
  - `GetRemainingMoves` uses nested counting loops;
  - `Move` does the single guarded write;
  - `CheckWinCondition` runs four loops with early exits.

  Each method is proved equal to a pure function on an immutable
  `seq<seq<int>>` snapshot of the board: `RemainingMoves`, `Place` and
  `Wins`. Lemmas then prove what those functions mean:
  - `RemainingMoves` lists exactly the empty cells, once each, in
    column-major order;
  - `Wins` agrees with an independent list of the eight winning lines.
- `minimax.dfy` (module `GameTree`) covers the game-tree search.
  - The method `Minimax` clones the board for each remaining cell, recurses
    and then picks a child with two selection loops, as the source does.
  - It is proved equal to the pure mutual recursion `Search`/`Children`.
  - Lemmas prove the properties of `Search`:
    - terminal scores;
    - choice of the least or greatest child, earliest on ties;
    - score bounds inside the ±10000 sentinels;
    - the root move is a cell that is empty on the input board.
  - Termination uses the number of empty cells, which drops by one at each
    level.
- `answers.dfy` (module `Answers`) covers the yes/no answer helpers.
- `game.dfy` (module `Controller`) covers the turn controller of
  `game/index.js`. It is the class `Game`, whose fields are the module-level
  state (`turn`, `board`, `startTime`, `movesCount`). Its invariant `Valid`
  requires three things:
  - the board is 3x3 and each cell holds 0, 1 or 2;
  - it is one of the two sides' turn;
  - `movesCount` equals the number of occupied cells.

  The methods are `Start`, `ToggleTurn`, the prompt's acceptance rule, the
  two move handlers, one tick of the game loop (`Tick`) and the
  play-again decision.

Values that the source gets from the random generator, the clock or a
prompt are parameters of the model:
- the coin flip that chooses who starts;
- the coin flip that makes the computer blunder;
- the random index of a blunder;
- the start time;
- the human's row and column;
- the yes/no answer.

## Model

| member | source | states |
|---|---|---|
| Rules.GetRemainingMoves | game/utils.js:94-104 | The nested loops return exactly `RemainingMoves` of the board, and they only read the board. |
| Rules.RemainingMovesAreEmptyCells | game/utils.js:94-104 | A cell is in the list iff it is on the board and holds 0. The list is in strictly increasing column-major rank (x outer, y inner), so no cell appears twice. |
| Rules.RemainingMovesUnique | game/utils.js:94-104 | Any column-major-ordered list of exactly the empty cells equals `RemainingMoves`, so the order is fully determined. |
| Rules.RemainingMovesExtremes | game/utils.js:94-104 | A full board has no remaining moves. The all-zero board has all nine cells in column-major order. |
| Rules.Place | game/utils.js:114-119 | On an empty cell the player's tile is written there. On an occupied cell the board is unchanged. The other eight cells never change. |
| Rules.Move | game/utils.js:114-119 | Updates the array in place to `Place` of its old contents and returns the same array. |
| Rules.PlaceFillsOneCell | game/utils.js:114-119 | Playing a remaining move removes exactly that cell from the remaining moves, so their number drops by one. |
| Rules.CheckWinCondition | game/utils.js:130-177 | Returns true iff the player fills column x, row y, the main diagonal when x == y, or the anti-diagonal when x + y == 2. It only reads the board. |
| Rules.WinsIsSound | game/utils.js:130-177 | A win reported at a move is one of the eight lines of the board, all held by the player, and that line passes through the move. |
| Rules.LineThroughMoveWins | game/utils.js:130-177 | Any of the eight lines that the player fills and that passes through the move is reported as a win at that move. |
| Rules.NewLineContainsMove | game/utils.js:130-177 | A line that becomes complete when a cell is placed passes through that cell. |
| Rules.WinsIsComplete | game/utils.js:130-177 | Suppose the player has no line before a move onto an empty cell. Then the player has a line afterwards iff the test at that move reports a win. Checking only the lines through the last move therefore misses nothing. |
| Rules.CheckDrawCondition | game/utils.js:185-187 | True exactly when the count is 9. |
| GameTree.Opponent | game/utils.js:51-55 | The opponent is always one of the two sides and differs from the side that just moved: PLAYER after COMP, COMP after anything else. |
| GameTree.BestOf | game/utils.js:63-85 | The selection picks an element of the children whose score it reports. It picks nothing only when no score beats the sentinel, that is, every score is at least 10000 when minimizing or at most -10000 when maximizing. On non-empty children with scores inside (-10000, 10000) it always picks one. |
| GameTree.BestIsEarliestExtreme | game/utils.js:65-84 | The picked child has the least score (min mode) or the greatest (max mode). No earlier child has the same score, because the comparisons are strict. |
| GameTree.PlaceShrinksAll | game/utils.js:57-61 | Every child board has exactly one empty cell fewer than its parent, which is the termination measure of the recursion. |
| GameTree.Search | game/utils.js:34-86 | Every score is 0 or has magnitude between 10 + depth and 19. The returned move is either the incoming move or a cell that is empty on the board. |
| GameTree.Children | game/utils.js:57-61 | There is one child per remaining cell. Each child's move is a cell that is empty on the board: it is the last move of the line that child chose, not the cell it was played on (see `GameTree.ChildCarriesLeafMove`). Each child's score is 0 or has magnitude at least 10 + depth. |
| GameTree.SearchTerminal | game/utils.js:36-49 | A winning last move scores -10 - depth for the human and 10 + depth for the computer. Otherwise a board with no empty cell scores 0. Both keep the last move. |
| GameTree.ChildCarriesLeafMove | game/utils.js:34-85 | On a board with (0, 0) and (2, 2) empty, the child for (0, 0) is a draw whose move is (2, 2), the opponent's forced reply: a child carries the leaf move of its line, not its own cell. |
| GameTree.SearchSelectsChild | game/utils.js:51-85 | An interior node returns the whole result of child i, where child i is the opponent playing the i-th remaining cell. That child has the least score of all children when the human just moved and the greatest otherwise, and no earlier child ties with it. |
| GameTree.RootMoveIsRemaining | game/utils.js:34-86 | Take the root call with no move and PLAYER on a board with an empty cell. It returns a move that is a remaining move of that board, with score 0 or magnitude 11 to 19. |
| GameTree.Minimax | game/utils.js:34-86 | The method, which recurses over cloned boards, equals `Search`. It has no modifies clause, so the caller's board is never changed. |
| GameTree.BestReply | game/utils.js:51-85 | At a node with no win and an empty cell, the opponent's replies are simulated and the selected child equals `Search` at that node. |
| GameTree.SimulateMoves | game/utils.js:57-61 | Mapping over the remaining moves on board clones yields exactly `Children`. |
| GameTree.SimulateMove | game/utils.js:58-60 | The opponent plays one remaining cell on a copy, leaving one empty cell fewer. The result is the `Search` of that child board one level deeper. |
| GameTree.CloneBoard | game/utils.js:59 | The copy is a fresh array with the same cells, so writes to it cannot reach the caller's board. |
| GameTree.SelectBest | game/utils.js:63-85 | Selects the lowest-scoring child when the human just moved and the highest otherwise. On children with scores inside the sentinels, it always selects the child that `BestOf` picks. |
| GameTree.ChooseLowest | game/utils.js:67-74 | The strict `<` loop starting at 10000 returns the child that `BestOf` picks in min mode. |
| GameTree.ChooseHighest | game/utils.js:75-84 | The strict `>` loop starting at -10000 returns the child that `BestOf` picks in max mode. |
| Answers.ValidateYesNo | game/utils.js:231-237 | Valid iff the answer is non-empty and its first character, once lower-cased, is y or n. |
| Answers.ConvertYNtoTrueFalse | game/utils.js:245-251 | True iff the answer starts with y or Y, so the empty answer gives false. Every true conversion is a valid answer. |
| Answers.ValidNoStartsWithN | game/utils.js:231-251 | A valid answer that does not convert to true starts with n or N. |
| Answers.ValidateExamples | test/game/utils.js:136-156 | "Y", "y", "N" and "n" are valid and "something else" is not. |
| Answers.ConvertExamples | test/game/utils.js:158-174 | "Y" and "y" convert to true; "N" and "n" convert to false. |
| Controller.Toggled | game/index.js:128-134 | The next side is always PLAYER or COMP and always differs from the current one: COMP after PLAYER, PLAYER after anything else. |
| Controller.ToggleSwapsSides | game/index.js:128-134 | On the two sides, toggling swaps them, and toggling twice is the identity. |
| Controller.ConformRow | game/index.js:155-164 | The row check accepts iff some remaining move lies in that row. |
| Controller.ConformColumn | game/index.js:173-183 | The column check accepts iff (column, row) is a remaining move. |
| Controller.RowAccepted | game/index.js:155-164 | A row passes its check iff it is on the board and holds an empty cell. |
| Controller.Game.constructor | game/index.js:38-44 | A new game is in the state that `Start` produces. |
| Controller.Game.Start | game/index.js:51-58 | Afterwards the board is a fresh all-zero 3x3 board whose remaining moves are all nine cells. The move count is 0, the turn is the given side and the start time is the given clock value. The invariant holds. |
| Controller.Game.ToggleTurn | game/index.js:128-134 | Afterwards the turn is the toggled side. Nothing else changes and the invariant is kept. |
| Controller.Game.AcceptPlayerMove | game/index.js:143-185 | The row check followed by the column check accepts (row, column) iff it is a remaining move, that is iff the cell is on the board and empty. |
| Controller.Game.HandlePlayerMove | game/index.js:186-191 | The accepted cell becomes PLAYER's, in place on the same array. |
| Controller.Game.ChooseComputerMove | game/index.js:199-211 | A blunder picks the remaining move at the random index. Otherwise the move comes from the root search call. Either way it is an empty cell. |
| Controller.Game.HandleComputerMove | game/index.js:199-212 | The chosen cell becomes COMP's, in place on the same array. |
| Controller.Game.Tick | game/index.js:75-122 | One tick plays exactly one move, onto an empty cell, for the side whose turn it is, and increments the move count by one. The invariant (move count = occupied cells) is kept. A move completing a line for the mover wins, even as the ninth move. Otherwise the ninth move draws. Otherwise the turn passes to the other side and the game goes on. |
| Controller.Game.PlayAgain | game/index.js:296-312 | For a valid answer, yes runs `Start` again and no leaves the whole state unchanged. |

## Left out

- Console output and promise chaining are left out, because they change no game state. This covers:
  - `DisplayBoard`;
  - the announcements in `NextTick` and `ToggleTurn`;
  - the chalk and columnify formatting;
  - `NewGame`'s prompt setup;
  - the bluebird chaining.
- The prompt library is not modelled. Its re-asking until `conform` accepts becomes a precondition: `Tick` requires an accepted human move, and `PlayAgain` requires a valid answer.
- `ToIntZeroBase` is left out because it converts floats with `parseFloat` and `Math.floor`. The model receives the zero-based row and column as integers.
- `GetRandomInt` and `GetUnixTime` are left out because they depend on randomness and the clock. Their results are parameters, constrained to the ranges the source draws from.
- `CalculateScore` and `ShowScore` are left out because they use floating-point division and `Math.round`. The division is by zero when a game ends within its starting second.
- `SaveScore` and game/high-scores.js are not part of this model. They do file I/O and sort with a comparator that returns booleans, so they define no order.
- The command-line entry point, index.js, is not modelled.
- Controller.Game.Tick: the game loop is `NextTick` calling itself after each tick. The model is one tick per call, returning whether the game goes on. The recursion itself is not modelled.
- GameTree.Search: it requires `depth + (number of empty cells) <= 9`. This holds for every call reachable from the root call at depth 0, but not for an arbitrary depth.
- GameTree.Minimax: the three board fixtures of the repository's search tests are not proved. The first two have search trees of thousands of nodes and the third one of about 160, too many to evaluate inside the verifier. A result's move being the last move of the chosen line, not the first, follows from `SearchSelectsChild`, is exhibited by `ChildCarriesLeafMove`, and is modelled as written.
- Answers.ValidateYesNo: only ASCII letters are lower-cased. This does not change either helper's result, since no other character lower-cases to y or n.
- GameTree.Minimax: the source's single function is split into methods that each verify on their own:
  - `Minimax` keeps the terminal tests;
  - `BestReply` handles the interior node;
  - `SimulateMoves` and `SimulateMove` model the `map` over clones;
  - `SelectBest`, `ChooseLowest` and `ChooseHighest` model the two `forEach` selection loops.

  The steps and their order are unchanged.
- Controller.Game.HandleComputerMove: the choice of move is the separate method `ChooseComputerMove`, followed by the write.
- Minimax works on a deep clone per child. The model clones with a fresh `array2` built from the parent's cells.
