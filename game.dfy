/**
 * The turn controller: the state one game runs on (whose turn it is, the
 * live board, when the game started, how many moves were made) and the
 * steps that change it. Console output and prompting are not modelled; the
 * values a prompt or the random generator would supply are parameters.
 */
module Controller {
  import opened Rules
  import opened GameTree
  import opened Answers

  /** How a tick left the game. */
  datatype Status = Ongoing | Won(winner: int) | Drawn

  /** The board every game starts from. */
  const EmptyBoard: Board := [[EMPTY, EMPTY, EMPTY], [EMPTY, EMPTY, EMPTY], [EMPTY, EMPTY, EMPTY]]

  /** The side to move after `t`: COMP after PLAYER, PLAYER after anything else. */
  function Toggled(t: int): (r: int)
    ensures r == PLAYER || r == COMP
    ensures r != t
    ensures t == PLAYER ==> r == COMP
    ensures t != PLAYER ==> r == PLAYER
  {
    if t == PLAYER then COMP else PLAYER
  }

  /** On the two sides, toggling swaps them, and toggling twice gives the side back. */
  lemma ToggleSwapsSides(t: int)
    requires t == PLAYER || t == COMP
    ensures {Toggled(t), t} == {PLAYER, COMP}
    ensures Toggled(Toggled(t)) == t
  {
  }

  /** The row check of the human prompt: some remaining move lies in row `val`. */
  method ConformRow(remaining: seq<Pos>, val: int) returns (isValid: bool)
    ensures isValid <==> exists k :: 0 <= k < |remaining| && remaining[k].y == val
  {
    isValid := false;
    for k := 0 to |remaining|
      invariant isValid <==> exists j :: 0 <= j < k && remaining[j].y == val
    {
      if remaining[k].y == val {
        isValid := true;
      }
    }
  }

  /** The column check of the human prompt: the cell (`val`, `row`) is a remaining move. */
  method ConformColumn(remaining: seq<Pos>, row: int, val: int) returns (isValid: bool)
    ensures isValid <==> Pos(val, row) in remaining
  {
    isValid := false;
    for k := 0 to |remaining|
      invariant isValid <==> Pos(val, row) in remaining[..k]
    {
      if remaining[k].y == row && remaining[k].x == val {
        isValid := true;
      }
      assert remaining[..k + 1] == remaining[..k] + [remaining[k]];
    }
    assert remaining[..|remaining|] == remaining;
  }

  /** A row passes its check exactly when it holds an empty cell. */
  lemma RowAccepted(b: Board, row: int)
    requires WellFormed(b)
    ensures (exists k :: 0 <= k < |RemainingMoves(b)| && RemainingMoves(b)[k].y == row)
        <==> 0 <= row < 3 && exists x :: 0 <= x < 3 && IsEmptyAt(b, Pos(x, row))
  {
    RemainingMovesAreEmptyCells(b);
    var moves := RemainingMoves(b);
    if exists k :: 0 <= k < |moves| && moves[k].y == row {
      var k :| 0 <= k < |moves| && moves[k].y == row;
      assert moves[k] in moves;
      assert IsEmptyAt(b, Pos(moves[k].x, row));
    }
    if 0 <= row < 3 && exists x :: 0 <= x < 3 && IsEmptyAt(b, Pos(x, row)) {
      var x :| 0 <= x < 3 && IsEmptyAt(b, Pos(x, row));
      assert Pos(x, row) in moves;
      var k :| 0 <= k < |moves| && moves[k] == Pos(x, row);
      assert moves[k].y == row;
    }
  }

  /** The state of one game. */
  class Game {
    var turn: int
    var board: array2<int>
    var startTime: int
    var movesCount: int

    /** The board as a value. */
    function Cells(): Board
      reads this, board
      requires IsBoardArray(board)
    {
      Snapshot(board)
    }

    /**
     * A 3x3 board of EMPTY/PLAYER/COMP cells, one of the two sides to move,
     * and a move count equal to the number of occupied cells.
     */
    ghost predicate Valid()
      reads this, board
    {
      IsBoardArray(board) && (turn == PLAYER || turn == COMP) && CellsInRange(Cells())
      && movesCount == 9 - |RemainingMoves(Cells())|
    }

    /** A new game with `first` to move, started at time `now`. */
    constructor (first: int, now: int)
      requires first == PLAYER || first == COMP
      ensures Valid() && fresh(board)
      ensures Cells() == EmptyBoard && RemainingMoves(Cells()) == AllCells
      ensures turn == first && startTime == now && movesCount == 0
    {
      turn := first;
      board := new int[3, 3];
      startTime := now;
      movesCount := 0;
      new;
      Start(first, now);
    }

    /**
     * Resets the game: a fresh empty board, no moves made, `first` (the coin
     * flip) to move and `now` (the clock) as the start time.
     */
    method Start(first: int, now: int)
      requires first == PLAYER || first == COMP
      modifies this
      ensures Valid() && fresh(board)
      ensures Cells() == EmptyBoard && RemainingMoves(Cells()) == AllCells
      ensures turn == first && startTime == now && movesCount == 0
    {
      turn := first;
      board := new int[3, 3]((y, x) => EMPTY);
      startTime := now;
      movesCount := 0;
      SameCells(Cells(), EmptyBoard);
      RemainingMovesExtremes(Cells());
    }

    /** Hands the move to the other side; nothing else changes. */
    method ToggleTurn()
      requires Valid()
      modifies this
      ensures Valid()
      ensures turn == Toggled(old(turn))
      ensures board == old(board) && startTime == old(startTime) && movesCount == old(movesCount)
    {
      if turn == PLAYER {
        turn := COMP;
      } else {
        turn := PLAYER;
      }
    }

    /**
     * The prompt's acceptance rule for a human move: the row check, then the
     * column check, both against the remaining moves of the current board.
     * The accepted pairs are exactly the empty cells.
     */
    method AcceptPlayerMove(row: int, col: int) returns (accepted: bool)
      requires Valid()
      ensures accepted <==> Pos(col, row) in RemainingMoves(Cells())
      ensures accepted <==> OnBoard(Pos(col, row)) && IsEmptyAt(Cells(), Pos(col, row))
    {
      var remainingMoves := GetRemainingMoves(board);
      var rowOk := ConformRow(remainingMoves, row);
      if !rowOk {
        RemainingMovesAreEmptyCells(Cells());
        RowAccepted(Cells(), row);
        return false;
      }
      accepted := ConformColumn(remainingMoves, row, col);
      RemainingMovesAreEmptyCells(Cells());
    }

    /** Plays the human's accepted move (column `col`, row `row`) for PLAYER. */
    method HandlePlayerMove(row: int, col: int) returns (move: Pos)
      requires Valid() && Pos(col, row) in RemainingMoves(Cells())
      modifies this, board
      ensures board == old(board) && turn == old(turn)
      ensures startTime == old(startTime) && movesCount == old(movesCount)
      ensures move == Pos(col, row) && OnBoard(move) && IsEmptyAt(old(Cells()), move)
      ensures Cells() == Place(old(Cells()), move, PLAYER)
    {
      RemainingMovesAreEmptyCells(Cells());
      move := Pos(col, row);
      board := Move(move, PLAYER, board);
    }

    /**
     * COMP's choice of move. With `mistake` (the coin flip) it is the
     * remaining move at index `pick` (the random index); otherwise it is the
     * move of the game-tree search from the current board with PLAYER
     * having moved last. Either way it is an empty cell.
     */
    method ChooseComputerMove(mistake: bool, pick: int) returns (move: Pos)
      requires Valid() && RemainingMoves(Cells()) != []
      requires mistake ==> 0 <= pick < |RemainingMoves(Cells())|
      ensures move in RemainingMoves(Cells()) && OnBoard(move) && IsEmptyAt(Cells(), move)
      ensures mistake ==> move == RemainingMoves(Cells())[pick]
      ensures !mistake ==> Some(move) == Search(None, PLAYER, Cells(), 0).move
    {
      if mistake {
        var remainingMoves := GetRemainingMoves(board);
        move := remainingMoves[pick];
      } else {
        RootMoveIsRemaining(Cells());
        var bestMove := Minimax(None, PLAYER, board, 0);
        move := bestMove.move.value;
      }
      RemainingMovesAreEmptyCells(Cells());
    }

    /** Plays COMP's chosen move. */
    method HandleComputerMove(mistake: bool, pick: int) returns (move: Pos)
      requires Valid() && RemainingMoves(Cells()) != []
      requires mistake ==> 0 <= pick < |RemainingMoves(Cells())|
      modifies this, board
      ensures board == old(board) && turn == old(turn)
      ensures startTime == old(startTime) && movesCount == old(movesCount)
      ensures move in old(RemainingMoves(Cells())) && OnBoard(move) && IsEmptyAt(old(Cells()), move)
      ensures mistake ==> move == old(RemainingMoves(Cells()))[pick]
      ensures !mistake ==> Some(move) == Search(None, PLAYER, old(Cells()), 0).move
      ensures Cells() == Place(old(Cells()), move, COMP)
    {
      move := ChooseComputerMove(mistake, pick);
      board := Move(move, COMP, board);
    }

    /**
     * One tick of the game loop: the side to move plays one move onto an
     * empty cell and the move is counted. A move completing a line through
     * it wins, even the ninth; otherwise the ninth move draws; otherwise the
     * turn passes to the other side and the game goes on.
     */
    method Tick(row: int, col: int, mistake: bool, pick: int) returns (move: Pos, status: Status)
      requires Valid() && movesCount < 9
      requires turn == PLAYER ==> Pos(col, row) in RemainingMoves(Cells())
      requires turn == COMP && mistake ==> 0 <= pick < |RemainingMoves(Cells())|
      modifies this, board
      ensures Valid() && board == old(board) && startTime == old(startTime)
      ensures movesCount == old(movesCount) + 1
      ensures move in old(RemainingMoves(Cells())) && OnBoard(move) && IsEmptyAt(old(Cells()), move)
      ensures Cells() == Place(old(Cells()), move, old(turn))
      ensures old(turn) == PLAYER ==> move == Pos(col, row)
      ensures old(turn) == COMP && mistake ==> move == old(RemainingMoves(Cells()))[pick]
      ensures old(turn) == COMP && !mistake ==> Some(move) == Search(None, PLAYER, old(Cells()), 0).move
      ensures Wins(Cells(), move, old(turn)) ==> status == Won(old(turn))
      ensures !Wins(Cells(), move, old(turn)) && movesCount == 9 ==> status == Drawn
      ensures !Wins(Cells(), move, old(turn)) && movesCount < 9 ==> status == Ongoing
      ensures status == Ongoing ==> turn == Toggled(old(turn))
      ensures status != Ongoing ==> turn == old(turn)
    {
      ghost var before := Cells();
      RemainingMovesAreEmptyCells(before);
      if turn == COMP {
        move := HandleComputerMove(mistake, pick);
      } else {
        move := HandlePlayerMove(row, col);
      }
      PlaceFillsOneCell(before, move, turn);
      movesCount := movesCount + 1;
      var won := CheckWinCondition(move, turn, board);
      if won {
        return move, Won(turn);
      }
      if CheckDrawCondition(movesCount) {
        return move, Drawn;
      }
      ToggleTurn();
      status := Ongoing;
    }

    /**
     * The end-of-game question. The prompt only accepts a valid answer; a
     * yes starts a new game with `first` to move at time `now`, a no leaves
     * the finished game as it is.
     */
    method PlayAgain(answer: string, first: int, now: int) returns (again: bool)
      requires ValidateYesNo(answer)
      requires first == PLAYER || first == COMP
      modifies this
      ensures again <==> answer[0] == 'y' || answer[0] == 'Y'
      ensures again ==> Valid() && fresh(board) && Cells() == EmptyBoard
      ensures again ==> turn == first && startTime == now && movesCount == 0
      ensures !again ==> unchanged(this)
    {
      again := ConvertYNtoTrueFalse(answer);
      if again {
        Start(first, now);
      }
    }
  }
}
