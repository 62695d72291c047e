/**
 * The game-tree search of game/utils.js (Minimax).
 *
 * `player` is the side that has JUST moved (the root call passes the human
 * player and no move). A node whose last move completes a line for `player`
 * scores -10 - depth for the human and 10 + depth for the computer; a node
 * with no empty cell scores 0; any other node tries every remaining cell for
 * the opponent, in the column-major order of GetRemainingMoves, and returns
 * the WHOLE result of the chosen child: the one with the least score when
 * `player` is the human, the greatest otherwise, the earliest one on ties.
 * A result's move is therefore the last move of the chosen line.
 */
module GameTree {
  import opened Rules

  /** `{score, move}`: move is None only when the root had no move and no empty cell. */
  datatype Outcome = Outcome(score: int, move: Option<Pos>)

  /** The running `bestScore` and `bestMove` of the selection loops. */
  datatype Pick = Pick(bestScore: int, best: Option<Outcome>)

  function Opponent(player: int): (r: int)
    ensures r == PLAYER || r == COMP
    ensures r != player
    ensures player == COMP ==> r == PLAYER
    ensures player != COMP ==> r == COMP
  {
    if player == COMP then PLAYER else COMP
  }

  function Abs(n: int): int {
    if n < 0 then -n else n
  }

  /**
   * The selection loops: a running best that starts at the sentinel
   * (10000 when minimizing, -10000 when maximizing) and is replaced only by
   * a strictly better score.
   */
  function BestOf(s: seq<Outcome>, minimize: bool): (p: Pick)
    ensures p.best.Some? ==> p.best.value in s && p.bestScore == p.best.value.score
    ensures p.best.None? ==> p.bestScore == if minimize then 10000 else -10000
    ensures p.best.None? ==> forall k :: 0 <= k < |s| ==> if minimize then s[k].score >= 10000 else s[k].score <= -10000
    ensures s != [] && (forall k :: 0 <= k < |s| ==> -10000 < s[k].score < 10000) ==> p.best.Some?
  {
    if s == [] then Pick(if minimize then 10000 else -10000, None)
    else
      var prev := BestOf(s[..|s| - 1], minimize);
      var c := s[|s| - 1];
      if (if minimize then c.score < prev.bestScore else c.score > prev.bestScore)
      then Pick(c.score, Some(c))
      else prev
  }

  /** Every remaining cell, once filled, leaves one fewer remaining cell. */
  lemma PlaceShrinksAll(b: Board, player: int)
    requires WellFormed(b) && player != EMPTY
    ensures forall m :: m in RemainingMoves(b) ==>
      OnBoard(m) && IsEmptyAt(b, m) && |RemainingMoves(Place(b, m, player))| == |RemainingMoves(b)| - 1
  {
    forall m | m in RemainingMoves(b)
      ensures OnBoard(m) && IsEmptyAt(b, m) && |RemainingMoves(Place(b, m, player))| == |RemainingMoves(b)| - 1
    {
      PlaceFillsOneCell(b, m, player);
    }
  }

  /**
   * Specification of Minimax. The precondition on depth holds at the root
   * (depth 0, at most nine empty cells) and is kept by every recursive call.
   */
  function Search(last: Option<Pos>, player: int, b: Board, depth: int): (r: Outcome)
    requires WellFormed(b) && (last.Some? ==> OnBoard(last.value))
    requires 0 <= depth && depth + |RemainingMoves(b)| <= 9
    ensures r.score == 0 || 10 + depth <= Abs(r.score) <= 19
    ensures r.move == last || (r.move.Some? && OnBoard(r.move.value) && IsEmptyAt(b, r.move.value))
    decreases |RemainingMoves(b)|, 1
  {
    if last.Some? && Wins(b, last.value, player) then
      Outcome(if player == PLAYER then -10 - depth else 10 + depth, last)
    else
      var moves := RemainingMoves(b);
      if CheckDrawCondition(9 - |moves|) then Outcome(0, last)
      else
        var children := Children(b, Opponent(player), depth + 1);
        BestOf(children, player == PLAYER).best.value
  }

  /**
   * The results of `mover` playing each remaining cell of b, in the order
   * of RemainingMoves. Each names a move that is empty in b, and its score
   * is 0 or between 10 + depth and 19 in magnitude.
   */
  function Children(b: Board, mover: int, depth: int): (cs: seq<Outcome>)
    requires WellFormed(b) && mover != EMPTY
    requires 1 <= depth && depth + |RemainingMoves(b)| <= 10
    ensures |cs| == |RemainingMoves(b)|
    ensures forall i :: 0 <= i < |cs| ==> cs[i].score == 0 || 10 + depth <= Abs(cs[i].score) <= 19
    ensures forall i :: 0 <= i < |cs| ==>
      cs[i].move.Some? && OnBoard(cs[i].move.value) && IsEmptyAt(b, cs[i].move.value)
    decreases |RemainingMoves(b)|, 0
  {
    var moves := RemainingMoves(b);
    PlaceShrinksAll(b, mover);
    seq(|moves|, i requires 0 <= i < |moves| => Search(Some(moves[i]), mover, Place(b, moves[i], mover), depth))
  }

  /**
   * Minimax on the live board: each child works on its own copy of the
   * board, so the caller's board is only read (there is no modifies clause).
   */
  method Minimax(move: Option<Pos>, player: int, boardState: array2<int>, depth: int) returns (r: Outcome)
    requires IsBoardArray(boardState) && (move.Some? ==> OnBoard(move.value))
    requires 0 <= depth && depth + |RemainingMoves(Snapshot(boardState))| <= 9
    ensures r == Search(move, player, Snapshot(boardState), depth)
    decreases |RemainingMoves(Snapshot(boardState))|, 3
  {
    ghost var b := Snapshot(boardState);
    // Did someone win?
    if move.Some? {
      var won := CheckWinCondition(move.value, player, boardState);
      if won {
        SearchTerminal(move, player, b, depth);
        if player == PLAYER {
          return Outcome(-10 - depth, move);
        }
        return Outcome(10 + depth, move);
      }
    }

    var moves := GetRemainingMoves(boardState);
    // Was it a draw?
    if CheckDrawCondition(9 - |moves|) {
      SearchTerminal(move, player, b, depth);
      return Outcome(0, move);
    }

    r := BestReply(move, player, boardState, depth, moves);
  }

  /**
   * The rest of Minimax at a node that is neither a win nor a full board:
   * the opponent tries every remaining cell and the best child is chosen.
   */
  method BestReply(move: Option<Pos>, player: int, boardState: array2<int>, depth: int, moves: seq<Pos>)
    returns (r: Outcome)
    requires IsBoardArray(boardState) && (move.Some? ==> OnBoard(move.value))
    requires 0 <= depth && depth + |RemainingMoves(Snapshot(boardState))| <= 9
    requires !(move.Some? && Wins(Snapshot(boardState), move.value, player))
    requires moves == RemainingMoves(Snapshot(boardState)) && moves != []
    ensures r == Search(move, player, Snapshot(boardState), depth)
    decreases |RemainingMoves(Snapshot(boardState))|, 2
  {
    ghost var b := Snapshot(boardState);
    var opponent := COMP;
    if player == COMP {
      opponent := PLAYER;
    }

    // Simulate every move the opponent can make, each on its own copy of the board
    var scores := SimulateMoves(moves, opponent, boardState, depth + 1);
    assert !(move.Some? && Wins(b, move.value, player)) && !CheckDrawCondition(9 - |RemainingMoves(b)|);
    assert scores == Children(b, Opponent(player), depth + 1);
    r := SelectBest(player, scores);
  }

  /**
   * The selection step of Minimax: if it is the human moving we want the
   * lowest score, otherwise the highest. On children with scores inside
   * the sentinels a child is always selected.
   */
  method SelectBest(player: int, scores: seq<Outcome>) returns (best: Outcome)
    requires scores != [] && forall k :: 0 <= k < |scores| ==> -10000 < scores[k].score < 10000
    ensures BestOf(scores, player == PLAYER).best == Some(best)
  {
    var bestMove: Option<Outcome>;
    if player == PLAYER {
      bestMove := ChooseLowest(scores);
    } else {
      bestMove := ChooseHighest(scores);
    }
    return bestMove.value;
  }

  /** The selection loop for the human: strictly lower scores replace the running best. */
  method ChooseLowest(scores: seq<Outcome>) returns (bestMove: Option<Outcome>)
    ensures bestMove == BestOf(scores, true).best
  {
    bestMove := None;
    var bestScore := 10000;
    for i := 0 to |scores|
      invariant Pick(bestScore, bestMove) == BestOf(scores[..i], true)
    {
      assert scores[..i + 1][..i] == scores[..i];
      if scores[i].score < bestScore {
        bestScore := scores[i].score;
        bestMove := Some(scores[i]);
      }
    }
    assert scores[..|scores|] == scores;
  }

  /** The selection loop for the computer: strictly higher scores replace the running best. */
  method ChooseHighest(scores: seq<Outcome>) returns (bestMove: Option<Outcome>)
    ensures bestMove == BestOf(scores, false).best
  {
    bestMove := None;
    var bestScore := -10000;
    for i := 0 to |scores|
      invariant Pick(bestScore, bestMove) == BestOf(scores[..i], false)
    {
      assert scores[..i + 1][..i] == scores[..i];
      if scores[i].score > bestScore {
        bestScore := scores[i].score;
        bestMove := Some(scores[i]);
      }
    }
    assert scores[..|scores|] == scores;
  }

  /** A deep copy of the board: a new array with the same cells. */
  method CloneBoard(a: array2<int>) returns (c: array2<int>)
    requires IsBoardArray(a)
    ensures fresh(c) && IsBoardArray(c) && Snapshot(c) == Snapshot(a)
  {
    c := new int[3, 3]((y, x) reads a requires 0 <= y < 3 && 0 <= x < 3 => a[y, x]);
    SameCells(Snapshot(c), Snapshot(a));
  }

  /**
   * The `moves.map(...)` step of Minimax: for each remaining move, a copy of
   * the board with the move played by `opponent`, searched one level deeper.
   */
  method SimulateMoves(moves: seq<Pos>, opponent: int, boardState: array2<int>, depth: int)
    returns (scores: seq<Outcome>)
    requires IsBoardArray(boardState) && moves == RemainingMoves(Snapshot(boardState))
    requires opponent != EMPTY && 1 <= depth && depth + |moves| <= 10
    ensures scores == Children(Snapshot(boardState), opponent, depth)
    decreases |RemainingMoves(Snapshot(boardState))|, 1
  {
    ghost var b := Snapshot(boardState);
    ghost var children := Children(b, opponent, depth);
    scores := [];
    for i := 0 to |moves|
      invariant scores == children[..i]
    {
      var child := SimulateMove(moves[i], opponent, boardState, depth);
      assert children[..i + 1] == children[..i] + [child];
      scores := scores + [child];
    }
  }

  /** One step of the map: `opponent` plays m on a copy of the board, searched one level deeper. */
  method SimulateMove(m: Pos, opponent: int, boardState: array2<int>, depth: int) returns (child: Outcome)
    requires IsBoardArray(boardState) && m in RemainingMoves(Snapshot(boardState))
    requires opponent != EMPTY && 1 <= depth && depth + |RemainingMoves(Snapshot(boardState))| <= 10
    ensures OnBoard(m) && |RemainingMoves(Place(Snapshot(boardState), m, opponent))| == |RemainingMoves(Snapshot(boardState))| - 1
    ensures child == Search(Some(m), opponent, Place(Snapshot(boardState), m, opponent), depth)
    decreases |RemainingMoves(Snapshot(boardState))|, 0
  {
    ghost var b := Snapshot(boardState);
    PlaceFillsOneCell(b, m, opponent);
    var possibleBoardState := CloneBoard(boardState);
    possibleBoardState := Move(m, opponent, possibleBoardState);
    child := Minimax(Some(m), opponent, possibleBoardState, depth);
  }

  // ---------------------------------------------------------------------
  // Properties of the search

  /**
   * The selection loops pick the earliest child whose score is extreme:
   * least when minimizing, greatest when maximizing.
   */
  lemma {:induction false} BestIsEarliestExtreme(s: seq<Outcome>, minimize: bool) returns (i: nat)
    requires s != [] && forall k :: 0 <= k < |s| ==> -10000 < s[k].score < 10000
    ensures i < |s| && BestOf(s, minimize).best == Some(s[i])
    ensures forall j :: 0 <= j < |s| ==> if minimize then s[i].score <= s[j].score else s[i].score >= s[j].score
    ensures forall j :: 0 <= j < i ==> s[j].score != s[i].score
  {
    if |s| == 1 {
      i := 0;
    } else {
      var front := s[..|s| - 1];
      var c := s[|s| - 1];
      var k := BestIsEarliestExtreme(front, minimize);
      assert BestOf(front, minimize).bestScore == s[k].score;
      if (if minimize then c.score < s[k].score else c.score > s[k].score) {
        i := |s| - 1;
      } else {
        i := k;
      }
    }
  }

  /**
   * Terminal nodes: a last move that wins for `player` scores -10 - depth
   * for the human and 10 + depth for the computer; otherwise a board with
   * no empty cell scores 0. Both keep the last move.
   */
  lemma SearchTerminal(last: Option<Pos>, player: int, b: Board, depth: int)
    requires WellFormed(b) && (last.Some? ==> OnBoard(last.value))
    requires 0 <= depth && depth + |RemainingMoves(b)| <= 9
    ensures last.Some? && Wins(b, last.value, player) ==>
      Search(last, player, b, depth) == Outcome(if player == PLAYER then -10 - depth else 10 + depth, last)
    ensures !(last.Some? && Wins(b, last.value, player)) && RemainingMoves(b) == [] ==>
      Search(last, player, b, depth) == Outcome(0, last)
  {
  }

  /**
   * Interior nodes: the result is the whole result of one child (the
   * opponent of `player` playing the i-th remaining cell), whose score is
   * the least of all children when `player` is the human and the greatest
   * otherwise, and no earlier child has the same score.
   */
  lemma SearchSelectsChild(last: Option<Pos>, player: int, b: Board, depth: int) returns (i: nat, cs: seq<Outcome>)
    requires WellFormed(b) && (last.Some? ==> OnBoard(last.value))
    requires 0 <= depth && depth + |RemainingMoves(b)| <= 9
    requires !(last.Some? && Wins(b, last.value, player)) && RemainingMoves(b) != []
    ensures cs == Children(b, Opponent(player), depth + 1)
    ensures i < |cs| && Search(last, player, b, depth) == cs[i]
    ensures forall j :: 0 <= j < |cs| ==> if player == PLAYER then cs[i].score <= cs[j].score else cs[i].score >= cs[j].score
    ensures forall j :: 0 <= j < i ==> cs[j].score != cs[i].score
  {
    cs := Children(b, Opponent(player), depth + 1);
    i := BestIsEarliestExtreme(cs, player == PLAYER);
  }

  /**
   * The root call Minimax(null, PLAYER, board, 0) on a board with an empty
   * cell returns a move that is empty in that board, with a score of 0 or
   * of magnitude 11 to 19, well inside the sentinels.
   */
  lemma RootMoveIsRemaining(b: Board)
    requires WellFormed(b) && RemainingMoves(b) != []
    ensures Search(None, PLAYER, b, 0).move.Some?
    ensures Search(None, PLAYER, b, 0).move.value in RemainingMoves(b)
    ensures Search(None, PLAYER, b, 0).score == 0 || 11 <= Abs(Search(None, PLAYER, b, 0).score) <= 19
  {
    var cs := Children(b, COMP, 1);
    var r := Search(None, PLAYER, b, 0);
    assert r in cs;
    RemainingMovesAreEmptyCells(b);
  }

  /** A board two moves from the end, with (0, 0) and (2, 2) empty. */
  const TwoLeft: Board := [[EMPTY, PLAYER, COMP], [COMP, PLAYER, PLAYER], [PLAYER, COMP, EMPTY]]

  /** TwoLeft after COMP takes (0, 0); neither side has a line. */
  const OneLeft: Board := [[COMP, PLAYER, COMP], [COMP, PLAYER, PLAYER], [PLAYER, COMP, EMPTY]]

  /** OneLeft after PLAYER takes (2, 2): full, and neither side has a line. */
  const NoneLeft: Board := [[COMP, PLAYER, COMP], [COMP, PLAYER, PLAYER], [PLAYER, COMP, PLAYER]]

  lemma TwoLeftBoards()
    ensures RemainingMoves(TwoLeft) == [Pos(0, 0), Pos(2, 2)]
    ensures Place(TwoLeft, Pos(0, 0), COMP) == OneLeft
    ensures RemainingMoves(OneLeft) == [Pos(2, 2)]
    ensures Place(OneLeft, Pos(2, 2), PLAYER) == NoneLeft
    ensures RemainingMoves(NoneLeft) == []
  {
    RemainingMovesUnique(TwoLeft, [Pos(0, 0), Pos(2, 2)]);
    SameCells(Place(TwoLeft, Pos(0, 0), COMP), OneLeft);
    RemainingMovesUnique(OneLeft, [Pos(2, 2)]);
    SameCells(Place(OneLeft, Pos(2, 2), PLAYER), NoneLeft);
    RemainingMovesUnique(NoneLeft, []);
  }

  /**
   * A child's move is the last move of the line it chose, not the cell the
   * child was played on: on TwoLeft the child for (0, 0) carries (2, 2),
   * PLAYER's forced reply, which ends the game in a draw.
   */
  lemma ChildCarriesLeafMove()
    ensures RemainingMoves(TwoLeft) == [Pos(0, 0), Pos(2, 2)]
    ensures Children(TwoLeft, COMP, 8)[0] == Outcome(0, Some(Pos(2, 2)))
  {
    TwoLeftBoards();
    assert OneLeft[2][0] == PLAYER && OneLeft[0][1] == PLAYER && OneLeft[1][1] == PLAYER;
    assert !Wins(OneLeft, Pos(0, 0), COMP);
    assert NoneLeft[0][2] == COMP && NoneLeft[2][1] == COMP && NoneLeft[0][0] == COMP;
    assert !Wins(NoneLeft, Pos(2, 2), PLAYER);
    assert Search(Some(Pos(2, 2)), PLAYER, NoneLeft, 9) == Outcome(0, Some(Pos(2, 2)));
    assert Children(OneLeft, PLAYER, 9) == [Outcome(0, Some(Pos(2, 2)))];
  }
}
