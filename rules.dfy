/**
 * Board rules of the tic-tac-toe engine (game/utils.js): listing the empty
 * cells, placing a piece, the win test anchored at the last move and the
 * draw test.
 *
 * A board is a 3x3 grid of ints indexed board[y][x] (y the row, x the
 * column): 0 is empty, 1 is the human player, 2 is the computer. The live
 * board is an `array2<int>` that the methods read and write in place; the
 * search works on immutable `seq<seq<int>>` snapshots, and `Snapshot`
 * connects the two.
 */
module Rules {

  const EMPTY := 0
  const PLAYER := 1
  const COMP := 2

  datatype Option<T> = None | Some(value: T)

  /** A move: x is the column, y the row. */
  datatype Pos = Pos(x: int, y: int)

  type Board = seq<seq<int>>

  predicate OnBoard(p: Pos) {
    0 <= p.x < 3 && 0 <= p.y < 3
  }

  predicate WellFormed(b: Board) {
    |b| == 3 && forall y :: 0 <= y < 3 ==> |b[y]| == 3
  }

  predicate IsEmptyAt(b: Board, p: Pos)
    requires WellFormed(b) && OnBoard(p)
  {
    b[p.y][p.x] == EMPTY
  }

  /** Every cell holds one of EMPTY, PLAYER, COMP. */
  predicate CellsInRange(b: Board)
    requires WellFormed(b)
  {
    forall y, x :: 0 <= y < 3 && 0 <= x < 3 ==> EMPTY <= b[y][x] <= COMP
  }

  predicate IsBoardArray(a: array2<int>) {
    a.Length0 == 3 && a.Length1 == 3
  }

  /** The value of the live board: row y of the snapshot is row y of the array. */
  function Snapshot(a: array2<int>): (b: Board)
    reads a
    requires IsBoardArray(a)
    ensures WellFormed(b)
    ensures forall y, x :: 0 <= y < 3 && 0 <= x < 3 ==> b[y][x] == a[y, x]
  {
    [[a[0, 0], a[0, 1], a[0, 2]],
     [a[1, 0], a[1, 1], a[1, 2]],
     [a[2, 0], a[2, 1], a[2, 2]]]
  }

  /** Two boards with the same nine cells are the same board. */
  lemma SameCells(b1: Board, b2: Board)
    requires WellFormed(b1) && WellFormed(b2)
    requires forall y, x :: 0 <= y < 3 && 0 <= x < 3 ==> b1[y][x] == b2[y][x]
    ensures b1 == b2
  {
    assert forall y :: 0 <= y < 3 ==> b1[y] == b2[y];
  }

  // ---------------------------------------------------------------------
  // Remaining moves

  /** The nine cells in the order the source scans them: column x outer, row y inner. */
  const AllCells: seq<Pos> :=
    [Pos(0, 0), Pos(0, 1), Pos(0, 2),
     Pos(1, 0), Pos(1, 1), Pos(1, 2),
     Pos(2, 0), Pos(2, 1), Pos(2, 2)]

  /** Position of a cell in the column-major scan. */
  function Rank(p: Pos): int {
    3 * p.x + p.y
  }

  predicate AllOnBoard(cells: seq<Pos>) {
    forall k :: 0 <= k < |cells| ==> OnBoard(cells[k])
  }

  predicate StrictlyRanked(cells: seq<Pos>) {
    forall i, j :: 0 <= i < j < |cells| ==> Rank(cells[i]) < Rank(cells[j])
  }

  /** The empty cells among `cells`, in the order of `cells`. */
  function EmptyAmong(b: Board, cells: seq<Pos>): (r: seq<Pos>)
    requires WellFormed(b) && AllOnBoard(cells)
    ensures |r| <= |cells|
  {
    if cells == [] then []
    else
      var last := cells[|cells| - 1];
      EmptyAmong(b, cells[..|cells| - 1]) + (if IsEmptyAt(b, last) then [last] else [])
  }

  /** Specification of GetRemainingMoves. */
  function RemainingMoves(b: Board): (r: seq<Pos>)
    requires WellFormed(b)
    ensures |r| <= 9
  {
    EmptyAmong(b, AllCells)
  }

  lemma {:induction false} EmptyAmongMembers(b: Board, cells: seq<Pos>, p: Pos)
    requires WellFormed(b) && AllOnBoard(cells)
    ensures p in EmptyAmong(b, cells) <==> p in cells && IsEmptyAt(b, p)
  {
    if cells != [] {
      var front := cells[..|cells| - 1];
      EmptyAmongMembers(b, front, p);
      assert cells == front + [cells[|cells| - 1]];
    }
  }

  lemma {:induction false} EmptyAmongRanked(b: Board, cells: seq<Pos>)
    requires WellFormed(b) && AllOnBoard(cells) && StrictlyRanked(cells)
    ensures StrictlyRanked(EmptyAmong(b, cells))
  {
    if cells != [] {
      var front := cells[..|cells| - 1];
      var last := cells[|cells| - 1];
      EmptyAmongRanked(b, front);
      forall q | q in EmptyAmong(b, front)
        ensures Rank(q) < Rank(last)
      {
        EmptyAmongMembers(b, front, q);
      }
    }
  }

  lemma AllCellsFacts()
    ensures AllOnBoard(AllCells) && StrictlyRanked(AllCells)
    ensures forall p :: p in AllCells <==> OnBoard(p)
  {
    forall k | 0 <= k < |AllCells|
      ensures Rank(AllCells[k]) == k && OnBoard(AllCells[k])
    {
    }
    forall p | OnBoard(p)
      ensures p in AllCells
    {
      assert AllCells[Rank(p)] == p;
    }
  }

  /**
   * GetRemainingMoves lists exactly the empty cells, each once, in
   * column-major order.
   */
  lemma RemainingMovesAreEmptyCells(b: Board)
    requires WellFormed(b)
    ensures forall p :: p in RemainingMoves(b) <==> OnBoard(p) && IsEmptyAt(b, p)
    ensures StrictlyRanked(RemainingMoves(b))
    ensures forall i, j :: 0 <= i < j < |RemainingMoves(b)| ==> RemainingMoves(b)[i] != RemainingMoves(b)[j]
  {
    AllCellsFacts();
    forall p ensures p in RemainingMoves(b) <==> OnBoard(p) && IsEmptyAt(b, p) {
      EmptyAmongMembers(b, AllCells, p);
    }
    EmptyAmongRanked(b, AllCells);
  }

  /** A full board has no remaining moves; an empty board has all nine, column by column. */
  lemma RemainingMovesExtremes(b: Board)
    requires WellFormed(b)
    ensures (forall y, x :: 0 <= y < 3 && 0 <= x < 3 ==> b[y][x] != EMPTY) ==> RemainingMoves(b) == []
    ensures (forall y, x :: 0 <= y < 3 && 0 <= x < 3 ==> b[y][x] == EMPTY) ==> RemainingMoves(b) == AllCells
  {
    if forall y, x :: 0 <= y < 3 && 0 <= x < 3 ==> b[y][x] != EMPTY {
      AllCellsFacts();
      EmptyAmongAllFull(b, AllCells);
    }
    if forall y, x :: 0 <= y < 3 && 0 <= x < 3 ==> b[y][x] == EMPTY {
      AllCellsFacts();
      EmptyAmongAllEmpty(b, AllCells);
    }
  }

  lemma {:induction false} EmptyAmongAllEmpty(b: Board, cells: seq<Pos>)
    requires WellFormed(b) && AllOnBoard(cells)
    requires forall y, x :: 0 <= y < 3 && 0 <= x < 3 ==> b[y][x] == EMPTY
    ensures EmptyAmong(b, cells) == cells
  {
    if cells != [] {
      EmptyAmongAllEmpty(b, cells[..|cells| - 1]);
    }
  }

  lemma {:induction false} EmptyAmongAllFull(b: Board, cells: seq<Pos>)
    requires WellFormed(b) && AllOnBoard(cells)
    requires forall y, x :: 0 <= y < 3 && 0 <= x < 3 ==> b[y][x] != EMPTY
    ensures EmptyAmong(b, cells) == []
  {
    if cells != [] {
      EmptyAmongAllFull(b, cells[..|cells| - 1]);
    }
  }

  /** AllCells scans column i, then row j within it. */
  lemma AllCellsAt(i: int, j: int)
    requires 0 <= i < 3 && 0 <= j < 3
    ensures 3 * i + j < |AllCells| && AllCells[3 * i + j] == Pos(i, j)
  {
  }

  function EmptyCell(b: Board, p: Pos): seq<Pos>
    requires WellFormed(b) && OnBoard(p)
  {
    if IsEmptyAt(b, p) then [p] else []
  }

  lemma EmptyAmongStep(b: Board, cells: seq<Pos>, k: int)
    requires WellFormed(b) && AllOnBoard(cells) && 0 <= k < |cells|
    ensures EmptyAmong(b, cells[..k + 1]) == EmptyAmong(b, cells[..k]) + EmptyCell(b, cells[k])
  {
    assert cells[..k + 1][..k] == cells[..k];
  }

  lemma {:induction false} RankedListsEqual(s: seq<Pos>, t: seq<Pos>)
    requires StrictlyRanked(s) && StrictlyRanked(t)
    requires forall p :: p in s <==> p in t
    ensures s == t
  {
    SameMembersEmpty(s, t);
    if s != [] {
      assert s == [s[0]] + s[1..] && t == [t[0]] + t[1..];
      // the first element of each is the one of least rank
      assert s[0] in t && t[0] in s;
      HeadHasLeastRank(s, t[0]);
      HeadHasLeastRank(t, s[0]);
      forall p ensures p in s[1..] <==> p in t[1..] {
        if p in s[1..] {
          MemberOfTail(s, t, p);
        }
        if p in t[1..] {
          MemberOfTail(t, s, p);
        }
      }
      RankedListsEqual(s[1..], t[1..]);
    }
  }

  /** The head of a ranked list has the least rank of its members, and no other member shares it. */
  lemma HeadHasLeastRank(s: seq<Pos>, p: Pos)
    requires StrictlyRanked(s) && p in s
    ensures Rank(s[0]) <= Rank(p)
    ensures Rank(p) == Rank(s[0]) ==> p == s[0]
  {
    var k :| 0 <= k < |s| && s[k] == p;
    if k > 0 {
      assert Rank(s[0]) < Rank(s[k]);
    }
  }

  /** Two lists with the same members are empty together. */
  lemma SameMembersEmpty(s: seq<Pos>, t: seq<Pos>)
    requires forall p :: p in s <==> p in t
    ensures s == [] <==> t == []
  {
    if s != [] {
      assert s[0] in t;
    }
    if t != [] {
      assert t[0] in s;
    }
  }

  /** In two ranked lists with the same head and members, the tails share members. */
  lemma MemberOfTail(s: seq<Pos>, t: seq<Pos>, p: Pos)
    requires StrictlyRanked(s) && StrictlyRanked(t)
    requires s != [] && t != [] && s[0] == t[0]
    requires forall q :: q in s <==> q in t
    requires p in s[1..]
    ensures p in t[1..]
  {
    var k :| 0 <= k < |s[1..]| && s[1..][k] == p;
    assert Rank(s[0]) < Rank(s[k + 1]);
    assert p in t;
    var m :| 0 <= m < |t| && t[m] == p;
    assert m != 0;
    assert t[1..][m - 1] == p;
  }

  /**
   * RemainingMoves is the only list of the empty cells, each once, in
   * column-major order.
   */
  lemma RemainingMovesUnique(b: Board, moves: seq<Pos>)
    requires WellFormed(b) && StrictlyRanked(moves)
    requires forall p :: p in moves <==> OnBoard(p) && IsEmptyAt(b, p)
    ensures RemainingMoves(b) == moves
  {
    RemainingMovesAreEmptyCells(b);
    RankedListsEqual(RemainingMoves(b), moves);
  }

  /** Lists the empty cells of the live board, scanning column by column. */
  method GetRemainingMoves(a: array2<int>) returns (moves: seq<Pos>)
    requires IsBoardArray(a)
    ensures moves == RemainingMoves(Snapshot(a))
  {
    ghost var b := Snapshot(a);
    assert AllOnBoard(AllCells);
    moves := [];
    for i := 0 to 3
      invariant moves == EmptyAmong(b, AllCells[..3 * i])
    {
      for j := 0 to 3
        invariant moves == EmptyAmong(b, AllCells[..3 * i + j])
      {
        AllCellsAt(i, j);
        EmptyAmongStep(b, AllCells, 3 * i + j);
        assert a[j, i] == b[j][i];
        if a[j, i] == EMPTY {
          moves := moves + [Pos(i, j)];
        }
      }
    }
    assert AllCells[..9] == AllCells;
  }

  // ---------------------------------------------------------------------
  // Placing a piece

  /** Specification of Move: `player` is written only into an empty cell. */
  function Place(b: Board, m: Pos, player: int): (r: Board)
    requires WellFormed(b) && OnBoard(m)
    ensures WellFormed(r)
    ensures IsEmptyAt(b, m) ==> r[m.y][m.x] == player
    ensures !IsEmptyAt(b, m) ==> r == b
    ensures forall y, x :: 0 <= y < 3 && 0 <= x < 3 && (y != m.y || x != m.x) ==> r[y][x] == b[y][x]
  {
    if IsEmptyAt(b, m) then
      var row := b[m.y][m.x := player];
      var r := b[m.y := row];
      assert forall y :: 0 <= y < 3 && y != m.y ==> r[y] == b[y];
      r
    else b
  }

  /**
   * Writes `player` into the live board at `loc` when that cell is empty and
   * returns the same array, as the source does.
   */
  method Move(loc: Pos, player: int, a: array2<int>) returns (updated: array2<int>)
    requires IsBoardArray(a) && OnBoard(loc)
    modifies a
    ensures updated == a
    ensures Snapshot(a) == Place(old(Snapshot(a)), loc, player)
  {
    ghost var before := Snapshot(a);
    if a[loc.y, loc.x] == EMPTY {
      a[loc.y, loc.x] := player;
    }
    updated := a;
    SameCells(Snapshot(a), Place(before, loc, player));
  }

  lemma {:induction false} EmptyAmongAfterPlace(b: Board, cells: seq<Pos>, m: Pos, player: int)
    requires WellFormed(b) && AllOnBoard(cells) && StrictlyRanked(cells)
    requires OnBoard(m) && IsEmptyAt(b, m) && player != EMPTY
    ensures |EmptyAmong(Place(b, m, player), cells)| == |EmptyAmong(b, cells)| - (if m in cells then 1 else 0)
  {
    if cells != [] {
      var after := Place(b, m, player);
      var front := cells[..|cells| - 1];
      var last := cells[|cells| - 1];
      EmptyAmongAfterPlace(b, front, m, player);
      assert cells == front + [last];
      assert m in cells <==> m in front || m == last;
      if last == m {
        assert m !in front by {
          forall k | 0 <= k < |front| ensures front[k] != m {
            assert Rank(cells[k]) < Rank(cells[|cells| - 1]);
          }
        }
        assert !IsEmptyAt(after, last);
      } else {
        assert IsEmptyAt(after, last) == IsEmptyAt(b, last);
      }
    }
  }

  /**
   * Filling a remaining cell removes exactly that cell from the remaining
   * moves: the others stay, and the list is one shorter.
   */
  lemma PlaceFillsOneCell(b: Board, m: Pos, player: int)
    requires WellFormed(b) && m in RemainingMoves(b) && player != EMPTY
    ensures OnBoard(m) && IsEmptyAt(b, m)
    ensures forall q :: q in RemainingMoves(Place(b, m, player)) <==> q in RemainingMoves(b) && q != m
    ensures |RemainingMoves(Place(b, m, player))| == |RemainingMoves(b)| - 1
  {
    RemainingMovesAreEmptyCells(b);
    RemainingMovesAreEmptyCells(Place(b, m, player));
    AllCellsFacts();
    EmptyAmongAfterPlace(b, AllCells, m, player);
  }

  // ---------------------------------------------------------------------
  // Win and draw

  predicate ColumnFilled(b: Board, x: int, player: int)
    requires WellFormed(b) && 0 <= x < 3
  {
    forall y :: 0 <= y < 3 ==> b[y][x] == player
  }

  predicate RowFilled(b: Board, y: int, player: int)
    requires WellFormed(b) && 0 <= y < 3
  {
    forall x :: 0 <= x < 3 ==> b[y][x] == player
  }

  predicate DiagonalFilled(b: Board, player: int)
    requires WellFormed(b)
  {
    forall i :: 0 <= i < 3 ==> b[i][i] == player
  }

  predicate AntiDiagonalFilled(b: Board, player: int)
    requires WellFormed(b)
  {
    forall i :: 0 <= i < 3 ==> b[i][2 - i] == player
  }

  /**
   * Specification of CheckWinCondition: `player` fills the column or the row
   * of `m`, or a diagonal that passes through `m`.
   */
  predicate Wins(b: Board, m: Pos, player: int)
    requires WellFormed(b) && OnBoard(m)
  {
    ColumnFilled(b, m.x, player) || RowFilled(b, m.y, player)
    || (m.x == m.y && DiagonalFilled(b, player))
    || (m.x + m.y == 2 && AntiDiagonalFilled(b, player))
  }

  /** Looks for a completed line through `location`, one counting loop per line kind. */
  method CheckWinCondition(location: Pos, player: int, a: array2<int>) returns (won: bool)
    requires IsBoardArray(a) && OnBoard(location)
    ensures won == Wins(Snapshot(a), location, player)
  {
    ghost var b := Snapshot(a);
    // check column
    var i := 0;
    while i < 3
      invariant 0 <= i < 3
      invariant forall k :: 0 <= k < i ==> a[k, location.x] == player
    {
      if a[i, location.x] != player {
        break;
      }
      if i == 3 - 1 {
        return true;
      }
      i := i + 1;
    }
    assert !ColumnFilled(b, location.x, player);

    // check row
    i := 0;
    while i < 3
      invariant 0 <= i < 3
      invariant forall k :: 0 <= k < i ==> a[location.y, k] == player
    {
      if a[location.y, i] != player {
        break;
      }
      if i == 3 - 1 {
        return true;
      }
      i := i + 1;
    }
    assert !RowFilled(b, location.y, player);

    // check diagonal
    if location.x == location.y {
      i := 0;
      while i < 3
        invariant 0 <= i < 3
        invariant forall k :: 0 <= k < i ==> a[k, k] == player
      {
        if a[i, i] != player {
          break;
        }
        if i == 3 - 1 {
          return true;
        }
        i := i + 1;
      }
      assert !DiagonalFilled(b, player);
    }

    // check anti-diagonal
    if location.x + location.y == 3 - 1 {
      i := 0;
      while i < 3
        invariant 0 <= i < 3
        invariant forall k, j :: 0 <= k < i && k + j == 3 - 1 ==> a[k, j] == player
      {
        if a[i, (3 - 1) - i] != player {
          break;
        }
        if i == 3 - 1 {
          return true;
        }
        i := i + 1;
      }
      assert !AntiDiagonalFilled(b, player);
    }

    return false;
  }

  /** The eight lines of the board: three rows, three columns, two diagonals. */
  const Lines: seq<seq<Pos>> :=
    [[Pos(0, 0), Pos(1, 0), Pos(2, 0)],
     [Pos(0, 1), Pos(1, 1), Pos(2, 1)],
     [Pos(0, 2), Pos(1, 2), Pos(2, 2)],
     [Pos(0, 0), Pos(0, 1), Pos(0, 2)],
     [Pos(1, 0), Pos(1, 1), Pos(1, 2)],
     [Pos(2, 0), Pos(2, 1), Pos(2, 2)],
     [Pos(0, 0), Pos(1, 1), Pos(2, 2)],
     [Pos(2, 0), Pos(1, 1), Pos(0, 2)]]

  predicate LineFilled(b: Board, k: int, player: int)
    requires WellFormed(b) && 0 <= k < 8
  {
    var line := Lines[k];
    b[line[0].y][line[0].x] == player
    && b[line[1].y][line[1].x] == player
    && b[line[2].y][line[2].x] == player
  }

  /** Reference definition: `player` owns some complete line anywhere on the board. */
  predicate HasLine(b: Board, player: int)
    requires WellFormed(b)
  {
    exists k :: 0 <= k < 8 && LineFilled(b, k, player)
  }

  /** The local check never reports a line that is not on the board. */
  lemma WinsIsSound(b: Board, m: Pos, player: int)
    requires WellFormed(b) && OnBoard(m) && Wins(b, m, player)
    ensures HasLine(b, player)
    ensures exists k :: 0 <= k < 8 && LineFilled(b, k, player) && m in Lines[k]
  {
    if ColumnFilled(b, m.x, player) {
      assert LineFilled(b, 3 + m.x, player);
    } else if RowFilled(b, m.y, player) {
      assert LineFilled(b, m.y, player);
    } else if m.x == m.y && DiagonalFilled(b, player) {
      assert LineFilled(b, 6, player);
    } else {
      assert LineFilled(b, 7, player);
    }
  }

  /** A complete line that passes through m is one of the lines the local check inspects. */
  lemma LineThroughMoveWins(b: Board, k: int, m: Pos, player: int)
    requires WellFormed(b) && 0 <= k < 8 && LineFilled(b, k, player) && m in Lines[k]
    ensures OnBoard(m) && Wins(b, m, player)
  {
    var line := Lines[k];
    assert m == line[0] || m == line[1] || m == line[2];
    if k < 3 {
      assert m.y == k && RowFilled(b, k, player);
    } else if k < 6 {
      assert m.x == k - 3 && ColumnFilled(b, k - 3, player);
    } else if k == 6 {
      assert m.x == m.y && DiagonalFilled(b, player);
    } else {
      assert m.x + m.y == 2 && AntiDiagonalFilled(b, player);
    }
  }

  /** A line completed by placing m must pass through m. */
  lemma NewLineContainsMove(b: Board, m: Pos, player: int, k: int)
    requires WellFormed(b) && OnBoard(m) && 0 <= k < 8
    requires LineFilled(Place(b, m, player), k, player) && !LineFilled(b, k, player)
    ensures m in Lines[k]
  {
    var line := Lines[k];
    if m != line[0] && m != line[1] && m != line[2] {
      assert false;
    }
  }

  /**
   * Why a check anchored at the last move suffices: if `player` owned no
   * line before filling the empty cell m, then afterwards it owns a line
   * exactly when the local check through m says so.
   */
  lemma WinsIsComplete(b: Board, m: Pos, player: int)
    requires WellFormed(b) && OnBoard(m) && IsEmptyAt(b, m) && player != EMPTY
    requires !HasLine(b, player)
    ensures HasLine(Place(b, m, player), player) <==> Wins(Place(b, m, player), m, player)
  {
    var after := Place(b, m, player);
    if Wins(after, m, player) {
      WinsIsSound(after, m, player);
    }
    if HasLine(after, player) {
      var k :| 0 <= k < 8 && LineFilled(after, k, player);
      NewLineContainsMove(b, m, player, k);
      LineThroughMoveWins(after, k, m, player);
    }
  }

  /** A draw is declared exactly when nine moves have been made (3 squared). */
  function CheckDrawCondition(moves: int): (r: bool)
    ensures r <==> moves == 9
  {
    moves == 3 * 3
  }
}
