/** The rules of tictactoe.c: the 3x3 board is kept row by row as nine
    characters, a free cell shows its own number '1'..'9' and a taken cell
    shows 'X' or 'O'. */
module TicTacToe {
  import opened Wrappers

  type Board = b: seq<char> | |b| == 9 witness "123456789"

  /** The board `main` starts from. */
  const INITIAL: Board := "123456789"

  predicate IsMark(c: char) {
    c == 'X' || c == 'O'
  }

  /** The row `playerMove` computes for a choice: `(choice - 1) / 3` with
      C's division, which truncates toward zero. */
  function Row(choice: int): int {
    var a := choice - 1;
    if a >= 0 then a / 3 else -((-a) / 3)
  }

  /** The column `playerMove` computes for a choice: `(choice - 1) % 3` with
      C's remainder, which takes the sign of the dividend. */
  function Col(choice: int): int {
    (choice - 1) - 3 * Row(choice)
  }

  /** Where cell (row, col) sits in the nine characters. */
  function Cell(row: int, col: int): int {
    3 * row + col
  }

  /** Every choice 1..9 lands on a cell of the 3x3 board, and that cell is
      the choice's own position in reading order. */
  lemma ChoiceCell(choice: int)
    requires 1 <= choice <= 9
    ensures 0 <= Row(choice) < 3 && 0 <= Col(choice) < 3
    ensures Cell(Row(choice), Col(choice)) == choice - 1
  {
  }

  /** Every cell of the board is reached by exactly one choice, so the
      choice-to-cell map is a bijection. */
  lemma CellChoice(row: int, col: int)
    requires 0 <= row < 3 && 0 <= col < 3
    ensures 1 <= Cell(row, col) + 1 <= 9
    ensures Row(Cell(row, col) + 1) == row && Col(Cell(row, col) + 1) == col
    ensures forall c :: 1 <= c <= 9 && Row(c) == row && Col(c) == col ==> c == Cell(row, col) + 1
  {
    forall c | 1 <= c <= 9 && Row(c) == row && Col(c) == col
      ensures c == Cell(row, col) + 1
    {
      ChoiceCell(c);
    }
  }

  /** One attempt of `playerMove`: the choice is taken when it is 1..9 and
      its cell holds neither mark; the player's mark is then written there.
      The cell `board[row][col]` is written as position `choice - 1` of the
      nine characters, which ChoiceCell shows is the same cell. */
  function PlayerMove(b: Board, player: char, choice: int): (r: Option<Board>)
    ensures r.Some? <==> 1 <= choice <= 9 && !IsMark(b[choice - 1])
    ensures r.Some? ==> r.value[choice - 1] == player
    ensures r.Some? ==> forall i :: 0 <= i < 9 && i != choice - 1 ==> r.value[i] == b[i]
  {
    if 1 <= choice <= 9 && !IsMark(b[choice - 1]) then Some(b[choice - 1 := player])
    else None
  }

  /** The whole `playerMove` call: it keeps asking until a choice is taken.
      Returns the new board and how many answers were read, or None when
      the answers run out first. */
  function TakeTurn(b: Board, player: char, answers: seq<int>): (r: Option<(Board, nat)>)
    ensures r.Some? ==> 1 <= r.value.1 <= |answers|
    ensures r.Some? ==> PlayerMove(b, player, answers[r.value.1 - 1]) == Some(r.value.0)
  {
    if |answers| == 0 then None
    else
      match PlayerMove(b, player, answers[0])
      case Some(next) => Some((next, 1))
      case None =>
        match TakeTurn(b, player, answers[1..])
        case None => None
        case Some((next, used)) => Some((next, used + 1))
  }

  /** The turn ends at the first answer that is a legal move: every answer
      before it was refused, and the turn only fails to end when every
      answer is refused. */
  lemma {:induction false} TakeTurnFirstLegal(b: Board, player: char, answers: seq<int>)
    ensures TakeTurn(b, player, answers).None? <==>
              forall k :: 0 <= k < |answers| ==> PlayerMove(b, player, answers[k]).None?
    ensures TakeTurn(b, player, answers).Some? ==>
              forall k :: 0 <= k < TakeTurn(b, player, answers).value.1 - 1 ==> PlayerMove(b, player, answers[k]).None?
  {
    if |answers| > 0 && PlayerMove(b, player, answers[0]).None? {
      var rest := answers[1..];
      TakeTurnFirstLegal(b, player, rest);
      assert forall k :: 1 <= k < |answers| ==> answers[k] == rest[k - 1];
    }
  }

  /** The eight lines `checkWinner` looks at, in the order it looks at them:
      row 0, column 0, row 1, column 1, row 2, column 2, then the two
      diagonals. */
  const LINES: seq<(nat, nat, nat)> :=
    [(0, 1, 2), (0, 3, 6), (3, 4, 5), (1, 4, 7), (6, 7, 8), (2, 5, 8), (0, 4, 8), (2, 4, 6)]

  predicate LineEqual(b: Board, k: nat)
    requires k < 8
  {
    var l := LINES[k];
    b[l.0] == b[l.1] && b[l.1] == b[l.2]
  }

  /** The first line from `k` on whose three cells are equal, or 8. */
  function FirstLine(b: Board, k: nat): (j: nat)
    requires k <= 8
    ensures k <= j <= 8
    ensures j < 8 ==> LineEqual(b, j)
    ensures forall i :: k <= i < j ==> !LineEqual(b, i)
    decreases 8 - k
  {
    if k == 8 then 8 else if LineEqual(b, k) then k else FirstLine(b, k + 1)
  }

  predicate HasLine(b: Board) {
    exists k :: 0 <= k < 8 && LineEqual(b, k)
  }

  /** Every cell holds a mark. */
  predicate Full(b: Board) {
    forall i :: 0 <= i < 9 ==> IsMark(b[i])
  }

  /** The winner code for an equal line starting at cell `i`. */
  function Code(b: Board, i: nat): int
    requires i < 9
  {
    if b[i] == 'X' then 1 else 2
  }

  /** checkWinner: 1 or 2 for the first equal line (1 when its cells are
      'X'), otherwise 3 for a full board and 0 while the game goes on. */
  function CheckWinner(b: Board): (w: int)
    ensures 0 <= w <= 3
  {
    if b[0] == b[1] && b[1] == b[2] then Code(b, 0)
    else if b[0] == b[3] && b[3] == b[6] then Code(b, 0)
    else if b[3] == b[4] && b[4] == b[5] then Code(b, 3)
    else if b[1] == b[4] && b[4] == b[7] then Code(b, 1)
    else if b[6] == b[7] && b[7] == b[8] then Code(b, 6)
    else if b[2] == b[5] && b[5] == b[8] then Code(b, 2)
    else if b[0] == b[4] && b[4] == b[8] then Code(b, 0)
    else if b[2] == b[4] && b[4] == b[6] then Code(b, 2)
    else if Full(b) then 3
    else 0
  }

  /** checkWinner's answer against the table of lines: 1 or 2 exactly when
      some line has three equal cells, decided by the first such line in
      the order checkWinner looks; 3 exactly for a full board without one,
      and 0 exactly for a board with free cells and without one. */
  lemma CheckWinnerClassifies(b: Board)
    ensures var w := CheckWinner(b);
            && ((w == 1 || w == 2) <==> HasLine(b))
            && (w == 3 <==> !HasLine(b) && Full(b))
            && (w == 0 <==> !HasLine(b) && !Full(b))
            && (HasLine(b) ==> w == Code(b, LINES[FirstLine(b, 0)].0))
  {
    FirstLineFound(b);
  }

  /** A board has an equal line exactly when the scan finds one. */
  lemma FirstLineFound(b: Board)
    ensures HasLine(b) <==> FirstLine(b, 0) < 8
  {
    if HasLine(b) {
      var k :| 0 <= k < 8 && LineEqual(b, k);
      assert FirstLine(b, 0) <= k;
    }
  }

  /** The digit a free cell shows. */
  function DigitAt(i: nat): char
    requires i < 9
  {
    "123456789"[i]
  }

  /** What every board of a game looks like: each cell shows its own digit
      or a mark. */
  predicate Consistent(b: Board) {
    forall i :: 0 <= i < 9 ==> b[i] == DigitAt(i) || IsMark(b[i])
  }

  /** On a board of a game, an equal line is three equal marks: the digits
      are all different, so they never make a line. */
  lemma EqualLineIsMarks(b: Board, k: nat)
    requires Consistent(b) && k < 8 && LineEqual(b, k)
    ensures IsMark(b[LINES[k].0]) && b[LINES[k].0] == b[LINES[k].1] == b[LINES[k].2]
  {
  }

  /** So on such a board, checkWinner says 1 for three 'X' and 2 for three
      'O' in a line. */
  lemma WinnerOwnsLine(b: Board)
    requires Consistent(b)
    ensures CheckWinner(b) == 1 ==> exists k :: 0 <= k < 8 && LineOf(b, k, 'X')
    ensures CheckWinner(b) == 2 ==> exists k :: 0 <= k < 8 && LineOf(b, k, 'O')
  {
    CheckWinnerClassifies(b);
    var k := FirstLine(b, 0);
    if k < 8 {
      EqualLineIsMarks(b, k);
      assert LineOf(b, k, b[LINES[k].0]);
    }
  }

  /** Line `k` is three times the mark `m`. */
  predicate LineOf(b: Board, k: nat, m: char)
    requires k < 8
  {
    b[LINES[k].0] == m && b[LINES[k].1] == m && b[LINES[k].2] == m
  }

  /** The number of cells holding `c`. */
  function Count(s: seq<char>, c: char): (n: nat)
    ensures n <= |s|
  {
    if |s| == 0 then 0 else (if s[0] == c then 1 else 0) + Count(s[1..], c)
  }

  /** A character that does not occur is counted zero times. */
  lemma {:induction false} CountAbsent(s: seq<char>, c: char)
    requires forall i :: 0 <= i < |s| ==> s[i] != c
    ensures Count(s, c) == 0
  {
    if |s| > 0 {
      assert forall i :: 0 <= i < |s| - 1 ==> s[1..][i] == s[i + 1];
      CountAbsent(s[1..], c);
    }
  }

  /** Writing one cell changes the counts by what left and what came. */
  lemma {:induction false} CountUpdate(s: seq<char>, i: nat, v: char, c: char)
    requires i < |s|
    ensures Count(s[i := v], c) == Count(s, c) - (if s[i] == c then 1 else 0) + (if v == c then 1 else 0)
  {
    if i > 0 {
      assert s[i := v][1..] == s[1..][i - 1 := v];
      CountUpdate(s[1..], i - 1, v, c);
    } else {
      assert s[i := v][1..] == s[1..];
    }
  }

  /** The marks on the board never outnumber its cells, and they fill it
      exactly when there are as many as cells. */
  lemma {:induction false} MarkCount(s: seq<char>)
    ensures Count(s, 'X') + Count(s, 'O') <= |s|
    ensures Count(s, 'X') + Count(s, 'O') == |s| <==> forall i :: 0 <= i < |s| ==> IsMark(s[i])
  {
    if |s| > 0 {
      MarkCount(s[1..]);
      if forall i :: 0 <= i < |s| ==> IsMark(s[i]) {
        assert forall i :: 0 <= i < |s| - 1 ==> IsMark(s[1..][i]) by {
          forall i | 0 <= i < |s| - 1 ensures IsMark(s[1..][i]) {
            assert s[1..][i] == s[i + 1];
          }
        }
      }
      if Count(s, 'X') + Count(s, 'O') == |s| {
        forall i | 0 <= i < |s| ensures IsMark(s[i]) {
          if i > 0 {
            assert s[i] == s[1..][i - 1];
          }
        }
      }
    }
  }

  /** The whose-turn character after `player` in `main`: always a mark,
      and the opponent's when `player` is a mark. */
  function Other(player: char): (q: char)
    ensures IsMark(q)
    ensures IsMark(player) ==> q != player
  {
    if player == 'X' then 'O' else 'X'
  }

  /** Switching the player twice gives the turn back. */
  lemma OtherTwice(p: char)
    requires IsMark(p)
    ensures Other(Other(p)) == p
  {
  }

  /** The state of `main`'s loop: the board, whose turn it is, the last
      checkWinner result, and how many moves were taken. */
  datatype Game = Game(board: Board, player: char, winner: int, moves: nat)

  const START: Game := Game(INITIAL, 'X', 0, 0)

  /** What holds at the top of every round of `main`: the marks on the
      board are the moves taken, 'X' is to move when both players have as
      many marks and 'O' when 'X' has one more, and `winner` is checkWinner
      of the board. */
  predicate Inv(g: Game) {
    && Consistent(g.board)
    && Count(g.board, 'X') + Count(g.board, 'O') == g.moves
    && (g.player == 'X' || g.player == 'O')
    && (g.player == 'X' ==> Count(g.board, 'X') == Count(g.board, 'O'))
    && (g.player == 'O' ==> Count(g.board, 'X') == Count(g.board, 'O') + 1)
    && g.winner == CheckWinner(g.board)
  }

  lemma StartInv()
    ensures Inv(START)
    ensures START.winner == 0
  {
    InitialCells();
    FreshBoard(INITIAL);
  }

  /** A board showing only its digits has no winner and no marks, so the
      game can start on it with 'X' to move. */
  lemma FreshBoard(b: Board)
    requires forall i :: 0 <= i < 9 ==> b[i] == DigitAt(i)
    ensures Inv(Game(b, 'X', 0, 0))
  {
    assert CheckWinner(b) == 0 by {
      assert b[0] == '1' && b[1] == '2' && b[2] == '3' && b[3] == '4' && b[4] == '5';
      assert b[5] == '6' && b[6] == '7' && b[7] == '8' && b[8] == '9';
      assert !IsMark(b[0]);
    }
    CountAbsent(b, 'X');
    CountAbsent(b, 'O');
  }

  /** The start-up board holds the digits '1'..'9' in order. */
  lemma InitialCells()
    ensures forall i :: 0 <= i < 9 ==> INITIAL[i] == DigitAt(i) && !IsMark(INITIAL[i])
  {
    var b := INITIAL;
    assert b[0] == '1' && b[1] == '2' && b[2] == '3' && b[3] == '4' && b[4] == '5';
    assert b[5] == '6' && b[6] == '7' && b[7] == '8' && b[8] == '9';
  }

  /** One round of `main`'s loop while no one has won: the player's turn
      with the answers given, then checkWinner, then the other player. None
      when the answers run out before a move is taken. */
  function Round(g: Game, answers: seq<int>): (r: Option<(Game, nat)>)
    requires g.winner == 0
    ensures r.Some? ==> r.value.0.moves == g.moves + 1 && r.value.0.player == Other(g.player)
    ensures r.Some? ==> 1 <= r.value.1 <= |answers|
  {
    match TakeTurn(g.board, g.player, answers)
    case None => None
    case Some((b, used)) => Some((Game(b, Other(g.player), CheckWinner(b), g.moves + 1), used))
  }

  /** A taken move keeps the invariant. */
  lemma MovePreserves(g: Game, choice: int, b: Board)
    requires Inv(g)
    requires PlayerMove(g.board, g.player, choice) == Some(b)
    ensures Inv(Game(b, Other(g.player), CheckWinner(b), g.moves + 1))
  {
    var i := choice - 1;
    assert b == g.board[i := g.player];
    assert !IsMark(g.board[i]);
    assert Consistent(b) by {
      forall j | 0 <= j < 9 ensures b[j] == DigitAt(j) || IsMark(b[j]) {
        if j != i {
          assert b[j] == g.board[j];
        }
      }
    }
    CountUpdate(g.board, i, g.player, 'X');
    CountUpdate(g.board, i, g.player, 'O');
  }

  /** A round keeps the invariant. */
  lemma RoundPreserves(g: Game, answers: seq<int>)
    requires Inv(g) && g.winner == 0
    requires Round(g, answers).Some?
    ensures Inv(Round(g, answers).value.0)
  {
    var t := TakeTurn(g.board, g.player, answers).value;
    var next := Game(t.0, Other(g.player), CheckWinner(t.0), g.moves + 1);
    assert Round(g, answers).value.0 == next;
    assert Inv(next) by {
      MovePreserves(g, answers[t.1 - 1], t.0);
    }
  }

  /** The loop stops in time: a game never has more than nine moves, and
      after the ninth the board is full, so checkWinner is no longer 0. */
  lemma GameEnds(g: Game)
    requires Inv(g)
    ensures g.moves <= 9
    ensures g.moves == 9 ==> g.winner != 0
  {
    MarkCount(g.board);
    if g.moves == 9 {
      assert Full(g.board);
      CheckWinnerClassifies(g.board);
    }
  }

  /** `main`'s loop over a stream of answers: rounds are played until
      someone wins, the board is full, or the answers run out. */
  function Play(g: Game, answers: seq<int>): (r: Game)
    ensures g.winner != 0 ==> r == g
    ensures g.moves <= r.moves <= g.moves + |answers|
    decreases |answers|
  {
    if g.winner != 0 then g
    else
      match Round(g, answers)
      case None => g
      case Some((next, used)) => Play(next, answers[used..])
  }

  /** Every game played from the start keeps the invariant, so it has at
      most nine moves, players alternate starting with 'X', and a finished
      game ends on a win or a full board. */
  lemma {:induction false} PlayPreserves(g: Game, answers: seq<int>)
    requires Inv(g)
    ensures Inv(Play(g, answers))
    ensures Play(g, answers).moves >= g.moves
    ensures Play(g, answers).moves <= 9
    decreases |answers|
  {
    if g.winner == 0 {
      match Round(g, answers)
      case None =>
        GameEnds(g);
      case Some((next, used)) =>
        RoundPreserves(g, answers);
        PlayPreserves(next, answers[used..]);
    } else {
      GameEnds(g);
    }
  }

  /** A game from the start that has used all nine cells is over. */
  lemma PlayFromStart(answers: seq<int>)
    ensures Inv(Play(START, answers))
    ensures Play(START, answers).moves <= 9
    ensures Play(START, answers).moves == 9 ==> Play(START, answers).winner != 0
  {
    StartInv();
    PlayPreserves(START, answers);
    GameEnds(Play(START, answers));
  }
}
