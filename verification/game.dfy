/**
 The board model of the tic-tac-toe player: the 3x3 grid, whose turn it is,
 the legal moves, applying a move, detecting a winner, terminal boards and
 their scores.
 */
module Game {
  import opened Options

  /** A cell of the grid. `Empty` is the source's EMPTY, which is Python's `None`. */
  datatype Cell = Empty | X | O

  /** The grid shape every board of the game has: three rows of three cells. */
  predicate IsGrid(g: seq<seq<Cell>>) {
    |g| == 3 && forall r :: 0 <= r < 3 ==> |g[r]| == 3
  }

  /** A board, compared by value; Dafny's value semantics replaces the deep copy. */
  type Board = g: seq<seq<Cell>> | IsGrid(g)
    witness [[Empty, Empty, Empty], [Empty, Empty, Empty], [Empty, Empty, Empty]]

  /** An action `(i, j)`: row `i`, column `j`, as the source's tuples carry them. */
  type Action = (int, int)

  predicate OnBoard(i: int, j: int) {
    0 <= i < 3 && 0 <= j < 3
  }

  /** The mark of the other player. */
  function Opponent(m: Cell): Cell {
    match m
    case X => O
    case O => X
    case Empty => Empty
  }

  // ---------------------------------------------------------------------------
  // Counting marks (the source counts with numpy)
  // ---------------------------------------------------------------------------

  /** The number of cells of `s` holding `c`. */
  function CountIn(s: seq<Cell>, c: Cell): nat {
    if s == [] then 0 else (if s[0] == c then 1 else 0) + CountIn(s[1..], c)
  }

  /** The number of cells of the board holding `c`. */
  function Count(b: Board, c: Cell): nat {
    CountIn(b[0], c) + CountIn(b[1], c) + CountIn(b[2], c)
  }

  lemma {:induction false} CountInZero(s: seq<Cell>, c: Cell)
    ensures CountIn(s, c) == 0 <==> forall k :: 0 <= k < |s| ==> s[k] != c
  {
    if s != [] {
      CountInZero(s[1..], c);
      assert forall k :: 1 <= k < |s| ==> s[k] == s[1..][k - 1];
    }
  }

  lemma {:induction false} CountInUpdate(s: seq<Cell>, j: int, v: Cell, c: Cell)
    requires 0 <= j < |s|
    ensures CountIn(s[j := v], c)
         == CountIn(s, c) - (if s[j] == c then 1 else 0) + (if v == c then 1 else 0)
  {
    if j == 0 {
      assert s[j := v][1..] == s[1..];
    } else {
      CountInUpdate(s[1..], j - 1, v, c);
      assert s[j := v][1..] == s[1..][j - 1 := v];
    }
  }

  /** No cell holds `c` exactly when the count of `c` is zero. */
  lemma CountZero(b: Board, c: Cell)
    ensures Count(b, c) == 0 <==> forall i, j :: OnBoard(i, j) ==> b[i][j] != c
  {
    CountInZero(b[0], c);
    CountInZero(b[1], c);
    CountInZero(b[2], c);
    if Count(b, c) != 0 {
      var i :| 0 <= i < 3 && CountIn(b[i], c) != 0;
      var j :| 0 <= j < 3 && b[i][j] == c;
      assert OnBoard(i, j);
    }
  }

  /** Every cell is empty, X or O, so the three counts of a row add up to its length. */
  lemma {:induction false} CountInTotal(s: seq<Cell>)
    ensures CountIn(s, Empty) + CountIn(s, X) + CountIn(s, O) == |s|
  {
    if s != [] {
      CountInTotal(s[1..]);
    }
  }

  /** The three counts of a board add up to nine: a board never holds more than nine marks. */
  lemma CountTotal(b: Board)
    ensures Count(b, Empty) + Count(b, X) + Count(b, O) == 9
  {
    CountInTotal(b[0]);
    CountInTotal(b[1]);
    CountInTotal(b[2]);
  }

  // ---------------------------------------------------------------------------
  // initial_state and Player
  // ---------------------------------------------------------------------------

  /** The starting board: every cell empty, nine empty cells and no marks. */
  function InitialState(): (b: Board)
    ensures forall i, j :: OnBoard(i, j) ==> b[i][j] == Empty
    ensures Count(b, Empty) == 9 && Count(b, X) == 0 && Count(b, O) == 0
  {
    var row := [Empty, Empty, Empty];
    assert row[1..] == [Empty, Empty] && row[1..][1..] == [Empty];
    assert CountIn(row, Empty) == 3 && CountIn(row, X) == 0 && CountIn(row, O) == 0;
    [row, row, row]
  }

  /**
   The player to move. The source special-cases the starting board; the
   contract shows that the count rule alone gives the same answer: O moves
   exactly when X has placed more marks than O.
   */
  function Player(b: Board): (p: Cell)
    ensures p != Empty
    ensures p == O <==> Count(b, X) > Count(b, O)
  {
    if b == InitialState() then X
    else if Count(b, X) > Count(b, O) then O
    else X
  }

  /**
   X opens the game, and the special case for the starting board agrees with
   the count rule: both counts are zero there, so the rule also says X.
   */
  lemma InitialTurn()
    ensures Player(InitialState()) == X
    ensures !(Count(InitialState(), X) > Count(InitialState(), O))
  {
  }

  // ---------------------------------------------------------------------------
  // actions
  // ---------------------------------------------------------------------------

  /** The set of empty cells of the board, as actions. */
  function EmptyCells(b: Board): (r: set<Action>)
    ensures forall a {:trigger a in r} :: a in r <==> OnBoard(a.0, a.1) && b[a.0][a.1] == Empty
  {
    set i: int, j: int | 0 <= i < 3 && 0 <= j < 3 && b[i][j] == Empty :: (i, j)
  }

  /** The legal actions, collected by scanning rows and then columns. */
  method Actions(b: Board) returns (s: set<Action>)
    ensures s == EmptyCells(b)
  {
    s := {};
    for i := 0 to 3
      invariant forall a :: a in s <==> 0 <= a.0 < i && 0 <= a.1 < 3 && b[a.0][a.1] == Empty
    {
      for j := 0 to 3
        invariant forall a :: a in s <==>
          ((0 <= a.0 < i && 0 <= a.1 < 3) || (a.0 == i && 0 <= a.1 < j)) && b[a.0][a.1] == Empty
      {
        if b[i][j] == Empty {
          s := s + {(i, j)};
        }
      }
    }
  }

  /** There is no legal action exactly when no cell is empty. */
  lemma NoActionsIffFull(b: Board)
    ensures EmptyCells(b) == {} <==> Count(b, Empty) == 0
  {
    CountZero(b, Empty);
    if Count(b, Empty) != 0 {
      var i, j :| OnBoard(i, j) && b[i][j] == Empty;
      assert (i, j) in EmptyCells(b);
    }
  }

  // ---------------------------------------------------------------------------
  // result
  // ---------------------------------------------------------------------------

  /** Why `result` refuses an action. */
  datatype MoveError =
    | InvalidAction   // the target cell is occupied (the source raises 'Invalid action')
    | IndexError      // an index outside the 3x3 grid (Python's IndexError)

  /** What `result` produces: the new board, or the error it raises. */
  datatype MoveResult = Moved(board: Board) | Refused(error: MoveError)

  /**
   Where Python sends index `k` of a three-element list: 0..2 as they are,
   -3..-1 counted from the end, anything else out of range.
   */
  function PyIndex(k: int): (r: Option<int>)
    ensures r.Some? ==> 0 <= r.value < 3 && (r.value - k) % 3 == 0
    ensures r.None? <==> k < -3 || 3 <= k
  {
    if 0 <= k < 3 then Some(k)
    else if -3 <= k < 0 then Some(k + 3)
    else None
  }

  /**
   Writing the current player's mark into an empty cell. Only that cell
   changes, it now holds the mover's mark, and one empty cell is used up.
   */
  function Play(b: Board, i: int, j: int): (r: Board)
    requires OnBoard(i, j) && b[i][j] == Empty
    ensures r[i][j] == Player(b)
    ensures forall p, q {:trigger r[p][q]} :: OnBoard(p, q) && (p, q) != (i, j) ==> r[p][q] == b[p][q]
    ensures Count(r, Empty) == Count(b, Empty) - 1
    ensures Count(r, Player(b)) == Count(b, Player(b)) + 1
    ensures Count(r, Opponent(Player(b))) == Count(b, Opponent(Player(b)))
  {
    var m := Player(b);
    var r := b[i := b[i][j := m]];
    CountInUpdate(b[i], j, m, Empty);
    CountInUpdate(b[i], j, m, m);
    CountInUpdate(b[i], j, m, Opponent(m));
    r
  }

  /** The board after the action, or the error the source raises for it. */
  function Result(b: Board, a: Action): (r: MoveResult)
    ensures OnBoard(a.0, a.1) ==> (r.Moved? <==> b[a.0][a.1] == Empty)
    ensures r == Refused(IndexError) <==> PyIndex(a.0).None? || PyIndex(a.1).None?
    ensures r.Moved? ==> Count(r.board, Empty) == Count(b, Empty) - 1
    ensures r.Moved? && OnBoard(a.0, a.1) ==>
      r.board[a.0][a.1] == Player(b) &&
      forall p, q {:trigger r.board[p][q]} :: OnBoard(p, q) && (p, q) != a ==> r.board[p][q] == b[p][q]
  {
    match (PyIndex(a.0), PyIndex(a.1))
    case (Some(i), Some(j)) =>
      if b[i][j] != Empty then Refused(InvalidAction) else Moved(Play(b, i, j))
    case _ => Refused(IndexError)
  }

  /** An action on an empty cell is accepted and plays that cell. */
  lemma ResultOfEmptyCell(b: Board, a: Action)
    requires OnBoard(a.0, a.1) && b[a.0][a.1] == Empty
    ensures Result(b, a) == Moved(Play(b, a.0, a.1))
  {
  }

  /**
   Any pair of indexes Python accepts, negative ones included, acts exactly
   like the pair of cells they name: the move is accepted when that cell is
   empty, and then plays it.
   */
  lemma NegativeIndexAliases(b: Board, i: int, j: int)
    requires PyIndex(i).Some? && PyIndex(j).Some?
    ensures Result(b, (i, j)) == Result(b, (PyIndex(i).value, PyIndex(j).value))
    ensures Result(b, (i, j)).Moved? <==> b[PyIndex(i).value][PyIndex(j).value] == Empty
  {
  }

  // ---------------------------------------------------------------------------
  // winner
  // ---------------------------------------------------------------------------

  /** Three cells holding the same mark: `a != EMPTY and a == b == c`. */
  predicate Uniform(a: Cell, b: Cell, c: Cell) {
    a != Empty && a == b && b == c
  }

  /** A cell of the grid. */
  type Pos = p: (int, int) | OnBoard(p.0, p.1) witness (0, 0)

  /** A line of three cells. */
  datatype Line = Line(p: Pos, q: Pos, r: Pos)

  /**
   The eight lines in the order the source checks them: the rows from the
   top, the columns from the left, the main diagonal, then the other
   diagonal (whose cells the source compares as (0,2), (2,0), (1,1)).
   */
  const Lines: seq<Line> := [
    Line((0, 0), (0, 1), (0, 2)), Line((1, 0), (1, 1), (1, 2)), Line((2, 0), (2, 1), (2, 2)),
    Line((0, 0), (1, 0), (2, 0)), Line((0, 1), (1, 1), (2, 1)), Line((0, 2), (1, 2), (2, 2)),
    Line((0, 0), (1, 1), (2, 2)), Line((0, 2), (2, 0), (1, 1))
  ]

  /** The three cells of line `l` hold the same mark. */
  predicate Full(b: Board, l: Line) {
    Uniform(b[l.p.0][l.p.1], b[l.q.0][l.q.1], b[l.r.0][l.r.1])
  }

  /**
   The check of the lines from line `k` on: the mark of the first full line,
   or `Empty` (the source's `None`) when none is full.
   */
  function WinnerFrom(b: Board, k: nat): Cell
    requires k <= |Lines|
    decreases |Lines| - k
  {
    if k == |Lines| then Empty
    else if Full(b, Lines[k]) then b[Lines[k].p.0][Lines[k].p.1]
    else WinnerFrom(b, k + 1)
  }

  /** The winner: the mark of the first full line in the source's order, if any. */
  function Winner(b: Board): Cell {
    WinnerFrom(b, 0)
  }

  /** Mark `m` fills every cell of line `l`. */
  predicate Holds(b: Board, l: Line, m: Cell) {
    m != Empty && b[l.p.0][l.p.1] == m && b[l.q.0][l.q.1] == m && b[l.r.0][l.r.1] == m
  }

  /** Mark `m` fills one of the eight lines. */
  predicate HasLine(b: Board, m: Cell) {
    exists k :: 0 <= k < |Lines| && Holds(b, Lines[k], m)
  }

  /**
   The scan from line `k` on reports the mark filling the first full line
   from `k` on, and reports `Empty` exactly when no line from `k` on is full.
   */
  lemma {:induction false} WinnerFromFirst(b: Board, k: nat)
    requires k <= |Lines|
    ensures WinnerFrom(b, k) != Empty ==>
      exists n :: k <= n < |Lines| && Holds(b, Lines[n], WinnerFrom(b, k)) &&
        forall n' :: k <= n' < n ==> !Full(b, Lines[n'])
    ensures WinnerFrom(b, k) == Empty <==> forall n :: k <= n < |Lines| ==> !Full(b, Lines[n])
    decreases |Lines| - k
  {
    if k < |Lines| {
      WinnerFromFirst(b, k + 1);
      if Full(b, Lines[k]) {
        assert Holds(b, Lines[k], WinnerFrom(b, k));
      }
    }
  }

  /**
   The winner is a mark that fills a line, and there is no winner exactly
   when neither mark fills a line.
   */
  lemma WinnerMatchesLines(b: Board)
    ensures Winner(b) != Empty ==> HasLine(b, Winner(b))
    ensures Winner(b) == Empty <==> !HasLine(b, X) && !HasLine(b, O)
  {
    WinnerFromFirst(b, 0);
    if Winner(b) == Empty {
      forall m, k | 0 <= k < |Lines|
        ensures !Holds(b, Lines[k], m)
      {
        assert !Full(b, Lines[k]);
      }
    }
  }

  /**
   The source checks the lines in order and returns at the first full one:
   when line `k` is the first full line, its mark is the winner.
   */
  lemma WinnerIsFirstFullLine(b: Board, k: nat)
    requires k < |Lines| && Full(b, Lines[k])
    requires forall n :: 0 <= n < k ==> !Full(b, Lines[n])
    ensures Winner(b) == b[Lines[k].p.0][Lines[k].p.1]
  {
    WinnerFromFirst(b, 0);
    assert Winner(b) != Empty;
    var n :| 0 <= n < |Lines| && Holds(b, Lines[n], Winner(b)) &&
      forall n' :: 0 <= n' < n ==> !Full(b, Lines[n']);
    assert Full(b, Lines[n]);
    assert n == k;
  }

  /** When only one mark fills a line, that mark is the winner. */
  lemma SoleLineOwnerWins(b: Board, m: Cell)
    requires HasLine(b, m) && !HasLine(b, Opponent(m))
    ensures Winner(b) == m
  {
    WinnerMatchesLines(b);
    var k :| 0 <= k < |Lines| && Holds(b, Lines[k], m);
    assert m != Empty;
  }

  // ---------------------------------------------------------------------------
  // terminal and utility
  // ---------------------------------------------------------------------------

  /** The game is over: someone has won or no cell is empty. */
  predicate Terminal(b: Board) {
    Winner(b) != Empty || Count(b, Empty) == 0
  }

  /** A board is terminal exactly when a mark fills a line or no action is left. */
  lemma TerminalMeaning(b: Board)
    ensures Terminal(b) <==> HasLine(b, X) || HasLine(b, O) || EmptyCells(b) == {}
  {
    WinnerMatchesLines(b);
    NoActionsIffFull(b);
  }

  /** A board that is not over still has a legal action. */
  lemma OngoingHasActions(b: Board)
    requires !Terminal(b)
    ensures EmptyCells(b) != {}
  {
    NoActionsIffFull(b);
  }

  /** The score from X's point of view: 1 if X has won, -1 if O has, 0 otherwise. */
  function Utility(b: Board): (u: int)
    ensures -1 <= u <= 1
  {
    var w := Winner(b);
    if w == X then 1
    else if w == O then -1
    else 0
  }

  /**
   The score in terms of the lines: 0 exactly when no mark fills a line, a
   mark that alone fills a line gets its sign, and a nonzero score always
   belongs to a mark that fills a line.
   */
  lemma UtilityMeaning(b: Board)
    ensures Utility(b) == 0 <==> !HasLine(b, X) && !HasLine(b, O)
    ensures Utility(b) == 1 ==> HasLine(b, X)
    ensures Utility(b) == -1 ==> HasLine(b, O)
    ensures HasLine(b, X) && !HasLine(b, O) ==> Utility(b) == 1
    ensures HasLine(b, O) && !HasLine(b, X) ==> Utility(b) == -1
  {
    WinnerMatchesLines(b);
    if HasLine(b, X) && !HasLine(b, O) {
      SoleLineOwnerWins(b, X);
    }
    if HasLine(b, O) && !HasLine(b, X) {
      SoleLineOwnerWins(b, O);
    }
  }

  /**
   A scenario: with one cell left, X is to move, the game is not over and
   the only action is that cell; playing it fills the board without any
   line, so the game ends with no winner and a score of 0.
   */
  lemma LastCellScenario()
    ensures var b: Board := [[X, O, X], [X, O, O], [O, X, Empty]];
      var full: Board := [[X, O, X], [X, O, O], [O, X, X]];
      !Terminal(b) && Player(b) == X && EmptyCells(b) == {(2, 2)} &&
      Result(b, (2, 2)) == Moved(full) &&
      Terminal(full) && Winner(full) == Empty && Utility(full) == 0
  {
    var b: Board := [[X, O, X], [X, O, O], [O, X, Empty]];
    var full: Board := [[X, O, X], [X, O, O], [O, X, X]];
    assert Winner(b) == Empty;
    assert Count(b, Empty) == 1;
    assert !Terminal(b);
    assert Count(b, X) == 4 && Count(b, O) == 4;
    assert Player(b) == X;
    assert EmptyCells(b) == {(2, 2)};
    ResultOfEmptyCell(b, (2, 2));
    assert b[2][2 := X] == [O, X, X];
    assert Play(b, 2, 2) == b[2 := [O, X, X]] == full;
    assert Winner(full) == Empty;
    assert Terminal(full);
  }

  // ---------------------------------------------------------------------------
  // Play from the starting board
  // ---------------------------------------------------------------------------

  /** X has placed as many marks as O, or one more. */
  predicate Balanced(b: Board) {
    Count(b, O) <= Count(b, X) <= Count(b, O) + 1
  }

  /** A legal move keeps a balanced board balanced and passes the turn. */
  lemma PlayAlternates(b: Board, i: int, j: int)
    requires Balanced(b) && OnBoard(i, j) && b[i][j] == Empty
    ensures Balanced(Play(b, i, j))
    ensures Player(Play(b, i, j)) == Opponent(Player(b))
  {
  }

  /** Applying the actions one after another with `result`, stopping at the first error. */
  function Replay(b: Board, moves: seq<Action>): MoveResult
    decreases |moves|
  {
    if moves == [] then Moved(b)
    else
      match Replay(b, moves[..|moves| - 1])
      case Moved(b') => Result(b', moves[|moves| - 1])
      case Refused(e) => Refused(e)
  }

  /**
   After any sequence of accepted actions from the starting board, X has
   placed ceil(n/2) marks and O floor(n/2), so the board is balanced and the
   turn has strictly alternated: X moves after an even number of actions.
   */
  lemma {:induction false} ReplayFromStart(moves: seq<Action>)
    requires Replay(InitialState(), moves).Moved?
    ensures var b := Replay(InitialState(), moves).board;
      Count(b, X) == (|moves| + 1) / 2 && Count(b, O) == |moves| / 2 &&
      Balanced(b) &&
      Player(b) == (if |moves| % 2 == 0 then X else O)
  {
    if moves != [] {
      var prefix := moves[..|moves| - 1];
      ReplayFromStart(prefix);
      var b' := Replay(InitialState(), prefix).board;
      var a := moves[|moves| - 1];
      var i, j := PyIndex(a.0).value, PyIndex(a.1).value;
      assert Result(b', a) == Moved(Play(b', i, j));
    }
  }
}
