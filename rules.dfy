/** The rules of the tic-tac-toe component of src/App.tsx as values: the cell and
    result encodings, the win-line table, the classification of one triple, the win
    scan, one whole turn, and the two guards the view puts in front of the handlers. */
module Rules {

  /** One grid cell: `null`, `TicTacMap.X` (1, the player) or `TicTacMap.O` (0, the computer). */
  datatype Cell = Empty | X | O

  /** The `winner` state: `null` while playing, `X` or `O` once that mark has won,
      `undefined` for a draw. */
  datatype Outcome = InProgress | PlayerWins | ComputerWins | Draw

  /** The grid, row-major: cell `3 * row + column`. */
  type Board = seq<Cell>

  const Size: nat := 9

  /** A position on the grid. */
  type Index = k: int | 0 <= k < Size

  /** One entry of `winLines`: three positions that win when they carry the same mark. */
  datatype Line = Line(first: Index, second: Index, third: Index)

  /** `winLines`, in the order the handler scans it. */
  const WinLines: seq<Line> := [
    Line(0, 1, 2),
    Line(0, 3, 6),
    Line(0, 4, 8),
    Line(2, 4, 6),
    Line(2, 5, 8),
    Line(1, 4, 7),
    Line(3, 4, 5),
    Line(6, 7, 8)
  ]

  /** `Array(9).fill(null)`. */
  function EmptyBoard(): Board { seq(Size, _ => Empty) }

  // ---------------------------------------------------------------------------
  // The win-line table against the rows, columns and diagonals of the grid

  /** A row, a column or a diagonal of the 3 x 3 grid, by the positions of its cells. */
  predicate IsGridLine(l: Line) {
    (l.first % 3 == 0 && l.second == l.first + 1 && l.third == l.first + 2) ||
    (l.first < 3 && l.second == l.first + 3 && l.third == l.first + 6) ||
    l == Line(0, 4, 8) || l == Line(2, 4, 6)
  }

  /** The table holds eight distinct lines, and they are exactly the three rows, the
      three columns and the two diagonals. */
  lemma WinLinesAreGridLines()
    ensures |WinLines| == 8
    ensures forall m, n :: 0 <= m < n < |WinLines| ==> WinLines[m] != WinLines[n]
    ensures forall l: Line :: l in WinLines <==> IsGridLine(l)
  {
    forall l: Line | IsGridLine(l) ensures l in WinLines {
      if l.first % 3 == 0 && l.second == l.first + 1 && l.third == l.first + 2 {
        assert l.first == 0 || l.first == 3 || l.first == 6;
      } else if l.first < 3 && l.second == l.first + 3 && l.third == l.first + 6 {
        assert l.first == 0 || l.first == 1 || l.first == 2;
      }
    }
  }

  // ---------------------------------------------------------------------------
  // getWinner and the scan over the table

  /** `getWinner(a, b, c)`: the mark shared by all three cells, if there is one. */
  function GetWinner(a: Cell, b: Cell, c: Cell): (r: Cell)
    ensures r == X <==> a == X && b == X && c == X
    ensures r == O <==> a == O && b == O && c == O
    ensures r == Empty <==> !(a == b && b == c && a != Empty)
  {
    if a == X && b == X && c == X then X
    else if a == O && b == O && c == O then O
    else
      assert a == b && b == c ==> a.Empty?;
      Empty
  }

  /** `getWinner(newState[pos[0]], newState[pos[1]], newState[pos[2]])` for one line. */
  function LineWinner(b: Board, l: Line): Cell
    requires |b| == Size
  {
    GetWinner(b[l.first], b[l.second], b[l.third])
  }

  /** Whether some win line carries `m` in all three cells: the reference reading of
      "the game is won by m", independent of the order of the table. */
  ghost predicate HasLine(b: Board, m: Cell)
    requires |b| == Size
  {
    exists n :: 0 <= n < |WinLines| &&
      b[WinLines[n].first] == m && b[WinLines[n].second] == m && b[WinLines[n].third] == m
  }

  /** The `for (const pos of winLines)` scan from entry `n` on: the winner of the first
      uniform line, or `Empty` when the loop runs to its end. */
  function ScanFrom(b: Board, n: nat): (r: Cell)
    requires |b| == Size && n <= |WinLines|
    ensures r == Empty <==> forall m :: n <= m < |WinLines| ==> LineWinner(b, WinLines[m]) == Empty
    ensures r != Empty ==>
      exists m :: n <= m < |WinLines| && LineWinner(b, WinLines[m]) == r &&
        forall k :: n <= k < m ==> LineWinner(b, WinLines[k]) == Empty
    decreases |WinLines| - n
  {
    if n == |WinLines| then Empty
    else if LineWinner(b, WinLines[n]) != Empty then LineWinner(b, WinLines[n])
    else ScanFrom(b, n + 1)
  }

  /** The winner a full scan of the table reports. */
  function FirstWinner(b: Board): Cell
    requires |b| == Size
  {
    ScanFrom(b, 0)
  }

  /** The scan reports a winner exactly when some line is uniform, and the mark it
      reports is the mark of a uniform line. */
  lemma FirstWinnerMeaning(b: Board)
    requires |b| == Size
    ensures FirstWinner(b) == Empty <==> !HasLine(b, X) && !HasLine(b, O)
    ensures FirstWinner(b) != Empty ==> HasLine(b, FirstWinner(b))
  {
    if FirstWinner(b) == Empty {
      forall n | 0 <= n < |WinLines|
        ensures !(b[WinLines[n].first] == X && b[WinLines[n].second] == X && b[WinLines[n].third] == X)
        ensures !(b[WinLines[n].first] == O && b[WinLines[n].second] == O && b[WinLines[n].third] == O)
      {
        assert LineWinner(b, WinLines[n]) == Empty;
      }
    } else {
      var m :| 0 <= m < |WinLines| && LineWinner(b, WinLines[m]) == FirstWinner(b);
      assert b[WinLines[m].first] == FirstWinner(b);
    }
  }

  /** `setWinner(winner)` with the mark the scan found: `X` is the player's win, `O`
      the computer's. Were both kinds of line complete, the table order would decide;
      in real play that never happens (Play.WinnerIsTheMover). */
  function OutcomeOf(m: Cell): (r: Outcome)
    requires m != Empty
    ensures r == PlayerWins <==> m == X
    ensures r == ComputerWins <==> m == O
  {
    match m
    case X => PlayerWins
    case O => ComputerWins
  }

  /** `newState.every((value) => value !== null)`. */
  predicate IsFull(b: Board) {
    forall k :: 0 <= k < |b| ==> b[k] != Empty
  }

  // ---------------------------------------------------------------------------
  // One turn

  /** Whether the handler gets as far as the computer's move: the clicked cell was
      empty, the player's mark completed no line and the board is not full. */
  predicate ReachesComputer(b: Board, idx: Index)
    requires |b| == Size
  {
    b[idx] == Empty && FirstWinner(b[idx := X]) == Empty && !IsFull(b[idx := X])
  }

  /** What the sampling loop guarantees of the computer's cell: whenever the computer
      moves, the cell was empty after the player's mark was placed. */
  predicate PickOk(b: Board, idx: Index, pick: Index)
    requires |b| == Size
  {
    ReachesComputer(b, idx) ==> b[idx := X][pick] == Empty
  }

  /** The computer's move always has a target: whatever the board and the click,
      some cell the caller may supply as the computer's choice exists. */
  lemma PickExists(b: Board, idx: Index)
    requires |b| == Size
    ensures exists pick: Index :: PickOk(b, idx, pick)
  {
    if ReachesComputer(b, idx) {
      var k :| 0 <= k < Size && b[idx := X][k] == Empty;
      assert PickOk(b, idx, k);
    } else {
      assert PickOk(b, idx, 0);
    }
  }

  /** `clickHandler(grid[idx], idx)` as a function of the board, the prior result, the
      clicked cell and the cell the computer's sampling lands on. */
  function Turn(b: Board, w: Outcome, idx: Index, pick: Index): (res: (Board, Outcome))
    requires |b| == Size
    requires PickOk(b, idx, pick)
    ensures |res.0| == Size
    ensures b[idx] != Empty ==> res == (b, w)
    ensures b[idx] == Empty ==> res.0[idx] == X
    ensures forall k :: 0 <= k < Size && b[k] != Empty ==> res.0[k] == b[k]
    ensures forall k :: 0 <= k < Size && k != idx && res.0[k] != b[k] ==>
      k == pick && b[k] == Empty && res.0[k] == O
  {
    if b[idx] != Empty then (b, w)
    else
      var placed := b[idx := X];
      if FirstWinner(placed) != Empty then (placed, OutcomeOf(FirstWinner(placed)))
      else if IsFull(placed) then (placed, Draw)
      else
        var answered := placed[pick := O];
        if FirstWinner(answered) != Empty then (answered, OutcomeOf(FirstWinner(answered)))
        else (answered, w)
  }

  /** The three ways a turn on an empty cell ends. A line completed by the player's
      mark ends the game with that line's mark and the computer does not move; a full
      board without a line is a draw and the computer does not move; otherwise the
      computer's mark lands on a cell that was empty, and the result changes only to
      the mark of a completed line (in particular, a board the computer fills is not
      declared a draw). */
  lemma TurnCases(b: Board, w: Outcome, idx: Index, pick: Index)
    requires |b| == Size && PickOk(b, idx, pick) && b[idx] == Empty
    ensures HasLine(b[idx := X], X) || HasLine(b[idx := X], O) ==>
      exists m :: m != Empty && HasLine(b[idx := X], m) &&
        Turn(b, w, idx, pick) == (b[idx := X], OutcomeOf(m))
    ensures HasLine(b[idx := X], X) || HasLine(b[idx := X], O) ==>
      Turn(b, w, idx, pick).1 == OutcomeOf(FirstWinner(b[idx := X]))
    ensures !HasLine(b[idx := X], X) && !HasLine(b[idx := X], O) && IsFull(b[idx := X]) ==>
      Turn(b, w, idx, pick) == (b[idx := X], Draw)
    ensures !HasLine(b[idx := X], X) && !HasLine(b[idx := X], O) && !IsFull(b[idx := X]) ==>
      b[idx := X][pick] == Empty && Turn(b, w, idx, pick).0 == b[idx := X][pick := O]
    ensures !HasLine(b[idx := X], X) && !HasLine(b[idx := X], O) && !IsFull(b[idx := X]) ==>
      var answered := b[idx := X][pick := O];
      (HasLine(answered, X) || HasLine(answered, O) ==>
        exists m :: m != Empty && HasLine(answered, m) && Turn(b, w, idx, pick).1 == OutcomeOf(m)) &&
      (!HasLine(answered, X) && !HasLine(answered, O) ==> Turn(b, w, idx, pick).1 == w)
  {
    var placed := b[idx := X];
    FirstWinnerMeaning(placed);
    if FirstWinner(placed) != Empty {
      var m := FirstWinner(placed);
      assert HasLine(placed, m) && Turn(b, w, idx, pick) == (placed, OutcomeOf(m));
    } else if !IsFull(placed) {
      var answered := placed[pick := O];
      FirstWinnerMeaning(answered);
      if FirstWinner(answered) != Empty {
        assert HasLine(answered, FirstWinner(answered));
      }
    }
  }

  // ---------------------------------------------------------------------------
  // The guards of the view

  /** `disabled={winner !== null || winner === undefined}` on every cell button: the
      second disjunct adds nothing, the cells are disabled exactly once the game is over. */
  function CellsDisabled(w: Outcome): (r: bool)
    ensures r <==> w != InProgress
  {
    w != InProgress || w == Draw
  }

  /** `disabled={grid.every((v) => v === null)}` on the restart button: it is disabled
      exactly on the empty board. */
  function RestartDisabled(b: Board): (r: bool)
    requires |b| == Size
    ensures r <==> b == EmptyBoard()
  {
    forall k :: 0 <= k < |b| ==> b[k] == Empty
  }

  /** A click on cell `idx` as the user can make it: ignored while the cells are
      disabled, otherwise one turn. */
  function Press(b: Board, w: Outcome, idx: Index, pick: Index): (res: (Board, Outcome))
    requires |b| == Size
    requires PickOk(b, idx, pick)
    ensures |res.0| == Size
    ensures w != InProgress ==> res == (b, w)
    ensures w == InProgress ==> res == Turn(b, w, idx, pick)
  {
    if CellsDisabled(w) then (b, w) else Turn(b, w, idx, pick)
  }
}
