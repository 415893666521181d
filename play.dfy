/** What holds in real play of src/App.tsx: starting from the empty board, with the
    cells disabled once the game is over, the marks stay balanced, a game in progress
    has no completed line, the winner is always the side that has just moved, and
    the board is never full while the game is in progress, so the missing draw check
    after the computer's move cannot be reached. */
module Play {
  import opened Rules

  /** The number of cells of `b` that hold `c`. */
  function Count(b: Board, c: Cell): nat
  {
    if b == [] then 0 else (if b[0] == c then 1 else 0) + Count(b[1..], c)
  }

  /** No cell holds `c` exactly when `c` is counted zero times. */
  lemma {:induction false} CountZero(b: Board, c: Cell)
    ensures Count(b, c) == 0 <==> forall k :: 0 <= k < |b| ==> b[k] != c
  {
    if b != [] {
      CountZero(b[1..], c);
      assert forall k :: 1 <= k < |b| ==> b[k] == b[1..][k - 1];
    }
  }

  /** Every cell is empty or holds one of the two marks. */
  lemma {:induction false} CountTotal(b: Board)
    ensures Count(b, X) + Count(b, O) + Count(b, Empty) == |b|
  {
    if b != [] {
      CountTotal(b[1..]);
    }
  }

  /** Putting mark `m` on an empty cell adds one `m`, removes one empty cell and
      leaves the count of the other mark alone. */
  lemma {:induction false} CountPlace(b: Board, k: nat, m: Cell, other: Cell)
    requires k < |b| && b[k] == Empty && m != Empty && other != m && other != Empty
    ensures Count(b[k := m], m) == Count(b, m) + 1
    ensures Count(b[k := m], Empty) == Count(b, Empty) - 1
    ensures Count(b[k := m], other) == Count(b, other)
  {
    if k == 0 {
      assert b[k := m][1..] == b[1..];
    } else {
      assert b[k := m][1..] == b[1..][k - 1 := m];
      CountPlace(b[1..], k - 1, m, other);
    }
  }

  /** The invariant of real play: the player has moved as often as the computer or
      once more, and while the game is in progress the two have moved equally often
      and no line is complete. */
  predicate Consistent(b: Board, w: Outcome) {
    |b| == Size &&
    Count(b, O) <= Count(b, X) <= Count(b, O) + 1 &&
    (w == InProgress ==> Count(b, X) == Count(b, O) && FirstWinner(b) == Empty)
  }

  /** The state the component starts in, and returns to on restart, is consistent. */
  lemma EmptyBoardConsistent()
    ensures Consistent(EmptyBoard(), InProgress)
  {
    CountZero(EmptyBoard(), X);
    CountZero(EmptyBoard(), O);
  }

  /** A mark cannot complete a line of the other mark. */
  lemma PlacingAddsNoOtherLine(b: Board, k: Index, m: Cell, other: Cell)
    requires |b| == Size && other != m
    requires !HasLine(b, other)
    ensures !HasLine(b[k := m], other)
  {
  }

  /** Every click the view lets through keeps the state consistent. */
  lemma PressPreservesConsistency(b: Board, w: Outcome, idx: Index, pick: Index)
    requires Consistent(b, w) && PickOk(b, idx, pick)
    ensures Consistent(Press(b, w, idx, pick).0, Press(b, w, idx, pick).1)
  {
    if w == InProgress && b[idx] == Empty {
      var placed := b[idx := X];
      CountPlace(b, idx, X, O);
      if FirstWinner(placed) == Empty && !IsFull(placed) {
        CountPlace(placed, pick, O, X);
      }
    }
  }

  /** A game in progress always leaves the player an empty cell to click: the board
      never freezes with every cell taken and no result. */
  lemma InProgressNotFull(b: Board)
    requires Consistent(b, InProgress)
    ensures !IsFull(b)
  {
    CountTotal(b);
    CountZero(b, Empty);
  }

  /** The computer never takes the last empty cell: after its move some cell is still
      empty, so a draw check after the computer's move would never fire. */
  lemma ComputerNeverFillsBoard(b: Board, idx: Index, pick: Index)
    requires Consistent(b, InProgress) && ReachesComputer(b, idx) && PickOk(b, idx, pick)
    ensures !IsFull(b[idx := X][pick := O])
  {
    var placed := b[idx := X];
    CountPlace(b, idx, X, O);
    CountTotal(b);
    CountZero(placed, Empty);
    CountPlace(placed, pick, O, X);
    CountZero(placed[pick := O], Empty);
  }

  /** In real play every result names the side that has just moved: the first scan can
      only find a line of the player's mark and the second only one of the computer's,
      so the order of the table never matters; a draw is declared exactly when the
      player fills the board without a line. */
  lemma WinnerIsTheMover(b: Board, idx: Index, pick: Index)
    requires Consistent(b, InProgress) && PickOk(b, idx, pick) && b[idx] == Empty
    ensures Turn(b, InProgress, idx, pick).1 == PlayerWins <==> HasLine(b[idx := X], X)
    ensures Turn(b, InProgress, idx, pick).1 == PlayerWins ==> Turn(b, InProgress, idx, pick).0 == b[idx := X]
    ensures Turn(b, InProgress, idx, pick).1 == Draw <==> !HasLine(b[idx := X], X) && IsFull(b[idx := X])
    ensures Turn(b, InProgress, idx, pick).1 == Draw ==> Turn(b, InProgress, idx, pick).0 == b[idx := X]
    ensures Turn(b, InProgress, idx, pick).1 == ComputerWins <==>
      ReachesComputer(b, idx) && HasLine(b[idx := X][pick := O], O)
    ensures Turn(b, InProgress, idx, pick).1 == ComputerWins ==>
      Turn(b, InProgress, idx, pick).0 == b[idx := X][pick := O]
  {
    var placed := b[idx := X];
    FirstWinnerMeaning(b);
    PlacingAddsNoOtherLine(b, idx, X, O);
    FirstWinnerMeaning(placed);
    if FirstWinner(placed) == Empty && !IsFull(placed) {
      PlacingAddsNoOtherLine(placed, pick, O, X);
      FirstWinnerMeaning(placed[pick := O]);
    }
  }

  // ---------------------------------------------------------------------------
  // Three concrete games

  /** A mark held by a single cell completes no line. */
  lemma OneMarkNoLine(b: Board, m: Cell, k: Index)
    requires |b| == Size
    requires forall j :: 0 <= j < Size && j != k ==> b[j] != m
    ensures !HasLine(b, m)
  {
    WinLinesAreGridLines();
    forall n | 0 <= n < |WinLines|
      ensures !(b[WinLines[n].first] == m && b[WinLines[n].second] == m && b[WinLines[n].third] == m)
    {
      assert WinLines[n] in WinLines;
    }
  }

  /** The first click on the empty board, in the centre: the player's mark is there,
      the game goes on, and the computer has answered with one mark. */
  lemma FirstMoveInCentre(pick: Index)
    requires PickOk(EmptyBoard(), 4, pick)
    ensures Press(EmptyBoard(), InProgress, 4, pick).0[4] == X
    ensures Press(EmptyBoard(), InProgress, 4, pick).1 == InProgress
    ensures Count(Press(EmptyBoard(), InProgress, 4, pick).0, O) == 1
    ensures Count(Press(EmptyBoard(), InProgress, 4, pick).0, X) == 1
  {
    var placed := EmptyBoard()[4 := X];
    assert !IsFull(placed) by { assert placed[0] == Empty; }
    OneMarkNoLine(placed, X, 4);
    assert ReachesComputer(EmptyBoard(), 4) by { FirstWinnerMeaning(placed); }
    var answered := placed[pick := O];
    OneMarkNoLine(answered, O, pick);
    EmptyBoardConsistent();
    WinnerIsTheMover(EmptyBoard(), 4, pick);
    CountZero(EmptyBoard(), X);
    CountZero(EmptyBoard(), O);
    CountPlace(EmptyBoard(), 4, X, O);
    CountPlace(placed, pick, O, X);
  }

  /** Completing the top row wins at once and the computer does not answer. */
  lemma TopRowWins(pick: Index)
    ensures var b := [X, X, Empty, O, O, Empty, Empty, Empty, Empty];
      Press(b, InProgress, 2, pick) == (b[2 := X], PlayerWins)
  {
  }

  /** Filling the last cell without a line is a draw and the computer does not answer. */
  lemma LastCellDraws(pick: Index)
    ensures var b := [X, O, X, X, O, O, O, X, Empty];
      Press(b, InProgress, 8, pick) == (b[8 := X], Draw)
  {
  }

  /** Outside real play the table order decides: with a line of `O` already on the top
      row, an `X` that completes the middle row still reports the computer's win,
      because `[0,1,2]` is scanned before `[3,4,5]`. */
  lemma EarlierLineDecides(pick: Index)
    ensures var b := [O, O, O, X, X, Empty, Empty, Empty, Empty];
      HasLine(b[5 := X], X) && Turn(b, InProgress, 5, pick) == (b[5 := X], ComputerWins)
  {
    var placed := [O, O, O, X, X, Empty, Empty, Empty, Empty][5 := X];
    assert placed[WinLines[6].first] == X && placed[WinLines[6].second] == X && placed[WinLines[6].third] == X;
  }
}
