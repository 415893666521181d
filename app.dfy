/** The component of src/App.tsx in its own imperative form: the `grid` and `winner`
    state cells become the two fields of one object, which the handlers update
    together, once per turn. */
module App {
  import opened Rules
  import Play

  /** The `for (const pos of winLines)` loop of the click handler over the grid: the
      mark of the first uniform line in table order, or `Empty` once the loop has run
      through the table. */
  method ScanWinLines(grid: array<Cell>) returns (winner: Cell)
    requires grid.Length == Size
    ensures winner == FirstWinner(grid[..])
    ensures winner == Empty <==> !HasLine(grid[..], X) && !HasLine(grid[..], O)
    ensures winner != Empty ==> HasLine(grid[..], winner)
  {
    FirstWinnerMeaning(grid[..]);
    var n := 0;
    while n < |WinLines|
      invariant 0 <= n <= |WinLines|
      invariant ScanFrom(grid[..], n) == FirstWinner(grid[..])
    {
      var pos := WinLines[n];
      winner := GetWinner(grid[pos.first], grid[pos.second], grid[pos.third]);
      if winner != Empty {
        return;
      }
      n := n + 1;
    }
    winner := Empty;
  }

  class Game {
    /** The nine cells, row-major. */
    var grid: array<Cell>
    /** The result of the game so far. */
    var winner: Outcome

    ghost predicate Valid()
      reads this
    {
      grid.Length == Size
    }

    /** `useState(Array(9).fill(null))` and `useState(null)`: an empty grid, no result. */
    constructor ()
      ensures Valid() && fresh(grid)
      ensures grid[..] == EmptyBoard() && winner == InProgress
      ensures Play.Consistent(grid[..], winner)
    {
      grid := new Cell[Size](_ => Empty);
      winner := InProgress;
      new;
      assert grid[..] == EmptyBoard();
      Play.EmptyBoardConsistent();
    }

    /** `restart`: a new empty grid and no result, whatever the state was. */
    method Restart()
      modifies this
      ensures Valid() && fresh(grid)
      ensures grid[..] == EmptyBoard() && winner == InProgress
      ensures Play.Consistent(grid[..], winner)
    {
      grid := new Cell[Size](_ => Empty);
      winner := InProgress;
      assert grid[..] == EmptyBoard();
      Play.EmptyBoardConsistent();
    }

    /** `clickHandler(grid[idx], idx)`, where `pick` is the cell the computer's random
        sampling settles on. The handler itself does not look at `winner`. */
    method ClickHandler(idx: Index, pick: Index)
      requires Valid() && PickOk(grid[..], idx, pick)
      modifies grid, this`winner
      ensures Valid() && grid == old(grid)
      ensures (grid[..], winner) == Turn(old(grid[..]), old(winner), idx, pick)
    {
      if grid[idx] != Empty {
        return;
      }
      grid[idx] := X;
      var w := ScanWinLines(grid);
      if w != Empty {
        winner := OutcomeOf(w);
        return;
      }
      if IsFull(grid[..]) {
        winner := Draw;
        return;
      }
      grid[pick] := O;
      w := ScanWinLines(grid);
      if w != Empty {
        winner := OutcomeOf(w);
      }
    }

    /** A click on the button of cell `idx`: nothing happens while the buttons are
        disabled, that is once the game has a result; otherwise the click handler runs.
        Real play stays consistent. */
    method PressCell(idx: Index, pick: Index)
      requires Valid() && PickOk(grid[..], idx, pick)
      modifies grid, this`winner
      ensures Valid() && grid == old(grid)
      ensures (grid[..], winner) == Press(old(grid[..]), old(winner), idx, pick)
      ensures old(Play.Consistent(grid[..], winner)) ==> Play.Consistent(grid[..], winner)
    {
      if Play.Consistent(grid[..], winner) {
        Play.PressPreservesConsistency(grid[..], winner, idx, pick);
      }
      if CellsDisabled(winner) {
        return;
      }
      ClickHandler(idx, pick);
    }
  }

  /** A client of the class: a restart in the middle of a game, after a first click in
      the centre, brings back the empty grid and no result. */
  method RestartMidGame() returns (board: Board, result: Outcome)
    ensures board == EmptyBoard() && result == InProgress
  {
    var game := new Game();
    assert game.grid[..][0] == Empty;
    game.PressCell(4, 0);
    assert game.grid[4] == X && game.winner == InProgress;
    game.Restart();
    board, result := game.grid[..], game.winner;
  }
}
