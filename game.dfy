// The game session: the per-cell button state (text and disabled flag), the
// status message, the mine display toggle and the countdown, and the event
// handlers that change them.

module Game {
  import opened Grids
  import opened Board

  /** Seconds a game may last before the countdown ends it. */
  const TimeLimit: nat := 100

  /** What a cell's button shows: nothing, a flag, a mine, or a count. */
  datatype Label = Blank | Flag | MineMark | Number(n: nat)

  /** The state of one cell's button. */
  datatype Button = Button(text: Label, disabled: bool)

  /** The status line under the timer. */
  datatype Message = NoMessage | GameOverMsg | Congratulations | MissedMines

  /** What invoked a reveal: the button's own command (a primary click), or
      a bound mouse event carrying its button number. */
  datatype Event = Command | Click(num: int)

  predicate IsDisabled(b: Button) { b.disabled }

  predicate IsFlagged(b: Button) { b.text == Flag }

  /** A right click on a button: on an enabled button a blank becomes a flag
      and a flag becomes a blank; any other text stays. A disabled button
      does not change. */
  function Toggled(b: Button): Button
  {
    if b.disabled then b
    else if b.text == Blank then b.(text := Flag)
    else if b.text == Flag then b.(text := Blank)
    else b
  }

  /** Toggling twice gives back the button, and toggling never changes whether
      it is disabled or any text other than a blank or a flag. */
  lemma ToggleTwice(b: Button)
    ensures Toggled(Toggled(b)) == b
    ensures Toggled(b).disabled == b.disabled
    ensures b.text != Blank && b.text != Flag ==> Toggled(b) == b
    ensures b.disabled ==> Toggled(b) == b
  {
  }

  /** A button over a cell once the mines are shown (`shown`) or hidden:
      only buttons over mines change, and only their text. */
  function MineShown(b: Button, c: Cell, shown: bool): Button
  {
    if c == Mine then b.(text := if shown then MineMark else Blank) else b
  }

  /** The message the end-of-game check shows for `revealed` disabled cells
      and `flagged` flagged cells out of `total`. */
  function Verdict(revealed: nat, flagged: nat, total: nat, numMines: nat): Message
  {
    if revealed + flagged == total then
      if flagged == numMines then Congratulations else MissedMines
    else NoMessage
  }

  /** "Missed mines" comes from a misplaced flag: when every mine carries an
      enabled flag, every safe cell is either revealed or flagged but not
      both, and some safe cell `(r, c)` is flagged, the check reports that
      mines were missed. */
  lemma {:induction false} MisplacedFlagMisses(cells: seq<seq<Button>>, ms: seq<int>, rows: nat, cols: nat, r: nat, c: nat)
    requires IsSample(ms, rows * cols) && IsRect(cells, rows, cols) && r < rows && c < cols
    requires forall i, j :: 0 <= i < rows && 0 <= j < cols ==>
      if Layout(rows, cols, ms)[i][j] == Mine then cells[i][j] == Button(Flag, false)
      else cells[i][j].disabled != (cells[i][j].text == Flag)
    requires Layout(rows, cols, ms)[r][c] != Mine && cells[r][c].text == Flag
    ensures GridCountIf(cells, IsFlagged) > |ms|
    ensures Verdict(GridCountIf(cells, IsDisabled), GridCountIf(cells, IsFlagged), rows * cols, |ms|)
            == MissedMines
  {
    var g := Layout(rows, cols, ms);
    GridCountComplement(cells, cols, IsDisabled, IsFlagged);
    GridCountMore(g, cells, IsMineCell, IsFlagged, r, c);
    LayoutMineCount(ms, rows, cols);
  }

  /** A button that has been dealt with: revealed (disabled) or flagged. */
  predicate IsResolved(b: Button) { b.disabled || b.text == Flag }

  predicate IsUntouched(b: Button) { !IsResolved(b) }

  /** While some button is neither revealed nor flagged, the end-of-game
      check gives no verdict, provided no disabled button shows a flag. So
      a misplaced flag with one mine left untouched clears the message
      rather than reporting missed mines, whatever the board. */
  lemma UntouchedCellClears(cells: seq<seq<Button>>, rows: nat, cols: nat, n: nat, r: nat, c: nat)
    requires IsRect(cells, rows, cols) && r < rows && c < cols
    requires !cells[r][c].disabled && cells[r][c].text != Flag
    requires forall i, j :: 0 <= i < rows && 0 <= j < cols ==> !(cells[i][j].disabled && cells[i][j].text == Flag)
    ensures GridCountIf(cells, IsDisabled) + GridCountIf(cells, IsFlagged) < rows * cols
    ensures Verdict(GridCountIf(cells, IsDisabled), GridCountIf(cells, IsFlagged), rows * cols, n) == NoMessage
  {
    GridCountSplit(cells, IsDisabled, IsFlagged, IsResolved);
    GridCountComplement(cells, cols, IsResolved, IsUntouched);
    GridCountPos(cells, IsUntouched, r, c);
  }

  /** Seconds left after `elapsed` seconds, never below zero. */
  function Remaining(elapsed: nat): (r: nat)
    ensures r <= TimeLimit
    ensures r == 0 <==> elapsed >= TimeLimit
    ensures r + elapsed >= TimeLimit && (r > 0 ==> r + elapsed == TimeLimit)
  {
    var left := TimeLimit - elapsed;
    if left > 0 then left else 0
  }

  /** When every mine cell carries an enabled flag and every other cell has
      been revealed (disabled, showing its count), the end-of-game check
      congratulates. */
  lemma AllResolvedWins(cells: seq<seq<Button>>, ms: seq<int>, rows: nat, cols: nat)
    requires IsSample(ms, rows * cols) && IsRect(cells, rows, cols)
    requires forall i, j :: 0 <= i < rows && 0 <= j < cols ==>
      if Layout(rows, cols, ms)[i][j] == Mine then cells[i][j] == Button(Flag, false)
      else cells[i][j].disabled && cells[i][j].text != Flag
    ensures GridCountIf(cells, IsFlagged) == |ms|
    ensures Verdict(GridCountIf(cells, IsDisabled), GridCountIf(cells, IsFlagged), rows * cols, |ms|)
            == Congratulations
  {
    var g := Layout(rows, cols, ms);
    GridCountComplement(cells, cols, IsDisabled, IsFlagged);
    GridCountAgree(cells, g, IsFlagged, IsMineCell);
    LayoutMineCount(ms, rows, cols);
  }

  /** The fixed configuration the game starts with. */
  const DefaultRows: nat := 8
  const DefaultCols: nat := 8
  const DefaultMines: nat := 10

  /** Starts the game in its fixed configuration: an 8 by 8 board with 10
      mines at the sampled indices. */
  method NewGame(sample: seq<int>) returns (s: Session)
    requires |sample| == DefaultMines && IsSample(sample, DefaultRows * DefaultCols)
    ensures fresh(s) && s.Valid()
    ensures s.rows == DefaultRows && s.cols == DefaultCols && s.numMines == DefaultMines
    ensures s.mines == sample && GridCountIf(Snapshot(s.board), IsMineCell) == DefaultMines
    ensures forall i, j :: 0 <= i < DefaultRows && 0 <= j < DefaultCols ==> s.buttons[i, j] == Button(Blank, false)
    ensures !s.answersRevealed && s.message == NoMessage && s.timeShown == TimeLimit
  {
    s := new Session(DefaultRows, DefaultCols, DefaultMines, sample);
    LayoutMineCount(sample, DefaultRows, DefaultCols);
  }

  class Session {
    const rows: nat
    const cols: nat
    const numMines: nat

    /** The hidden board, and the button over each of its cells. */
    var board: array2<Cell>
    var buttons: array2<Button>

    /** Whether the mines are currently shown by the reveal button. */
    var answersRevealed: bool
    var message: Message
    /** The seconds left, as the timer label last showed them. */
    var timeShown: nat

    /** The sampled mine indices the current board was generated from. */
    ghost var mines: seq<int>

    ghost predicate Valid()
      reads this`board, this`buttons, this`mines, board
    {
      && board.Length0 == rows && board.Length1 == cols
      && buttons.Length0 == rows && buttons.Length1 == cols
      && |mines| == numMines && IsSample(mines, rows * cols)
      && Snapshot(board) == Layout(rows, cols, mines)
    }

    ghost function Cells(): seq<seq<Button>>
      reads this`buttons, buttons
    {
      Snapshot(buttons)
    }

    /** The message the end-of-game check gives for the buttons as they are:
        decided by how many are disabled and how many show a flag. */
    ghost function Outcome(): Message
      reads this`buttons, buttons
    {
      Verdict(GridCountIf(Cells(), IsDisabled), GridCountIf(Cells(), IsFlagged), rows * cols, numMines)
    }

    /** A new game: a fresh board from the sampled mine indices, every button
        blank and enabled, the mines hidden and the full time on the clock. */
    constructor (rows: nat, cols: nat, numMines: nat, sample: seq<int>)
      requires |sample| == numMines && IsSample(sample, rows * cols)
      ensures Valid() && fresh(board) && fresh(buttons)
      ensures this.rows == rows && this.cols == cols && this.numMines == numMines
      ensures mines == sample
      ensures forall i, j :: 0 <= i < rows && 0 <= j < cols ==> buttons[i, j] == Button(Blank, false)
      ensures !answersRevealed && message == NoMessage && timeShown == TimeLimit
    {
      var cells := new Button[rows, cols]((i, j) => Button(Blank, false));
      var placed := PlaceMines(rows, cols, sample);
      this.rows, this.cols, this.numMines := rows, cols, numMines;
      buttons, board, mines := cells, placed, sample;
      answersRevealed := false;
      message := NoMessage;
      timeShown := Remaining(0);
    }

    /** Starts a new game on a fresh board: new blank enabled buttons, the
        clock back at the full time and the message cleared. Whether the
        mines count as shown is carried over. */
    method Reset(sample: seq<int>)
      requires Valid()
      requires |sample| == numMines && IsSample(sample, rows * cols)
      modifies this
      ensures Valid() && fresh(board) && fresh(buttons) && mines == sample
      ensures forall i, j :: 0 <= i < rows && 0 <= j < cols ==> buttons[i, j] == Button(Blank, false)
      ensures message == NoMessage && timeShown == TimeLimit
      ensures answersRevealed == old(answersRevealed)
    {
      var cells := new Button[rows, cols]((i, j) => Button(Blank, false));
      var placed := PlaceMines(rows, cols, sample);
      buttons, board, mines := cells, placed, sample;
      timeShown := Remaining(0);
      message := NoMessage;
    }

    /** Disables every button and shows the game-over message. */
    method GameOver()
      requires Valid()
      modifies buttons, this`message
      ensures Valid()
      ensures forall i, j :: 0 <= i < rows && 0 <= j < cols ==>
        buttons[i, j] == old(buttons[i, j]).(disabled := true)
      ensures message == GameOverMsg
    {
      for i := 0 to rows
        invariant forall r, c :: 0 <= r < rows && 0 <= c < cols ==>
          buttons[r, c] == if r < i then old(buttons[r, c]).(disabled := true) else old(buttons[r, c])
      {
        for j := 0 to cols
          invariant forall r, c :: 0 <= r < rows && 0 <= c < cols ==>
            buttons[r, c] == if r < i || (r == i && c < j) then old(buttons[r, c]).(disabled := true)
                             else old(buttons[r, c])
        {
          buttons[i, j] := buttons[i, j].(disabled := true);
        }
      }
      message := GameOverMsg;
    }

    /** Counts the disabled buttons and the buttons showing a flag. */
    method Tally() returns (revealed: nat, flagged: nat)
      ensures revealed == GridCountIf(Cells(), IsDisabled)
      ensures flagged == GridCountIf(Cells(), IsFlagged)
    {
      ghost var g := Cells();
      revealed, flagged := 0, 0;
      for i := 0 to buttons.Length0
        invariant revealed == GridCountIf(g[..i], IsDisabled)
        invariant flagged == GridCountIf(g[..i], IsFlagged)
      {
        for j := 0 to buttons.Length1
          invariant revealed == GridCountIf(g[..i], IsDisabled) + CountIf(g[i][..j], IsDisabled)
          invariant flagged == GridCountIf(g[..i], IsFlagged) + CountIf(g[i][..j], IsFlagged)
        {
          assert g[i][..j + 1][..j] == g[i][..j];
          if buttons[i, j].disabled {
            revealed := revealed + 1;
          }
          if buttons[i, j].text == Flag {
            flagged := flagged + 1;
          }
        }
        assert g[i][..buttons.Length1] == g[i];
        assert g[..i + 1][..i] == g[..i];
      }
      assert g[..buttons.Length0] == g;
    }

    /** The end-of-game check: leaves every button as it is and sets the
        message from the number of disabled and flagged buttons. */
    method CheckGameOver()
      requires Valid()
      modifies this`message
      ensures Valid()
      ensures message == Outcome()
    {
      var revealed, flagged := Tally();
      var total := rows * cols;
      if revealed + flagged == total {
        if flagged == numMines {
          message := Congratulations;
        } else {
          message := MissedMines;
        }
      } else {
        message := NoMessage;
      }
    }

    /** Reveals cell `(row, col)`. A middle click does nothing. A mine is shown
        and ends the game; any other cell shows its count, is disabled, and the
        end-of-game check runs. The button's own command only fires while the
        button is enabled. */
    method RevealCell(row: int, col: int, event: Event)
      requires Valid() && 0 <= row < rows && 0 <= col < cols
      requires event == Command ==> !buttons[row, col].disabled
      modifies buttons, this`message
      ensures Valid()
      ensures event == Click(2) ==> unchanged(buttons) && message == old(message)
      ensures event != Click(2) && board[row, col] == Mine ==>
        && buttons[row, col] == Button(MineMark, true)
        && (forall i, j :: 0 <= i < rows && 0 <= j < cols && (i, j) != (row, col) ==>
              buttons[i, j] == old(buttons[i, j]).(disabled := true))
        && message == GameOverMsg
      ensures event != Click(2) && board[row, col] != Mine ==>
        && buttons[row, col] == Button(Number(board[row, col].n), true)
        && board[row, col].n == MinesAround(Snapshot(board), row, col)
        && (forall i, j :: 0 <= i < rows && 0 <= j < cols && (i, j) != (row, col) ==>
              buttons[i, j] == old(buttons[i, j]))
        && message == Outcome()
    {
      if event.Click? && event.num == 2 {
        return;
      }
      if board[row, col] == Mine {
        buttons[row, col] := buttons[row, col].(text := MineMark);
        GameOver();
      } else {
        var count := board[row, col].n;
        assert count == MinesAround(Snapshot(board), row, col) by {
          LayoutCounts(mines, rows, cols, row, col);
        }
        buttons[row, col] := buttons[row, col].(text := Number(count));
        buttons[row, col] := buttons[row, col].(disabled := true);
        CheckGameOver();
      }
    }

    /** A right click on cell `(row, col)`: on an enabled button toggles the
        flag and runs the end-of-game check; on a disabled one does nothing. */
    method ToggleFlag(row: int, col: int)
      requires Valid() && 0 <= row < rows && 0 <= col < cols
      modifies buttons, this`message
      ensures Valid()
      ensures buttons[row, col] == Toggled(old(buttons[row, col]))
      ensures forall i, j :: 0 <= i < rows && 0 <= j < cols && (i, j) != (row, col) ==>
        buttons[i, j] == old(buttons[i, j])
      ensures old(buttons[row, col]).disabled ==> message == old(message)
      ensures !old(buttons[row, col]).disabled ==>
        message == Outcome()
    {
      if !buttons[row, col].disabled {
        var current := buttons[row, col].text;
        if current == Blank {
          buttons[row, col] := buttons[row, col].(text := Flag);
        } else if current == Flag {
          buttons[row, col] := buttons[row, col].(text := Blank);
        }
        // Any other text stays: the program only drops the flag image and
        // recolours the text, neither of which is modelled.
        CheckGameOver();
      }
    }

    /** Sets the text of every button over a mine to `mark`. */
    method MarkMines(mark: Label)
      requires Valid()
      modifies buttons
      ensures Valid()
      ensures forall i, j :: 0 <= i < rows && 0 <= j < cols ==>
        buttons[i, j] == if board[i, j] == Mine then old(buttons[i, j]).(text := mark) else old(buttons[i, j])
    {
      for i := 0 to rows
        invariant forall r, c :: 0 <= r < rows && 0 <= c < cols ==>
          buttons[r, c] == if r < i && board[r, c] == Mine then old(buttons[r, c]).(text := mark)
                           else old(buttons[r, c])
      {
        for j := 0 to cols
          invariant forall r, c :: 0 <= r < rows && 0 <= c < cols ==>
            buttons[r, c] == if (r < i || (r == i && c < j)) && board[r, c] == Mine
                             then old(buttons[r, c]).(text := mark) else old(buttons[r, c])
        {
          if board[i, j] == Mine {
            buttons[i, j] := buttons[i, j].(text := mark);
          }
        }
      }
    }

    /** The reveal button: shows the mines if they are hidden and hides them
        if they are shown. Only the text of buttons over mines changes. */
    method RevealAllAnswers()
      requires Valid()
      modifies buttons, this`answersRevealed
      ensures Valid()
      ensures answersRevealed == !old(answersRevealed)
      ensures forall i, j :: 0 <= i < rows && 0 <= j < cols ==>
        buttons[i, j] == MineShown(old(buttons[i, j]), board[i, j], answersRevealed)
    {
      if !answersRevealed {
        MarkMines(MineMark);
      } else {
        MarkMines(Blank);
      }
      answersRevealed := !answersRevealed;
    }

    /** One timer tick, `elapsed` whole seconds after the game started: shows
        the seconds left and either ends the game (when none are left) or asks
        to be called again. */
    method Tick(elapsed: nat) returns (reschedule: bool)
      requires Valid()
      modifies buttons, this`message, this`timeShown
      ensures Valid()
      ensures timeShown == Remaining(elapsed)
      ensures reschedule <==> elapsed < TimeLimit
      ensures reschedule ==> unchanged(buttons) && message == old(message)
      ensures !reschedule ==>
        && (forall i, j :: 0 <= i < rows && 0 <= j < cols ==> buttons[i, j] == old(buttons[i, j]).(disabled := true))
        && message == GameOverMsg
    {
      timeShown := Remaining(elapsed);
      if timeShown <= 0 {
        GameOver();
        reschedule := false;
      } else {
        reschedule := true;
      }
    }
  }
}
