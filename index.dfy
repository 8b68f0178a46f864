/**
 * The game controller of src/index.tsx: the `Game` component's state
 * (`history`, `move`, `xIsNext`), the empty starting snapshot, the two click
 * handlers that change the state, and the coordinate helper used by the move list.
 */
module Index {
  import opened Wrappers
  import opened Interface
  import opened Rules

  /** The snapshot a game starts from: nine empty cells and no cell played yet. */
  function CreateInitialSquaresObject(): (s: SquaresObject)
    ensures |s.squares| == Size && s.squareIndex == -1
    ensures Count(s.squares, None) == Size
    ensures Count(s.squares, Some(X)) == 0 && Count(s.squares, Some(O)) == 0
    ensures ValidHistory([s])
  {
    var squares := seq<Cell>(Size, _ => None);
    CountEmpty(squares);
    SquaresObject(squares, -1)
  }

  /** JavaScript's `%` on integers: the remainder takes the sign of the dividend. */
  function JsRemainder(a: int, b: int): int
    requires b > 0
  {
    if a >= 0 then a % b else -((-a) % b)
  }

  /**
   * The row (`x`) and column (`y`) of a cell index, as `Math.floor(index / 3)`
   * and `index % 3`. For a cell of the board they are the unique row-major
   * coordinates of that cell.
   */
  function GetLocationXY(index: int): (r: LocationXY)
    ensures 0 <= index ==> r.x * 3 + r.y == index && 0 <= r.y < 3 && 0 <= r.x
    ensures 0 <= index < Size ==> r.x < 3
    ensures index < 0 ==> r.x < 0 && -3 < r.y <= 0
  {
    LocationXY(index / 3, JsRemainder(index, 3))
  }

  class Game {
    /** The winner detector imported from calculateWinner, which is not part of this model. */
    const calculateWinner: seq<Cell> -> Option<Mark>
    /** Every snapshot of the current timeline; `history[0]` is the empty board. */
    var history: seq<SquaresObject>
    /** The index of the snapshot on display. */
    var move: nat
    /** Whether X plays the next move. */
    var xIsNext: bool

    /** The state the game keeps: a history of legal moves, a pointer into it, and the turn flag matching the pointer. */
    ghost predicate Valid()
      reads this
    {
      ValidHistory(history) &&
      history[0] == CreateInitialSquaresObject() &&
      move < |history| &&
      xIsNext == (move % 2 == 0)
    }

    /** A new game: only the empty board, shown, with X to move. */
    constructor (calculateWinner: seq<Cell> -> Option<Mark>)
      ensures Valid()
      ensures this.calculateWinner == calculateWinner
      ensures history == [CreateInitialSquaresObject()] && move == 0 && xIsNext
    {
      this.calculateWinner := calculateWinner;
      history := [CreateInitialSquaresObject()];
      move := 0;
      xIsNext := true;
    }

    /**
     * The snapshot on display. It holds exactly `move` marks, and X is ahead of O
     * by one mark exactly when it is O's turn.
     */
    function Current(): (s: SquaresObject)
      reads this
      requires Valid()
      ensures |s.squares| == Size
      ensures Count(s.squares, None) == Size - move
      ensures Count(s.squares, Some(X)) == Count(s.squares, Some(O)) + (if xIsNext then 0 else 1)
    {
      HistoryCounts(history, move);
      history[move]
    }

    /**
     * The coordinates shown beside history entry `k` of the move list: the row and
     * column of the cell that the move producing snapshot `k` filled.
     */
    function MoveLocation(k: nat): (r: LocationXY)
      reads this
      requires Valid()
      requires 0 < k < |history|
      ensures 0 <= r.x < 3 && 0 <= r.y < 3
      ensures r.x * 3 + r.y == history[k].squareIndex < |history[k - 1].squares|
      ensures history[k - 1].squares[r.x * 3 + r.y] == None
      ensures history[k].squares[r.x * 3 + r.y] == Some(TurnMark(k - 1))
    {
      HistoryCounts(history, k - 1);
      GetLocationXY(history[k].squareIndex)
    }

    /**
     * A click on cell `i`. It is ignored when the board on display already has a
     * winner or cell `i` is taken. Otherwise the history is cut back to the board
     * on display, the board with the current player's mark in cell `i` is appended,
     * the pointer moves to it and the turn passes.
     */
    method HandleClick(i: int)
      requires Valid()
      requires 0 <= i < Size
      modifies this
      ensures Valid()
      ensures old(calculateWinner(Current().squares) != None || Current().squares[i] != None) ==>
                history == old(history) && move == old(move) && xIsNext == old(xIsNext)
      ensures old(calculateWinner(Current().squares) == None && Current().squares[i] == None) ==>
                |history| == old(move) + 2 &&
                history[..|history| - 1] == old(history[..move + 1]) &&
                history[|history| - 1] ==
                  SquaresObject(old(Current().squares)[i := Some(if old(xIsNext) then X else O)], i) &&
                move == old(move) + 1 == |history| - 1 &&
                xIsNext == !old(xIsNext)
    {
      var changedHistory := history[..move + 1];
      var current := changedHistory[|changedHistory| - 1];
      var squares := new Cell[|current.squares|](j requires 0 <= j < |current.squares| => current.squares[j]);
      assert squares[..] == current.squares;
      HistoryCounts(history, move);

      if calculateWinner(squares[..]) != None || squares[i] != None {
        return;
      }

      squares[i] := if xIsNext then Some(X) else Some(O);
      var next := SquaresObject(squares[..], i);
      assert next.squares == current.squares[i := Some(TurnMark(move))];
      HistoryPrefix(history, move + 1);
      HistoryAppend(changedHistory, next);
      history := changedHistory + [next];
      move := |changedHistory|;
      xIsNext := !xIsNext;
    }

    /**
     * A click on entry `step` of the move list: the pointer moves there and the turn
     * flag follows its parity; the history is kept whole, so later entries stay reachable.
     */
    method HandleJumpHistoryClick(step: int)
      requires Valid()
      requires 0 <= step < |history|
      modifies this
      ensures Valid()
      ensures history == old(history)
      ensures move == step && xIsNext == (step % 2 == 0)
      ensures step == 0 ==> Current() == CreateInitialSquaresObject() && xIsNext
    {
      move := step;
      xIsNext := (step % 2) == 0;
    }
  }
}
