/**
 * The rules a history of snapshots obeys: how many cells hold a given value,
 * which mark moves on which turn, what one accepted move does to a board,
 * and what a history built from the empty board by accepted moves looks like.
 * The game controller in index.dfy is proved to keep its history inside these rules.
 */
module Rules {
  import opened Wrappers
  import opened Interface

  /** The number of cells of the board (`Array(9)`). */
  const Size: nat := 9

  /** How many cells of `cells` hold `c`. */
  function Count(cells: seq<Cell>, c: Cell): nat
  {
    if cells == [] then 0
    else (if cells[0] == c then 1 else 0) + Count(cells[1..], c)
  }

  /** The mark written by the move made while snapshot `k` is current: X moves first. */
  function TurnMark(k: nat): Mark
  {
    if k % 2 == 0 then X else O
  }

  /**
   * `next` arises from `prev` by writing `m` into one empty cell, and records
   * that cell as its `squareIndex`.
   */
  ghost predicate IsMove(prev: SquaresObject, next: SquaresObject, m: Mark)
  {
    0 <= next.squareIndex < |prev.squares| &&
    prev.squares[next.squareIndex] == None &&
    next.squares == prev.squares[next.squareIndex := Some(m)]
  }

  /**
   * A history as the game builds it: it starts from an empty board of `Size`
   * cells and every later snapshot is one move on the snapshot before it,
   * with X and O taking turns.
   */
  ghost predicate ValidHistory(h: seq<SquaresObject>)
  {
    |h| > 0 &&
    |h[0].squares| == Size &&
    (forall j :: 0 <= j < Size ==> h[0].squares[j] == None) &&
    forall k :: 0 < k < |h| ==> IsMove(h[k - 1], h[k], TurnMark(k - 1))
  }

  /** Writing `v` into cell `i` moves at most one cell into or out of the count of `c`. */
  lemma {:induction false} CountUpdate(cells: seq<Cell>, i: int, v: Cell, c: Cell)
    requires 0 <= i < |cells|
    ensures Count(cells[i := v], c) ==
            Count(cells, c) - (if cells[i] == c then 1 else 0) + (if v == c then 1 else 0)
  {
    if i == 0 {
      assert cells[i := v][1..] == cells[1..];
    } else {
      assert cells[i := v][1..] == cells[1..][i - 1 := v];
      CountUpdate(cells[1..], i - 1, v, c);
    }
  }

  /** On a board with no marks, every cell is counted as empty and none as X or O. */
  lemma {:induction false} CountEmpty(cells: seq<Cell>)
    requires forall j :: 0 <= j < |cells| ==> cells[j] == None
    ensures Count(cells, None) == |cells|
    ensures Count(cells, Some(X)) == 0 && Count(cells, Some(O)) == 0
  {
    if cells != [] {
      CountEmpty(cells[1..]);
    }
  }

  /** A move turns exactly one empty cell into a cell holding the mark played. */
  lemma MoveCounts(prev: SquaresObject, next: SquaresObject, m: Mark)
    requires IsMove(prev, next, m)
    ensures |next.squares| == |prev.squares|
    ensures Count(next.squares, None) == Count(prev.squares, None) - 1
    ensures Count(next.squares, Some(m)) == Count(prev.squares, Some(m)) + 1
    ensures forall m' :: m' != m ==> Count(next.squares, Some(m')) == Count(prev.squares, Some(m'))
  {
    var i := next.squareIndex;
    CountUpdate(prev.squares, i, Some(m), None);
    CountUpdate(prev.squares, i, Some(m), Some(m));
    forall m' | m' != m
      ensures Count(next.squares, Some(m')) == Count(prev.squares, Some(m'))
    {
      CountUpdate(prev.squares, i, Some(m), Some(m'));
    }
  }

  /**
   * Snapshot `k` of a valid history holds exactly `k` marks, X has as many
   * marks as O or one more, and one more exactly when `k` is odd.
   */
  lemma {:induction false} HistoryCounts(h: seq<SquaresObject>, k: nat)
    requires ValidHistory(h)
    requires k < |h|
    ensures |h[k].squares| == Size
    ensures k <= Size
    ensures Count(h[k].squares, None) == Size - k
    ensures Count(h[k].squares, Some(X)) == Count(h[k].squares, Some(O)) + k % 2
  {
    if k == 0 {
      CountEmpty(h[0].squares);
    } else {
      HistoryCounts(h, k - 1);
      MoveCounts(h[k - 1], h[k], TurnMark(k - 1));
    }
  }

  /**
   * A valid history never holds more snapshots than the empty board plus one per cell.
   * A consequence of `HistoryCounts`; the controller does not rely on it.
   */
  lemma HistoryLength(h: seq<SquaresObject>)
    requires ValidHistory(h)
    ensures |h| <= Size + 1
  {
    HistoryCounts(h, |h| - 1);
  }

  /** Cutting a valid history back to a non-empty prefix leaves a valid history. */
  lemma HistoryPrefix(h: seq<SquaresObject>, n: nat)
    requires ValidHistory(h)
    requires 0 < n <= |h|
    ensures ValidHistory(h[..n])
  {
  }

  /** Appending a move by the mark whose turn it is to a valid history keeps it valid. */
  lemma HistoryAppend(h: seq<SquaresObject>, next: SquaresObject)
    requires ValidHistory(h)
    requires IsMove(h[|h| - 1], next, TurnMark(|h| - 1))
    ensures ValidHistory(h + [next])
  {
  }
}
