/** The tic-tac-toe board the search plays on, together with the cell and
    status codes the whole program shares.

    A board is nine integer cells in row-major order. A cell holds `Empty`
    or the number of the player who marked it; no operation checks what is
    written, so any integer may appear in a cell.
 */
module TicTacToe {

  /* Cell and status codes. `O` and `X` double as player numbers and as the
     "won by" status; `InProgress` and `Draw` are statuses only. */
  const Empty: int := -1
  const O: int := 0
  const X: int := 1
  const InProgress: int := 2
  const Draw: int := -2

  /** A cell index of the 3x3 board. */
  type Cell = i: int | 0 <= i < 9

  /** A board always has exactly nine cells. */
  type Board = b: seq<int> | |b| == 9 witness [-1, -1, -1, -1, -1, -1, -1, -1, -1]

  predicate IsPlayer(p: int) {
    p == O || p == X
  }

  /** Go's `p ^ 1` on a two's-complement integer: only the lowest bit flips.
      On the two players it swaps O and X. */
  function Flip(p: int): (q: int)
    ensures p == O ==> q == X
    ensures p == X ==> q == O
  {
    if p % 2 == 0 then p + 1 else p - 1
  }

  /** Flipping changes only the lowest bit: the halves agree and the
      parities differ. */
  lemma FlipLowBit(p: int)
    ensures Flip(p) / 2 == p / 2
    ensures Flip(p) % 2 == 1 - p % 2
  {
  }

  lemma FlipInvolution(p: int)
    ensures Flip(Flip(p)) == p
    ensures IsPlayer(p) <==> IsPlayer(Flip(p))
  {
  }

  /* ---------------------------------------------------------------- lines */

  datatype Line = Line(a: Cell, b: Cell, c: Cell)

  /** The three rows, three columns and two diagonals, in the program's order. */
  const WinningLines: seq<Line> := [
    Line(0, 1, 2), Line(3, 4, 5), Line(6, 7, 8),
    Line(0, 3, 6), Line(1, 4, 7), Line(2, 5, 8),
    Line(0, 4, 8), Line(2, 4, 6)
  ]

  /** All three cells of `line` hold `p`. */
  predicate Owns(b: Board, line: Line, p: int) {
    b[line.a] == p && b[line.b] == p && b[line.c] == p
  }

  /** Player `p` owns one of the eight winning lines. */
  ghost predicate HasLine(b: Board, p: int) {
    exists k :: 0 <= k < |WinningLines| && Owns(b, WinningLines[k], p)
  }

  /** How many cells of `line` hold `p` (the inner loop of the winner check). */
  function MarksOnLine(b: Board, line: Line, p: int): (n: nat)
    ensures n <= 3
    ensures n == 3 <==> Owns(b, line, p)
  {
    (if b[line.a] == p then 1 else 0)
    + (if b[line.b] == p then 1 else 0)
    + (if b[line.c] == p then 1 else 0)
  }

  /** The winner check's outer loop from line `k` on: true as soon as some
      line carries three marks of `p`. */
  function WinnerFrom(b: Board, p: int, k: nat): (won: bool)
    requires k <= |WinningLines|
    ensures won <==> exists j :: k <= j < |WinningLines| && Owns(b, WinningLines[j], p)
    decreases |WinningLines| - k
  {
    if k == |WinningLines| then false
    else if MarksOnLine(b, WinningLines[k], p) == 3 then true
    else WinnerFrom(b, p, k + 1)
  }

  function CheckWinner(b: Board, p: int): (won: bool)
    ensures won <==> HasLine(b, p)
  {
    WinnerFrom(b, p, 0)
  }

  /* ---------------------------------------------------------- empty cells */

  /** Some cell is still empty. */
  ghost predicate HasEmpty(b: Board) {
    exists i :: 0 <= i < 9 && b[i] == Empty
  }

  /** The empty cells at index `i` or later, in increasing order. */
  function EmptyFrom(b: Board, i: nat): (r: seq<Cell>)
    requires i <= 9
    ensures |r| <= 9 - i
    ensures forall k :: 0 <= k < |r| ==> i <= r[k] && b[r[k]] == Empty
    ensures forall k, l :: 0 <= k < l < |r| ==> r[k] < r[l]
    decreases 9 - i
  {
    if i == 9 then []
    else if b[i] == Empty then [i] + EmptyFrom(b, i + 1)
    else EmptyFrom(b, i + 1)
  }

  /** Every empty cell at index `i` or later is listed. */
  lemma {:induction false} EmptyFromComplete(b: Board, i: nat, j: Cell)
    requires i <= j && b[j] == Empty
    ensures j in EmptyFrom(b, i)
    decreases 9 - i
  {
    if i < j {
      EmptyFromComplete(b, i + 1, j);
    }
  }

  /** The legal moves: exactly the empty cells (listed in increasing order,
      see EmptyPlacesAscending). */
  function EmptyPlaces(b: Board): (r: seq<Cell>)
    ensures |r| <= 9
    ensures forall j {:trigger j in r} :: 0 <= j < 9 ==> (j in r <==> b[j] == Empty)
    ensures |r| == 0 <==> !HasEmpty(b)
  {
    var r := EmptyFrom(b, 0);
    assert forall j :: 0 <= j < 9 && b[j] == Empty ==> j in r by {
      forall j | 0 <= j < 9 && b[j] == Empty
        ensures j in r
      {
        EmptyFromComplete(b, 0, j);
      }
    }
    assert HasEmpty(b) ==> |r| > 0 by {
      if HasEmpty(b) {
        var j :| 0 <= j < 9 && b[j] == Empty;
        assert j in r;
      }
    }
    r
  }

  /** The legal moves are listed in strictly increasing cell order, so no
      cell is offered twice. */
  lemma EmptyPlacesAscending(b: Board)
    ensures forall k, l :: 0 <= k < l < |EmptyPlaces(b)| ==> EmptyPlaces(b)[k] < EmptyPlaces(b)[l]
  {
  }

  /* ----------------------------------------------------- board operations */

  function NewTicTacToeBoard(): (b: Board)
    ensures forall i :: 0 <= i < 9 ==> b[i] == Empty
  {
    [Empty, Empty, Empty, Empty, Empty, Empty, Empty, Empty, Empty]
  }

  /** A copy with the same contents. Boards are values here, so the copy
      shares nothing with the original by construction. */
  function Clone(b: Board): (c: Board)
    ensures forall i :: 0 <= i < 9 ==> c[i] == b[i]
  {
    b
  }

  /** Writes `p` into cell `m` without any legality check. */
  function PerformMove(b: Board, m: Cell, p: int): (r: Board)
    ensures r[m] == p
    ensures forall i :: 0 <= i < 9 && i != m ==> r[i] == b[i]
  {
    b[m := p]
  }

  /** `r` is `b` with the single empty cell `m` now holding `p`. */
  ghost predicate MovedAt(b: Board, r: Board, m: Cell, p: int) {
    && b[m] == Empty
    && r[m] == p
    && forall i :: 0 <= i < 9 && i != m ==> r[i] == b[i]
  }

  /** `r` is `b` after exactly one move by `p` into an empty cell. */
  ghost predicate OneMove(b: Board, r: Board, p: int) {
    exists m: Cell :: MovedAt(b, r, m, p)
  }

  /** Filling an empty cell with a mark removes exactly that cell from the
      empty cells at or after `i`. */
  lemma {:induction false} FillEmptyFrom(b: Board, m: Cell, p: int, i: nat)
    requires i <= 9
    requires b[m] == Empty && p != Empty
    ensures |EmptyFrom(PerformMove(b, m, p), i)| == |EmptyFrom(b, i)| - (if i <= m then 1 else 0)
    decreases 9 - i
  {
    if i < 9 {
      FillEmptyFrom(b, m, p, i + 1);
    }
  }

  /** A move into an empty cell shortens the list of legal moves by one. */
  lemma FillEmpty(b: Board, m: Cell, p: int)
    requires b[m] == Empty && p != Empty
    ensures |EmptyPlaces(PerformMove(b, m, p))| == |EmptyPlaces(b)| - 1
  {
    FillEmptyFrom(b, m, p, 0);
  }

  /** The status, checked in this order: a full board is a draw whatever
      lines it holds; then a line of O wins before a line of X. */
  function CheckStatus(b: Board): (s: int)
    ensures s == Draw <==> !HasEmpty(b)
    ensures s == O <==> HasEmpty(b) && HasLine(b, O)
    ensures s == X <==> HasEmpty(b) && !HasLine(b, O) && HasLine(b, X)
    ensures s == InProgress <==> HasEmpty(b) && !HasLine(b, O) && !HasLine(b, X)
    ensures s != Empty
  {
    if |EmptyPlaces(b)| == 0 then Draw
    else if CheckWinner(b, O) then O
    else if CheckWinner(b, X) then X
    else InProgress
  }

  /** Player `p` marks the empty cell `EmptyPlaces(b)[pick]`; with no empty
      cell the board is returned unchanged. `pick` stands for the random
      index drawn below the number of moves. */
  function RandomPlay(b: Board, p: int, pick: nat): (r: Board)
    requires HasEmpty(b) ==> pick < |EmptyPlaces(b)|
    ensures !HasEmpty(b) ==> r == b
    ensures HasEmpty(b) ==> MovedAt(b, r, EmptyPlaces(b)[pick], p)
    ensures HasEmpty(b) && p != Empty ==> |EmptyPlaces(r)| == |EmptyPlaces(b)| - 1
  {
    var moves := EmptyPlaces(b);
    if |moves| == 0 then b
    else
      var m := moves[pick];
      assert b[m] == Empty;
      var r := PerformMove(b, m, p);
      assert MovedAt(b, r, m, p);
      if p != Empty then FillEmpty(b, m, p); r else r
  }

  /* ------------------------------------------------------------ lemmas */

  /** The nine cells in order. */
  const AllCells: seq<Cell> := [0, 1, 2, 3, 4, 5, 6, 7, 8]

  /** On a board with no marks, every cell from `i` on is a move. */
  lemma {:induction false} AllEmptyFrom(b: Board, i: nat)
    requires i <= 9
    requires forall j :: 0 <= j < 9 ==> b[j] == Empty
    ensures EmptyFrom(b, i) == AllCells[i..]
    decreases 9 - i
  {
    if i < 9 {
      AllEmptyFrom(b, i + 1);
      assert AllCells[i..] == [AllCells[i]] + AllCells[i + 1..];
    }
  }

  /** A new board offers every cell as a move, in cell order. */
  lemma NewBoardIsOpen()
    ensures EmptyPlaces(NewTicTacToeBoard()) == AllCells
  {
    AllEmptyFrom(NewTicTacToeBoard(), 0);
  }

  lemma NewBoardInProgress()
    ensures CheckStatus(NewTicTacToeBoard()) == InProgress
  {
    var b := NewTicTacToeBoard();
    assert b[0] == Empty;
    forall k | 0 <= k < |WinningLines|
      ensures !Owns(b, WinningLines[k], O) && !Owns(b, WinningLines[k], X)
    {
      assert b[WinningLines[k].a] == Empty;
    }
  }

  /** Moving on a copy leaves the original board as it was. */
  lemma CloneIsIndependent(b: Board, m: Cell, p: int)
    ensures forall i :: 0 <= i < 9 && i != m ==> PerformMove(Clone(b), m, p)[i] == b[i]
    ensures PerformMove(Clone(b), m, p)[m] == p
  {
  }

  /** A full board whose last mark completed X's diagonal still reports a
      draw: the emptiness test comes first. */
  lemma FullBoardWithLineIsDraw()
    ensures var b: Board := [X, O, X, O, X, O, O, X, X];
      HasLine(b, X) && CheckStatus(b) == Draw
  {
    var b: Board := [X, O, X, O, X, O, O, X, X];
    assert Owns(b, WinningLines[6], X);
  }

  /** The status the search acts on: the game goes on only while an empty
      cell is left, so a move is always available then. */
  lemma InProgressHasMove(b: Board)
    requires CheckStatus(b) == InProgress
    ensures |EmptyPlaces(b)| > 0
  {
  }
}
