# Monte Carlo tree search for tic-tac-toe, modelled in Dafny

This project models the core of a small Go program that plays tic-tac-toe
with Monte Carlo tree search (MCTS). It has four modules:

- `TicTacToe` (`tictactoe.dfy`) models the board. A board is nine integer
  cells, and `Empty = -1`, `O = 0`, `X = 1` share the code space with the
  statuses `InProgress = 2` and `Draw = -2`. The module covers:
  - the eight winning lines and the winner check;
  - the status check, with its priority: a full board is a draw even when a
    line is complete;
  - the list of empty cells;
  - placing a mark, cloning the board, and a random move.
- `StableSort` (`stable_sort.dfy`) models the stable descending sort. The
  program orders a node's children with it, once by UCT value and once by
  visit count. Entries pair a node index with the rank it is sorted by. A
  rank is either `Top`, the largest value (the `MaxFloat64` given to an
  unvisited child), or a finite real.
- `SearchTree` (`search_tree.dfy`) models the search tree as an arena. All
  nodes live in one sequence and the root is node 0. Parents and children
  are indices, and a parent always comes before its children. The module
  covers:
  - state and node construction and `NextState`;
  - child creation, expansion and `NewTree`;
  - the UCT value of a child, promising-node selection, and the final
    most-visited choice.
- `Mcts` (`mcts.dfy`) models the search itself:
  - backpropagation along the parent chain;
  - the random playout;
  - one iteration of the search loop and `FindNextMove`.

  The search keeps this invariant: after `k` iterations the root has `k`
  visits, and its children's visits sum to `k`.

Randomness is an input. Wherever the program calls `rand.Intn(n)`, the model
takes a number from the caller:
- `RandomPlay` and `StateRandomPlay` take an index that must be below `n`;
- the playout and the search loop take unbounded numbers and reduce them
  modulo `n`.

Either way, every index the program could draw is reachable and no other is.
The UCT formula is a function parameter `uct(score, visits, parentVisits)`.
Beyond that parameter, the model keeps only the formula's one discrete
rule: an unvisited child ranks above every visited one. That rule holds only
while the parent has been visited. With an unvisited parent, the program
takes the logarithm of zero, and a visited child's value becomes NaN, which
the stable sort treats as equal to every other value. The model therefore
ranks a child only under a visited parent. The search meets this condition
at the root, whose visits always equal the sum of its children's
(`Mcts.RootVisitedFirst`).

## Program behaviour the model keeps

The model does what the program does in each of these cases, including
where the program's own comments and constructors suggest otherwise.

- **Children inherit the parent's player number and statistics.** The
  field comment on `State.PlayerNumber` (main.go:116) calls it "the last
  player who did an action", and `NewState` (main.go:121-126) starts a
  state with zero visits and zero score. A child state made for a move
  would then carry the mover's number and zero statistics. The program
  builds it differently:
  - `State.Clone` (main.go:128-135) copies the board, `PlayerNumber`,
    `VisitCount` and `Score`;
  - `State.NextState` (main.go:137-141) clones the state and writes the
    move for `parent ^ 1` on the board only.

  As a result:
  - a child created by `CreateChild` carries its parent's player number and
    statistics;
  - `State.RandomPlay` also keeps the player number;
  - every node of a search tree carries the root's player number (see
    `Mcts.SearchShape`);
  - the playout's first loop move is made by the same player as the move
    `State.RandomPlay` just made.

  Backpropagation credits a node when its player number equals the result,
  so during one search the score counts wins of the root's player, the
  opponent of the one being advised. In `FindNextMove` a root child is
  expanded while it is still unvisited, so there the copied statistics are
  zero.
- **Draw comes first.** `CheckStatus` reports a draw for a full board
  before it looks at any line. A completed line on the last move therefore
  reads as a draw (`TicTacToe.FullBoardWithLineIsDraw`).
- **Empty and non-player marks are not checked.** No operation checks what
  it writes. `PerformMove` overwrites occupied cells, and `Flip` is Go's
  `p ^ 1` on any integer, so it also maps `Empty` to `Draw`.

## Model

| member | source | states |
|---|---|---|
| TicTacToe.Flip | main.go:61 | the other player: O becomes X and X becomes O |
| TicTacToe.FlipLowBit | main.go:61 | `^ 1` changes only the lowest bit of any integer, including negative ones: the halves agree and the parity flips |
| TicTacToe.FlipInvolution | main.go:61 | flipping twice gives back the number, and a number is a player exactly when its flip is |
| TicTacToe.MarksOnLine | tictactoe.go:44-50 | the count of marks of `p` on one line is at most 3, and it is 3 exactly when `p` owns the line |
| TicTacToe.WinnerFrom | tictactoe.go:43-54 | the scan from line `k` on answers true exactly when some line at or after `k` is owned by `p` |
| TicTacToe.CheckWinner | tictactoe.go:41-55 | true exactly when `p` holds all three cells of one of the eight winning lines |
| TicTacToe.EmptyFrom | tictactoe.go:74-82 | lists only empty cells at or after `i`, in strictly increasing order |
| TicTacToe.EmptyFromComplete | tictactoe.go:74-82 | every empty cell at or after `i` is listed |
| TicTacToe.EmptyPlaces | tictactoe.go:74-82 | a cell is listed exactly when it is empty, at most 9 cells are listed, and the list is empty exactly when the board is full |
| TicTacToe.EmptyPlacesAscending | tictactoe.go:74-82 | the moves are listed in strictly increasing cell order, so no cell appears twice |
| TicTacToe.NewTicTacToeBoard | tictactoe.go:23-31 | all nine cells are empty |
| TicTacToe.NewBoardIsOpen | tictactoe.go:23-31 | a new board offers all nine cells as moves, in order 0 to 8 |
| TicTacToe.AllEmptyFrom | tictactoe.go:74-82 | on an unmarked board, the moves from `i` on are exactly the cells from `i` on |
| TicTacToe.Clone | tictactoe.go:33-39 | the copy has the same nine cells |
| TicTacToe.CloneIsIndependent | tictactoe.go:33-39 | a move on the copy makes the copy differ from the original in at most the moved cell |
| TicTacToe.PerformMove | tictactoe.go:70-72 | cell `m` holds `p` afterwards and every other cell is unchanged, whether or not `m` was empty |
| TicTacToe.FillEmptyFrom | tictactoe.go:70-82 | marking an empty cell removes exactly that cell from the empty cells at or after `i` |
| TicTacToe.FillEmpty | tictactoe.go:70-82 | marking an empty cell reduces the number of moves by exactly one |
| TicTacToe.CheckStatus | tictactoe.go:57-68 | `Draw` exactly when the board is full; otherwise `O` if O has a line, else `X` if X has a line, else `InProgress`; never `Empty` |
| TicTacToe.NewBoardInProgress | tictactoe.go:57-68 | a new board is in progress |
| TicTacToe.FullBoardWithLineIsDraw | tictactoe.go:57-60 | a full board on which X owns a diagonal is still a draw |
| TicTacToe.InProgressHasMove | tictactoe.go:57-68 | while the game is in progress there is at least one move |
| TicTacToe.RandomPlay | tictactoe.go:101-108 | a full board stays unchanged; otherwise exactly one previously empty cell, the drawn one, now holds `p`; and when `p` is not `Empty`, the number of moves drops by one |
| StableSort.AtLeastTransitive | main.go:72-74 | "not ranked strictly higher" is transitive, so the comparator is a strict weak order |
| StableSort.Insert | main.go:72-74 | inserting adds one entry, and the first entry is `x` unless the old first entry ranks strictly higher |
| StableSort.InsertPermutes | main.go:72-74 | insertion adds `x` and keeps every other entry |
| StableSort.InsertDescending | main.go:72-74 | insertion into a descending sequence keeps it descending |
| StableSort.InsertWithRank | main.go:72-74 | `x` lands before every entry of its own rank, and entries of other ranks keep their order |
| StableSort.SortStable | main.go:72-74 | the sort keeps every entry: its result is a permutation of the input |
| StableSort.SortStableDescending | main.go:72-74 | no entry ranks strictly higher than an entry before it |
| StableSort.SortStableKeepsTies | main.go:72-74 | the entries of each rank keep their original relative order (stability) |
| StableSort.SortStableItems | main.go:72-74 | the sorted node indices are a permutation of the original node indices |
| StableSort.FirstBest | main.go:72-75 | the chosen position holds a highest rank, and every earlier position ranks strictly lower |
| StableSort.SortStableHead | main.go:72-75 | the first entry after sorting is the earliest entry of highest rank |
| SearchTree.NewState | main.go:121-126 | a new state holds the given board and player number with zero visits and zero score |
| SearchTree.NextState | main.go:137-141 | the move is written for `p` on a copy of the board, while player number, visits and score are those of the original state |
| SearchTree.StateRandomPlay | main.go:143-150 | with no move left, the state itself; otherwise one empty cell, the drawn one, now holds the flipped player number, and player number and statistics are kept |
| SearchTree.NewNode | main.go:38-44 | a node with the given state and parent and no children |
| SearchTree.AddChild | main.go:46-48 | the child is appended after the existing children |
| SearchTree.AppendLeafValid | main.go:60-63 | adding a leaf under `n` and listing it last among `n`'s children keeps the tree valid: parents come first, and parent and child links agree |
| SearchTree.CreateChild | main.go:60-63 | exactly one node is added under `n`, for the move, played for the flipped player number, on a copy of `n`'s board; the tree stays valid and no other node changes |
| SearchTree.ExpandMoves | main.go:85-90 | one new child per move, in the order of the moves, appended after the existing children; the tree stays valid and no other node changes |
| SearchTree.ExpandNode | main.go:85-90 | one child per empty cell of the node's board, in cell order, appended after the children already there (so a second expansion lists every move twice); the node's own state is unchanged |
| SearchTree.NewTree | main.go:96-103 | a valid tree whose root has no parent, holds the board and player number with zero statistics, and has exactly one child per empty cell |
| SearchTree.FillUctValue | main.go:50-58 | a child ranks `Top` exactly when it is unvisited; a visited child ranks at the `uct` value of its score, its visits and its parent's visits; ranking a visited child needs a visited parent |
| SearchTree.ChildrenRankable | main.go:50-58 | under a node that was visited whenever one of its children was, every child of a valid tree can be ranked |
| SearchTree.UctEntries | main.go:68-70 | each child, in order, paired with its UCT value |
| SearchTree.VisitEntries | main.go:79-81 | each child, in order, paired with its visit count |
| SearchTree.PermuteChildrenValid | main.go:72-74 | listing a node's children in another order keeps the tree valid |
| SearchTree.ReorderChildren | main.go:72-74 | only the order of node `n`'s children changes, and they remain a permutation of the old children |
| SearchTree.SelectPromisingNode | main.go:65-76 | a leaf selects itself; otherwise the children become a permutation of themselves, sorted by UCT value, and the selected node is the earliest child of highest UCT value |
| SearchTree.FirstBestUct | main.go:65-76 | the earliest child of highest UCT value ranks at least as high as all siblings; if any child is unvisited, it is the first unvisited child |
| SearchTree.SelectUnvisitedFirst | main.go:65-76 | selection returns a child ranking at least as high as every sibling and strictly higher than every earlier one; when a child is unvisited it returns the first unvisited child |
| SearchTree.GetWinnerChild | main.go:78-83 | the children become a permutation of themselves, sorted by visit count, the tree stays valid, and the winner is the new first child, the earliest child of highest visit count |
| SearchTree.SortByVisits | main.go:78-83 | the sorted children are in descending visit order, and children with equal counts keep their prior order |
| SearchTree.FirstBestVisits | main.go:78-83 | the earliest most-visited child has at least as many visits as every sibling, and strictly more than every earlier one |
| SearchTree.WinnerChildMostVisited | main.go:78-83 | the winner is a most visited child, ties going to the earliest one, and the children end up as a stable descending permutation by visit count |
| Mcts.ValidTreeIsUpward | main.go:218-227 | in a valid tree every parent link points to a smaller index, so the walk to the root terminates |
| Mcts.OnPathBelow | main.go:218-227 | a parent chain only climbs to smaller indices |
| Mcts.RootOnEveryPath | main.go:218-227 | every parent chain ends at the root |
| Mcts.Credit | main.go:221-224 | one node gains one visit, and gains 10 points exactly when its player number is the result |
| Mcts.BackPropagation | main.go:218-227 | exactly the nodes on the chain from `x` to the root gain one visit; of those, exactly the ones whose player number is the result gain 10 points; every other node, and the tree's shape, is unchanged |
| Mcts.BackPropagationReachesRoot | main.go:218-227 | the root gains exactly one visit |
| Mcts.DrawAddsNoScore | main.go:222-224 | a drawn playout adds score nowhere when no node has the draw code as its player number |
| Mcts.PlayoutBoard | main.go:210-213 | the playout loop stops, and the number of moves drops with every turn; its final board is not in progress and only adds player marks in cells that were empty |
| Mcts.SimulateRandomPlayout | main.go:207-216 | the result is `O`, `X` or `Draw`, never `InProgress`, and it is the status of a board that completes the node's board |
| Mcts.SumVisitsWithout | main.go:185-205 | leaving one node out of a list takes exactly that node's visits off the total |
| Mcts.SumVisitsPermutation | main.go:185-205 | reordering the root's children does not change their total visits |
| Mcts.SumVisitsUnvisited | main.go:185-205 | unvisited children add nothing to the total |
| Mcts.SumVisitsBump | main.go:185-205 | one more visit for one listed node raises the total by the number of times that node is listed |
| Mcts.SumVisitsFrame | main.go:185-205 | nodes whose visits are unchanged keep their total |
| Mcts.SearchStarts | main.go:185-189 | a new tree for a board with an empty cell satisfies the search invariant at zero iterations |
| Mcts.SelectKeepsInvariant | main.go:190 | reordering the root's children keeps the search invariant and every visit count |
| Mcts.RootVisitedFirst | main.go:185-205 | under the search invariant, the root has been visited once any of its children has, so every root child can be ranked |
| Mcts.SelectStep | main.go:190 | selection from the root keeps the invariant and returns a child of the root |
| Mcts.ExpandKeepsInvariant | main.go:191-193 | expanding a child of the root keeps the invariant and leaves the root unchanged |
| Mcts.BackPropagationKeepsInvariant | main.go:194-200 | a playout credited from the selected child, or from one of its children, completes one more iteration of the invariant |
| Mcts.FinishSearch | main.go:203-204 | the final choice keeps the invariant, and the first root child afterwards is a most visited one |
| Mcts.SelectFacts | main.go:190 | selection changes only the order of the root's children and returns a node in the arena |
| Mcts.ExpandFacts | main.go:191-193 | expansion appends new nodes with the expanded node's player number, and existing nodes keep their states |
| Mcts.ExpandIfLeaf | main.go:191-193 | the selected node ends up with children exactly when it had some or its game is in progress; existing states are kept |
| Mcts.ChooseToExplore | main.go:194-197 | the node explored is the selected node exactly when it has no children; otherwise it is one of its children |
| Mcts.SearchIteration | main.go:190-201 | one iteration keeps the tree valid, gives the root exactly one more visit, and keeps its board |
| Mcts.IterationKeepsInvariant | main.go:189-201 | each iteration turns the invariant for `k` iterations into the invariant for `k + 1` |
| Mcts.FindNextMove | main.go:185-205 | the result is the board after one move of the player; the root was visited once per iteration, and its children's visits sum to the iteration count; the move chosen is a most visited root child |

## Left out

- `main` and `TicTacToe.Print`: console input and output are outside the
  search.
- `FindNextMove2` is not modelled. It never increases its iteration
  counter, so it does not terminate, and nothing calls it.
- The UCT formula (`Score / visits + 1.41 * sqrt(ln(parent visits) / visits)`
  in `float64`) is a caller-supplied function. The cached `UCTValue` field is
  not stored, because nothing reads it except the sort right after it is
  filled.
- `math/rand` is not modelled: no distribution claims are made, and draws
  are parameters.
- `Node.Clone` is not modelled. The search does not use it, and the copy
  keeps the original node's parent rather than a copied one.
- The `Board` interface is not modelled; it has only the tic-tac-toe
  implementation here.
- Integer widths are unbounded. The program's `int` counters would wrap only
  after 2^63 visits.
- The score is a whole number of points. In the program it is a `float64`
  that only ever grows by 10.
- Go panics are preconditions:
  - `GetWinnerChild` on a node without children fails on an index out of
    range, so it requires a child;
  - `FillUctValue` on a visited node without a parent dereferences nil, so it
    requires a parent;
  - `PerformMove` and `NextState` index the board with the move, and a
    move outside 0 to 8 fails on an index out of range. The `Cell` type
    rules such moves out. No caller inside the search passes one; `main`'s
    console input can, and `main` is left out.
- SearchTree.NextState: does not give the new state the mover's player
  number (the last player to act, as main.go:116 describes the field) or
  the zero statistics of `NewState`. `State.Clone` copies the parent's
  number and statistics, and `NextState` changes only the board.
- SearchTree.CreateChild: does not give the child the mover's player number
  or zero statistics, for the same reason.
- SearchTree.ExpandNode: does not give the children the mover's player
  number or zero statistics, for the same reason.
- SearchTree.StateRandomPlay: does not flip the player number of the
  returned state, because the program copies it.
- Mcts.PlayoutBoard: requires a player number of `O` or `X`. With `Empty` as
  a player every other turn writes `Empty` into an empty cell, so the number
  of moves does not drop with every turn.
- Mcts.SimulateRandomPlayout: requires the node's player number to be `O`
  or `X`, for the reason given for PlayoutBoard. It also requires enough
  draws for a full game, at least one per empty cell; the program draws as
  often as it needs.
- SearchTree.FillUctValue: requires a visited child's parent to have been
  visited, because the program's value there is NaN, which no rank models.
  `SelectPromisingNode` and `Mcts.SearchIteration` carry the same condition
  for the selecting node.
- Mcts.SearchIteration: requires every node to carry a player number of `O`
  or `X`, at least nine playout draws, and a root that was visited whenever
  one of its children was.
- Mcts.FindNextMove: the player must be `O` or `X` and the board must have
  an empty cell. A full board leaves the root without children, and
  `GetWinnerChild` then fails. A negative iteration count is not
  representable.
